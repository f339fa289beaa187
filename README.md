# Task store of the easy task API, in Dafny

This project models the in-memory task store of the easy version of the task API
(`easy/main.py`). The store is a list of tasks plus an id counter that starts at 1. The HTTP
handlers are operations on that table:

- list all tasks;
- get one task by id;
- create a task;
- partially update a task;
- delete a task;
- mark a task complete or incomplete;
- filter tasks by status.

The request schemas form the validation layer: a title is 1 to 100 characters, and `done`
defaults to false.

Layout:

- `wrappers.dfy` (module `Wrappers`): `Option` and `Result`.
- `schemas.dfy` (module `Schemas`): the title constraint and the create and update bodies.
  `ParseCreate` models validation of a create body, including the default for `done`.
- `task_table.dfy` (module `TaskTable`): the `Task` record and the table invariant
  `WellFormed`. It also holds the pure operations on a `seq<Task>`: search by id (`Find`, the
  `next(...)` search every handler starts with), removal by id, the status filter and the
  in-place edits. The lemmas about them are here too.
- `task_store.dfy` (module `TaskStore`): the class `Store`, with fields `tasks: seq<Task>`
  and `nextId: nat`, and one member per route handler. `Valid()` is `WellFormed(tasks, nextId)`.
  Every state-changing method preserves it and states its new state as a function of the old
  one. `ExampleSession` is a client whose assertions the verifier proves from these contracts alone.

The HTTP exceptions become the error kinds `NotFound` (404), `BadFilter` (400) and `Invalid`
(422, a body the schema rejects). A failing call changes nothing. Schema validation runs
before a handler, so an invalid update body gives `Invalid` even when the id does not exist.

The advanced variant of the repository behaves differently: owners and authentication, titles
of up to 200 characters, newest-first listing with limit and offset. That variant is not part
of this model. The easy version lists tasks in stored (insertion) order, and the model
follows that code.

## Model

| member | source | states |
|---|---|---|
| `Schemas.ParseCreate` | easy/main.py:23-25 | a create body is accepted iff its title is present and 1..100 characters long; the accepted title is the given one; an omitted `done` becomes false, a supplied one is kept |
| `TaskTable.Find` | easy/main.py:65 | the result is the index of the first task with the id, and no earlier task has it; `None` iff no task has the id |
| `TaskTable.FindIsFirstMatch` | easy/main.py:65 | any index that matches and has no earlier match is exactly what the search returns |
| `TaskTable.FindUnique` | easy/main.py:84-87 | in a table satisfying the invariant, every task carrying an id is the one the search finds, so ids identify tasks |
| `TaskTable.WellFormedDistinct` | easy/main.py:84-87 | the invariant (ids strictly increasing) makes ids pairwise distinct |
| `TaskTable.FindSameIds` | easy/main.py:98-108 | tables with the same ids at the same positions give the same search result, so editing a task's fields does not move it |
| `TaskTable.AppendFresh` | easy/main.py:84-87 | appending a task whose id is the counter keeps the invariant once the counter goes up by one, and the new task is found under its id at the end of the table |
| `TaskTable.Without` | easy/main.py:127 | the tasks left after removal are exactly the stored tasks whose id differs, and there are no more of them than before |
| `TaskTable.WithoutAbsent` | easy/main.py:127 | removing an id no task has leaves the table unchanged |
| `TaskTable.WithoutConcat` | easy/main.py:127 | removing an id from two tables joined end to end is removing it from each and joining the results |
| `TaskTable.WithoutRemovesOne` | easy/main.py:120-127 | when exactly one task has the id, removal is that task cut out, with the tasks before and after it kept in order |
| `TaskTable.WithoutSubseq` | easy/main.py:127 | removal keeps the relative order of the remaining tasks |
| `TaskTable.WithoutNotFound` | easy/main.py:120-125 | after removal no task has the id, so a second delete finds nothing |
| `TaskTable.WithoutWellFormed` | easy/main.py:127 | removal keeps the invariant with the same counter, so a deleted id is never handed out again |
| `TaskTable.DeleteFound` | easy/main.py:120-127 | deleting an id found in a table satisfying the invariant cuts out exactly the task found, keeps the invariant, and leaves no task with that id |
| `TaskTable.WithStatus` | easy/main.py:176-179 | a task is in the filtered result iff it is stored and its `done` equals the requested value |
| `TaskTable.WithStatusSubseq` | easy/main.py:177 | the filtered tasks appear in stored order |
| `TaskTable.WithStatusPartition` | easy/main.py:176-179 | the done tasks and the open tasks together are the table as a multiset, and their counts add up to its length |
| `TaskTable.PatchedFields` | easy/main.py:105-108 | a partial update keeps the id; a supplied field takes the supplied value, an absent one keeps the old value |
| `TaskTable.PatchedEmptyAndIdempotent` | easy/main.py:105-108 | an update with no field supplied leaves the task as it was; applying the same update twice equals applying it once |
| `TaskTable.UpdateAt` | easy/main.py:98-110 | the task found under the id becomes its patched version; the length, every id and position, and every task with another id are kept; a missing id leaves the table as it was |
| `TaskTable.UpdateAtIdempotent` | easy/main.py:98-110 | repeating an update on the table changes nothing more |
| `TaskTable.UpdateAtEmpty` | easy/main.py:105-108 | an update that supplies nothing leaves the whole table unchanged |
| `TaskTable.UpdateAtWellFormed` | easy/main.py:29-32 | a validated update keeps the invariant: ids are untouched and a replacing title is 1..100 characters |
| `TaskTable.MarkAt` | easy/main.py:137-145 | the task found under the id gets the requested `done`; the length, every id, every title and every task with another id are kept; a missing id leaves the table as it was |
| `TaskTable.MarkIsDoneOnlyUpdate` | easy/main.py:144 | marking a task is the same as an update that supplies only `done` |
| `TaskTable.MarkAtFound` | easy/main.py:144-145 | after marking, the task is still found at the same place and has the requested status |
| `TaskTable.MarkLastWins` | easy/main.py:137-161 | of two status changes on one id only the last counts; so each mark is idempotent, and complete followed by incomplete leaves the task pending |
| `TaskTable.MarkAtWellFormed` | easy/main.py:144 | marking keeps the invariant with the same counter |
| `TaskStore.ParseStatus` | easy/main.py:170-176 | "completed" selects done tasks, "pending" selects open ones, and every other string is rejected (each direction of both equivalences) |
| `TaskStore.Store.constructor` | easy/main.py:36-37 | the store starts empty with counter 1 and satisfies the invariant |
| `TaskStore.Store.GetTasks` | easy/main.py:52-56 | returns the stored tasks as they are |
| `TaskStore.Store.GetTask` | easy/main.py:61-71 | returns a stored task with the requested id, the only one when the invariant holds; NotFound iff no stored task has that id |
| `TaskStore.Store.CreateTask` | easy/main.py:78-89 | an invalid body gives Invalid and changes nothing; otherwise the new task gets the old counter as id, the body's title and `done` (default false), goes at the end of the table with earlier tasks unchanged, the counter goes up by exactly one, the invariant holds, and looking the id up returns the new task |
| `TaskStore.Store.UpdateTask` | easy/main.py:94-110 | an invalid body gives Invalid and a missing id gives NotFound, both with no change; otherwise only the found task is patched, the counter is unchanged, and the stored and returned task agree |
| `TaskStore.Store.DeleteTask` | easy/main.py:115-128 | a missing id gives NotFound with no change; otherwise exactly the task with that id is cut out, the rest keep their order, the counter is unchanged; afterwards the id is not found |
| `TaskStore.Store.MarkTaskComplete` | easy/main.py:133-145 | the found task gets `done = true` and nothing else changes; NotFound iff no task has the id |
| `TaskStore.Store.MarkTaskIncomplete` | easy/main.py:149-161 | the found task gets `done = false` and nothing else changes; NotFound iff no task has the id |
| `TaskStore.Store.SetDone` | easy/main.py:137-161 | the assignment the two status handlers share: the table becomes the status-marked table, the counter is unchanged, and NotFound iff the id is missing |
| `TaskStore.Store.GetTasksByStatus` | easy/main.py:166-179 | BadFilter iff the filter is neither "completed" nor "pending"; otherwise the result is in stored order and holds exactly the stored tasks whose `done` matches the filter |
| `TaskStore.StatusFiltersPartition` | easy/main.py:176-179 | both filters succeed, and their results together are the stored tasks as a multiset |

## Left out

- HTTP routing, decorators, response models, status-code numbers and the root endpoint (easy/main.py:41-47): these are transport plumbing, and errors are abstract kinds instead.
- The German detail messages of the exceptions: only the error kind is modelled.
- Pydantic's coercion and type errors other than a missing or out-of-range title (say, a non-boolean `done`): the bodies are modelled as already typed values.
- Aliasing of the returned task object with the stored one: the model returns task values, which equal the stored task at the time of return.
- Concurrent requests on the module-level list: each operation is atomic and sequential.
- `intermediate/main.py`, `intermediate/models.py` and `intermediate/database.py`: they apply the same validation, partial-update, not-found and filter-check rules on an SQL session. Ids, listing order and timestamps there come from the database and are not modelled: the never-reused ids and stored-order results proved here are properties of the in-memory store only.
- The advanced variant (users, tokens, owner-scoped tasks, paginated newest-first listing) is not part of this model.
