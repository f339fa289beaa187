/** The in-memory task store and its route handlers: a table of tasks and an id counter,
    updated in place by create, update, delete and the status transitions. Each handler that
    would raise an HTTP error returns an `Error` kind instead and then changes nothing. */
module TaskStore {
  import opened Wrappers
  import opened Schemas
  import opened TaskTable

  /** Why a request fails: no task with the id (404), a status filter other than
      "completed" or "pending" (400), or a body the schema rejects (422). */
  datatype Error = NotFound | BadFilter | Invalid

  /** The status filter of get_tasks_by_status: "completed" selects done tasks, "pending"
      selects open ones, and any other string is rejected. */
  function ParseStatus(statusFilter: string): (r: Option<bool>)
    ensures r == Some(true) <==> statusFilter == "completed"
    ensures r == Some(false) <==> statusFilter == "pending"
    ensures r.None? <==> statusFilter != "completed" && statusFilter != "pending"
  {
    if statusFilter == "completed" then Some(true)
    else if statusFilter == "pending" then Some(false)
    else None
  }

  class Store {
    var tasks: seq<Task>
    var nextId: nat

    /** Ids are fresh, distinct and increasing, titles valid. */
    ghost predicate Valid()
      reads this
    {
      WellFormed(tasks, nextId)
    }

    /** The store at start-up: no tasks, and the first id to hand out is 1. */
    constructor ()
      ensures Valid()
      ensures tasks == [] && nextId == FirstId
    {
      tasks := [];
      nextId := FirstId;
    }

    /** All stored tasks, in stored order. */
    method GetTasks() returns (r: seq<Task>)
      ensures r == tasks
    {
      r := tasks;
    }

    /** The task with id `taskId`, or NotFound when no stored task has that id. */
    function GetTask(taskId: int): (r: Result<Task, Error>)
      reads this
      ensures r.Ok? ==> r.value in tasks && r.value.id == taskId
      ensures r.Err? ==> r.error == NotFound && forall t :: t in tasks ==> t.id != taskId
      ensures r.Ok? && Valid() ==> forall t :: t in tasks && t.id == taskId ==> t == r.value
    {
      match Find(tasks, taskId)
      case None =>
        assert forall t :: t in tasks ==> t.id != taskId by {
          forall t | t in tasks ensures t.id != taskId {
            var j :| 0 <= j < |tasks| && tasks[j] == t;
          }
        }
        Err(NotFound)
      case Some(i) =>
        assert Valid() ==> forall t :: t in tasks && t.id == taskId ==> t == tasks[i] by {
          if Valid() {
            forall t | t in tasks && t.id == taskId ensures t == tasks[i] {
              var j :| 0 <= j < |tasks| && tasks[j] == t;
              FindUnique(tasks, nextId, taskId, j);
            }
          }
        }
        Ok(tasks[i])
    }

    /** create_task: validate the body, give the new task the current counter value as id,
        append it and bump the counter by one. The new task is then found under its id. */
    method CreateTask(body: CreateBody) returns (r: Result<Task, Error>)
      requires Valid()
      modifies this
      ensures Valid()
      ensures ParseCreate(body).None? ==>
        r == Err(Invalid) && tasks == old(tasks) && nextId == old(nextId)
      ensures ParseCreate(body).Some? ==>
        r.Ok? && r.value == Task(old(nextId), body.title.value, ParseCreate(body).value.done) &&
        tasks == old(tasks) + [r.value] && nextId == old(nextId) + 1
      ensures r.Ok? ==> GetTask(r.value.id) == r
    {
      match ParseCreate(body)
      case None =>
        r := Err(Invalid);
      case Some(data) =>
        AppendFresh(tasks, nextId, data.title, data.done);
        var newTask := Task(nextId, data.title, data.done);
        tasks := tasks + [newTask];
        nextId := nextId + 1;
        r := Ok(newTask);
    }

    /** update_task: validate the body, then patch the task with id `taskId` in place; a
        supplied field replaces the stored one, an absent one is kept. Nothing else changes. */
    method UpdateTask(taskId: int, u: TaskUpdate) returns (r: Result<Task, Error>)
      requires Valid()
      modifies this
      ensures Valid()
      ensures nextId == old(nextId)
      ensures !ValidUpdate(u) ==> r == Err(Invalid) && tasks == old(tasks)
      ensures ValidUpdate(u) && Find(old(tasks), taskId).None? ==>
        r == Err(NotFound) && tasks == old(tasks)
      ensures ValidUpdate(u) && Find(old(tasks), taskId).Some? ==>
        tasks == UpdateAt(old(tasks), taskId, u) &&
        r == Ok(Patched(old(tasks)[Find(old(tasks), taskId).value], u))
      ensures r.Ok? ==> GetTask(taskId) == r
    {
      if !ValidUpdate(u) {
        r := Err(Invalid);
        return;
      }
      match Find(tasks, taskId)
      case None =>
        r := Err(NotFound);
      case Some(i) =>
        UpdateAtWellFormed(tasks, nextId, taskId, u);
        FindSameIds(tasks, UpdateAt(tasks, taskId, u), taskId);
        tasks := tasks[i := Patched(tasks[i], u)];
        r := Ok(tasks[i]);
    }

    /** delete_task: remove the task with id `taskId`, keeping the others in order; the
        counter is not touched, so ids are never reused. A second delete fails NotFound. */
    method DeleteTask(taskId: int) returns (r: Result<(), Error>)
      requires Valid()
      modifies this
      ensures Valid()
      ensures nextId == old(nextId)
      ensures Find(old(tasks), taskId).None? ==> r == Err(NotFound) && tasks == old(tasks)
      ensures Find(old(tasks), taskId).Some? ==>
        r == Ok(()) && tasks == Without(old(tasks), taskId) &&
        var i := Find(old(tasks), taskId).value;
        tasks == old(tasks)[..i] + old(tasks)[i + 1..]
      ensures GetTask(taskId) == Err(NotFound)
    {
      match Find(tasks, taskId)
      case None =>
        r := Err(NotFound);
      case Some(i) =>
        DeleteFound(tasks, nextId, taskId, i);
        tasks := Without(tasks, taskId);
        r := Ok(());
    }

    /** mark_task_complete: set `done` on the task with id `taskId`; NotFound otherwise. */
    method MarkTaskComplete(taskId: int) returns (r: Result<Task, Error>)
      requires Valid()
      modifies this
      ensures Valid()
      ensures nextId == old(nextId)
      ensures tasks == MarkAt(old(tasks), taskId, true)
      ensures r.Err? <==> Find(old(tasks), taskId).None?
      ensures r.Err? ==> r.error == NotFound
      ensures r.Ok? ==> r.value.done && GetTask(taskId) == r
    {
      r := SetDone(taskId, true);
    }

    /** mark_task_incomplete: clear `done` on the task with id `taskId`; NotFound otherwise. */
    method MarkTaskIncomplete(taskId: int) returns (r: Result<Task, Error>)
      requires Valid()
      modifies this
      ensures Valid()
      ensures nextId == old(nextId)
      ensures tasks == MarkAt(old(tasks), taskId, false)
      ensures r.Err? <==> Find(old(tasks), taskId).None?
      ensures r.Err? ==> r.error == NotFound
      ensures r.Ok? ==> !r.value.done && GetTask(taskId) == r
    {
      r := SetDone(taskId, false);
    }

    /** The assignment `task.done = done` shared by the two status handlers. */
    method SetDone(taskId: int, done: bool) returns (r: Result<Task, Error>)
      requires Valid()
      modifies this
      ensures Valid()
      ensures nextId == old(nextId)
      ensures tasks == MarkAt(old(tasks), taskId, done)
      ensures r.Err? <==> Find(old(tasks), taskId).None?
      ensures r.Err? ==> r.error == NotFound
      ensures r.Ok? ==> r.value.done == done && GetTask(taskId) == r
    {
      match Find(tasks, taskId)
      case None =>
        r := Err(NotFound);
      case Some(i) =>
        MarkAtWellFormed(tasks, nextId, taskId, done);
        MarkAtFound(tasks, taskId, done);
        tasks := tasks[i := tasks[i].(done := done)];
        r := Ok(tasks[i]);
    }

    /** get_tasks_by_status: the done tasks for "completed", the open ones for "pending",
        each in stored order; BadFilter for any other string. */
    function GetTasksByStatus(statusFilter: string): (r: Result<seq<Task>, Error>)
      reads this
      ensures r.Err? <==> statusFilter != "completed" && statusFilter != "pending"
      ensures r.Err? ==> r.error == BadFilter
      ensures r.Ok? ==> Subseq(r.value, tasks)
      ensures r.Ok? ==> forall t :: t in r.value <==> t in tasks && t.done == (statusFilter == "completed")
    {
      match ParseStatus(statusFilter)
      case None => Err(BadFilter)
      case Some(done) =>
        WithStatusSubseq(tasks, done);
        Ok(WithStatus(tasks, done))
    }
  }

  /** The two status filters split the store: every task is in exactly one of the results. */
  lemma StatusFiltersPartition(s: Store)
    ensures s.GetTasksByStatus("completed").Ok? && s.GetTasksByStatus("pending").Ok?
    ensures multiset(s.GetTasksByStatus("completed").value) +
            multiset(s.GetTasksByStatus("pending").value) == multiset(s.tasks)
  {
    WithStatusPartition(s.tasks);
  }

  /** The example session: create "Buy milk" in a fresh store, complete it, look up a
      missing id, use a bogus filter, and delete the task twice. */
  method ExampleSession()
  {
    var store := new Store();
    var created := store.CreateTask(CreateBody(Some("Buy milk"), None));
    assert created == Ok(Task(1, "Buy milk", false));
    var completed := store.MarkTaskComplete(1);
    assert completed == Ok(Task(1, "Buy milk", true));
    assert store.GetTask(2) == Err(NotFound);
    assert store.GetTasksByStatus("bogus") == Err(BadFilter);
    var first := store.DeleteTask(1);
    assert first == Ok(());
    var second := store.DeleteTask(1);
    assert second == Err(NotFound);
  }
}
