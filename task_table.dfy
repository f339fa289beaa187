/** The task table as a value: the sequence of stored tasks and the pure operations the
    handlers perform on it (search by id, removal by id, filtering by status, in-place edits). */
module TaskTable {
  import opened Wrappers
  import opened Schemas

  datatype Task = Task(id: nat, title: string, done: bool)

  /** The first id the store hands out. */
  const FirstId: nat := 1

  /** The table invariant: the counter has not gone below FirstId, every id lies in
      [FirstId, nextId), ids strictly increase along the table (so they are pairwise
      distinct), and every title satisfies the schema. */
  predicate WellFormed(ts: seq<Task>, nextId: nat) {
    FirstId <= nextId &&
    (forall i :: 0 <= i < |ts| ==> FirstId <= ts[i].id < nextId && ValidTitle(ts[i].title)) &&
    (forall i, j :: 0 <= i < j < |ts| ==> ts[i].id < ts[j].id)
  }

  /** Increasing ids are pairwise distinct ids. */
  lemma WellFormedDistinct(ts: seq<Task>, n: nat)
    requires WellFormed(ts, n)
    ensures forall i, j :: 0 <= i < |ts| && 0 <= j < |ts| && i != j ==> ts[i].id != ts[j].id
  {
  }

  /** `a` is `b` with some elements left out and the rest in their original order. */
  predicate Subseq(a: seq<Task>, b: seq<Task>)
    decreases |b|
  {
    if a == [] then true
    else if b == [] then false
    else (a[0] == b[0] && Subseq(a[1..], b[1..])) || Subseq(a, b[1..])
  }

  // ---------------------------------------------------------------------------
  // Search by id

  /** Index of the first task whose id is `id`, or `None` if there is none. */
  function Find(ts: seq<Task>, id: int): (r: Option<nat>)
    ensures r.Some? ==> r.value < |ts| && ts[r.value].id == id
    ensures r.Some? ==> forall j :: 0 <= j < r.value ==> ts[j].id != id
    ensures r.None? ==> forall j :: 0 <= j < |ts| ==> ts[j].id != id
  {
    if ts == [] then None
    else if ts[0].id == id then Some(0)
    else match Find(ts[1..], id)
      case None => None
      case Some(k) => Some(k + 1)
  }

  /** Find is characterised by its contract: the first matching index, or none. */
  lemma FindIsFirstMatch(ts: seq<Task>, id: int, i: nat)
    requires i < |ts| && ts[i].id == id
    requires forall j :: 0 <= j < i ==> ts[j].id != id
    ensures Find(ts, id) == Some(i)
  {
  }

  /** In a well-formed table the task Find returns is the only one with that id. */
  lemma {:induction false} FindUnique(ts: seq<Task>, n: nat, id: int, j: nat)
    requires WellFormed(ts, n)
    requires j < |ts| && ts[j].id == id
    ensures Find(ts, id) == Some(j)
  {
  }

  /** Tables with the same ids at the same positions answer every search alike. */
  lemma FindSameIds(a: seq<Task>, b: seq<Task>, id: int)
    requires |a| == |b|
    requires forall j :: 0 <= j < |a| ==> a[j].id == b[j].id
    ensures Find(a, id) == Find(b, id)
  {
  }

  // ---------------------------------------------------------------------------
  // Create: append a task with a fresh id

  /** Appending a task whose id is `nextId` (and whose title is valid) keeps the invariant
      once the counter is bumped, and the new task is then the one found under its id. */
  lemma AppendFresh(ts: seq<Task>, n: nat, title: string, done: bool)
    requires WellFormed(ts, n) && ValidTitle(title)
    ensures WellFormed(ts + [Task(n, title, done)], n + 1)
    ensures Find(ts + [Task(n, title, done)], n) == Some(|ts|)
  {
    var ts' := ts + [Task(n, title, done)];
    forall j | 0 <= j < |ts| ensures ts'[j].id != n {
      assert ts'[j] == ts[j];
    }
    FindIsFirstMatch(ts', n, |ts|);
  }

  // ---------------------------------------------------------------------------
  // Delete: the table without a given id

  /** The tasks whose id is not `id`, in stored order. */
  function Without(ts: seq<Task>, id: int): (r: seq<Task>)
    ensures |r| <= |ts|
    ensures forall t :: t in r <==> t in ts && t.id != id
  {
    if ts == [] then []
    else if ts[0].id == id then Without(ts[1..], id)
    else [ts[0]] + Without(ts[1..], id)
  }

  /** Removing an id that does not occur changes nothing. */
  lemma {:induction false} WithoutAbsent(ts: seq<Task>, id: int)
    requires forall j :: 0 <= j < |ts| ==> ts[j].id != id
    ensures Without(ts, id) == ts
  {
    if ts != [] {
      WithoutAbsent(ts[1..], id);
      assert ts == [ts[0]] + ts[1..];
    }
  }

  /** Removal distributes over concatenation. */
  lemma {:induction false} WithoutConcat(a: seq<Task>, b: seq<Task>, id: int)
    ensures Without(a + b, id) == Without(a, id) + Without(b, id)
  {
    if a == [] {
      assert a + b == b;
    } else {
      assert (a + b)[1..] == a[1..] + b;
      WithoutConcat(a[1..], b, id);
    }
  }

  /** When exactly one task carries `id`, removal takes out exactly that task. */
  lemma WithoutRemovesOne(ts: seq<Task>, id: int, i: nat)
    requires i < |ts| && ts[i].id == id
    requires forall j :: 0 <= j < |ts| && j != i ==> ts[j].id != id
    ensures Without(ts, id) == ts[..i] + ts[i + 1..]
  {
    var before, after := ts[..i], ts[i + 1..];
    assert ts == before + ([ts[i]] + after);
    assert forall j :: 0 <= j < |before| ==> before[j] == ts[j];
    assert forall j :: 0 <= j < |after| ==> after[j] == ts[i + 1 + j];
    WithoutAbsent(before, id);
    WithoutAbsent(after, id);
    WithoutConcat(before, [ts[i]] + after, id);
    WithoutConcat([ts[i]], after, id);
  }

  /** Removal keeps the relative order of the remaining tasks. */
  lemma {:induction false} WithoutSubseq(ts: seq<Task>, id: int)
    ensures Subseq(Without(ts, id), ts)
  {
    if ts != [] {
      WithoutSubseq(ts[1..], id);
      if ts[0].id != id {
        assert ([ts[0]] + Without(ts[1..], id))[1..] == Without(ts[1..], id);
      }
    }
  }

  /** After removal the id is no longer found, so a second delete fails. */
  lemma WithoutNotFound(ts: seq<Task>, id: int)
    ensures Find(Without(ts, id), id).None?
  {
  }

  // ---------------------------------------------------------------------------
  // Subsequences of a well-formed table

  lemma {:induction false} SubseqMembers(a: seq<Task>, b: seq<Task>)
    requires Subseq(a, b)
    ensures forall t :: t in a ==> t in b
    decreases |b|
  {
    if a != [] {
      if a[0] == b[0] && Subseq(a[1..], b[1..]) {
        SubseqMembers(a[1..], b[1..]);
        assert a == [a[0]] + a[1..];
      } else {
        SubseqMembers(a, b[1..]);
      }
    }
  }

  /** Leaving tasks out of a well-formed table yields a well-formed table. */
  lemma {:induction false} SubseqWellFormed(a: seq<Task>, b: seq<Task>, n: nat)
    requires Subseq(a, b) && WellFormed(b, n)
    ensures WellFormed(a, n)
    decreases |b|
  {
    if a != [] {
      assert WellFormed(b[1..], n) by {
        forall i, j | 0 <= i < j < |b[1..]| ensures b[1..][i].id < b[1..][j].id {
          assert b[1..][i] == b[i + 1] && b[1..][j] == b[j + 1];
        }
      }
      if a[0] == b[0] && Subseq(a[1..], b[1..]) {
        SubseqWellFormed(a[1..], b[1..], n);
        SubseqMembers(a[1..], b[1..]);
        forall j | 1 <= j < |a| ensures a[0].id < a[j].id {
          assert a[j] == a[1..][j - 1];
          assert a[j] in b[1..];
          var k :| 0 <= k < |b[1..]| && b[1..][k] == a[j];
          assert b[k + 1] == a[j];
        }
      } else {
        SubseqWellFormed(a, b[1..], n);
      }
    }
  }

  /** Deleting keeps the invariant, with the same counter. */
  lemma WithoutWellFormed(ts: seq<Task>, n: nat, id: int)
    requires WellFormed(ts, n)
    ensures WellFormed(Without(ts, id), n)
  {
    WithoutSubseq(ts, id);
    SubseqWellFormed(Without(ts, id), ts, n);
  }

  /** Deleting a stored id from a well-formed table cuts out exactly the task found under
      it, keeps the invariant, and leaves no task with that id. */
  lemma DeleteFound(ts: seq<Task>, n: nat, id: int, i: nat)
    requires WellFormed(ts, n) && Find(ts, id) == Some(i)
    ensures Without(ts, id) == ts[..i] + ts[i + 1..]
    ensures WellFormed(Without(ts, id), n)
    ensures Find(Without(ts, id), id).None?
  {
    WellFormedDistinct(ts, n);
    WithoutRemovesOne(ts, id, i);
    WithoutWellFormed(ts, n, id);
    WithoutNotFound(ts, id);
  }

  // ---------------------------------------------------------------------------
  // Filter by status

  /** The tasks whose `done` flag equals `done`, in stored order. */
  function WithStatus(ts: seq<Task>, done: bool): (r: seq<Task>)
    ensures |r| <= |ts|
    ensures forall t :: t in r <==> t in ts && t.done == done
  {
    if ts == [] then []
    else if ts[0].done == done then [ts[0]] + WithStatus(ts[1..], done)
    else WithStatus(ts[1..], done)
  }

  /** Filtering keeps the stored order. */
  lemma {:induction false} WithStatusSubseq(ts: seq<Task>, done: bool)
    ensures Subseq(WithStatus(ts, done), ts)
  {
    if ts != [] {
      WithStatusSubseq(ts[1..], done);
      if ts[0].done == done {
        assert ([ts[0]] + WithStatus(ts[1..], done))[1..] == WithStatus(ts[1..], done);
      }
    }
  }

  /** The completed and the pending tasks together are exactly the table. */
  lemma {:induction false} WithStatusPartition(ts: seq<Task>)
    ensures multiset(WithStatus(ts, true)) + multiset(WithStatus(ts, false)) == multiset(ts)
    ensures |WithStatus(ts, true)| + |WithStatus(ts, false)| == |ts|
  {
    if ts != [] {
      WithStatusPartition(ts[1..]);
      assert ts == [ts[0]] + ts[1..];
    }
  }

  // ---------------------------------------------------------------------------
  // Partial update and the status transitions

  /** A task after a partial update: a supplied field replaces the stored one, an absent
      field keeps its old value, and the id never changes. */
  function Patched(t: Task, u: TaskUpdate): (r: Task)
  {
    Task(t.id,
         match u.title case None => t.title case Some(s) => s,
         match u.done case None => t.done case Some(d) => d)
  }

  /** Update keeps the id; the title changes only when supplied, `done` only when supplied. */
  lemma PatchedFields(t: Task, u: TaskUpdate)
    ensures Patched(t, u).id == t.id
    ensures u.title.None? ==> Patched(t, u).title == t.title
    ensures u.title.Some? ==> Patched(t, u).title == u.title.value
    ensures u.done.None? ==> Patched(t, u).done == t.done
    ensures u.done.Some? ==> Patched(t, u).done == u.done.value
  {
  }

  /** An update with no field supplied leaves the task as it was; applying an update
      twice is the same as applying it once. */
  lemma PatchedEmptyAndIdempotent(t: Task, u: TaskUpdate)
    ensures Patched(t, TaskUpdate(None, None)) == t
    ensures Patched(Patched(t, u), u) == Patched(t, u)
  {
  }

  /** The table after update_task on `id`: the first task with that id is patched and every
      other position is untouched; a missing id leaves the table as it was. */
  function UpdateAt(ts: seq<Task>, id: int, u: TaskUpdate): (r: seq<Task>)
    ensures |r| == |ts|
    ensures forall j :: 0 <= j < |ts| ==> r[j].id == ts[j].id
    ensures forall j :: 0 <= j < |ts| && ts[j].id != id ==> r[j] == ts[j]
    ensures Find(ts, id).None? ==> r == ts
    ensures Find(ts, id).Some? ==> r[Find(ts, id).value] == Patched(ts[Find(ts, id).value], u)
  {
    match Find(ts, id)
    case None => ts
    case Some(i) => ts[i := Patched(ts[i], u)]
  }

  /** The table after setting `done` on the task with id `id` (mark complete / incomplete). */
  function MarkAt(ts: seq<Task>, id: int, done: bool): (r: seq<Task>)
    ensures |r| == |ts|
    ensures forall j :: 0 <= j < |ts| ==> r[j].id == ts[j].id && r[j].title == ts[j].title
    ensures forall j :: 0 <= j < |ts| && ts[j].id != id ==> r[j] == ts[j]
    ensures Find(ts, id).None? ==> r == ts
    ensures Find(ts, id).Some? ==> r[Find(ts, id).value].done == done
  {
    match Find(ts, id)
    case None => ts
    case Some(i) => ts[i := ts[i].(done := done)]
  }

  /** Marking is an update that supplies only `done`. */
  lemma MarkIsDoneOnlyUpdate(ts: seq<Task>, id: int, done: bool)
    ensures MarkAt(ts, id, done) == UpdateAt(ts, id, TaskUpdate(None, Some(done)))
  {
  }

  /** After marking, the task found under `id` has the requested status. */
  lemma MarkAtFound(ts: seq<Task>, id: int, done: bool)
    requires Find(ts, id).Some?
    ensures Find(MarkAt(ts, id, done), id) == Find(ts, id)
    ensures MarkAt(ts, id, done)[Find(ts, id).value].done == done
  {
    FindSameIds(ts, MarkAt(ts, id, done), id);
  }

  /** Of two status changes on the same task only the last one counts: each mark is
      idempotent, and complete followed by incomplete leaves the task pending. */
  lemma MarkLastWins(ts: seq<Task>, id: int, first: bool, second: bool)
    ensures MarkAt(MarkAt(ts, id, first), id, second) == MarkAt(ts, id, second)
  {
    FindSameIds(ts, MarkAt(ts, id, first), id);
  }

  /** Repeating an update changes nothing more. */
  lemma UpdateAtIdempotent(ts: seq<Task>, id: int, u: TaskUpdate)
    ensures UpdateAt(UpdateAt(ts, id, u), id, u) == UpdateAt(ts, id, u)
  {
    FindSameIds(ts, UpdateAt(ts, id, u), id);
  }

  /** An update that supplies nothing leaves the table as it was. */
  lemma UpdateAtEmpty(ts: seq<Task>, id: int)
    ensures UpdateAt(ts, id, TaskUpdate(None, None)) == ts
  {
    match Find(ts, id)
    case None =>
    case Some(i) =>
      assert Patched(ts[i], TaskUpdate(None, None)) == ts[i];
  }

  /** A validated update keeps the invariant, with the same counter. */
  lemma UpdateAtWellFormed(ts: seq<Task>, n: nat, id: int, u: TaskUpdate)
    requires WellFormed(ts, n) && ValidUpdate(u)
    ensures WellFormed(UpdateAt(ts, id, u), n)
  {
  }

  /** Marking keeps the invariant, with the same counter. */
  lemma MarkAtWellFormed(ts: seq<Task>, n: nat, id: int, done: bool)
    requires WellFormed(ts, n)
    ensures WellFormed(MarkAt(ts, id, done), n)
  {
  }
}
