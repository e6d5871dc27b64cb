/**
 The in-memory core of the enhanced todo list: the `Task` record and the two
 list transformations the application performs between loading and saving its
 data file, adding a task and toggling a task's completion flag.

 The creation time comes from the system clock and the deadline from a date
 parser; both reach the model as already-computed `Instant` values supplied by
 the caller, and nothing in the core inspects them.
 */
module TodoList {

  /** The usual Some/None wrapper, used for "no matching task". */
  datatype Option<+T> = None | Some(value: T)

  /** A point in time (the application's `time.Time`), kept as an uninspected stamp. */
  datatype Instant = Instant(stamp: int)

  /** One todo item, with the fields of the persisted record. */
  datatype Task = Task(
    id: int,
    title: string,
    done: bool,
    createdAt: Instant,
    deadline: Instant,
    taskType: string
  )

  /** The task with its completion flag inverted and every other field kept. */
  function Flip(t: Task): (r: Task)
    ensures r.done == !t.done
    ensures SameExceptDone(r, t)
  {
    t.(done := !t.done)
  }

  /** `a` and `b` agree on every field except possibly `done`. */
  predicate SameExceptDone(a: Task, b: Task)
  {
    && a.id == b.id
    && a.title == b.title
    && a.createdAt == b.createdAt
    && a.deadline == b.deadline
    && a.taskType == b.taskType
  }

  /** The IDs of the list are exactly 1, 2, ..., n in position order. */
  predicate SequentialIds(tasks: seq<Task>)
  {
    forall i :: 0 <= i < |tasks| ==> tasks[i].id == i + 1
  }

  /** No two records of the list share an ID. */
  predicate UniqueIds(tasks: seq<Task>)
  {
    forall i, j :: 0 <= i < j < |tasks| ==> tasks[i].id != tasks[j].id
  }

  // ---------------------------------------------------------------------------
  // Add
  // ---------------------------------------------------------------------------

  /**
   Appends a new task. Its ID is the current number of tasks plus one, it
   starts not done, and it carries the caller's title, type, creation time and
   deadline unchanged. No earlier record is touched.
   */
  function Add(tasks: seq<Task>, title: string, deadline: Instant, taskType: string, now: Instant): (r: seq<Task>)
    ensures |r| == |tasks| + 1
    ensures r[..|tasks|] == tasks
    ensures r[|tasks|].id == |tasks| + 1
    ensures !r[|tasks|].done
    ensures r[|tasks|].title == title && r[|tasks|].taskType == taskType
    ensures r[|tasks|].createdAt == now && r[|tasks|].deadline == deadline
  {
    var created := Task(|tasks| + 1, title, false, now, deadline, taskType);
    tasks + [created]
  }

  /** Adding to a list whose IDs are 1..n gives a list whose IDs are 1..n+1. */
  lemma AddKeepsSequentialIds(tasks: seq<Task>, title: string, deadline: Instant, taskType: string, now: Instant)
    requires SequentialIds(tasks)
    ensures SequentialIds(Add(tasks, title, deadline, taskType, now))
  {
    var r := Add(tasks, title, deadline, taskType, now);
    forall i | 0 <= i < |r|
      ensures r[i].id == i + 1
    {
      if i < |tasks| {
        assert r[i] == r[..|tasks|][i];
      }
    }
  }

  /**
   On a list with IDs 1..n the new ID n+1 is fresh: no existing record has it,
   so a later toggle of that ID reaches exactly the new record.
   */
  lemma AddFreshId(tasks: seq<Task>, title: string, deadline: Instant, taskType: string, now: Instant)
    requires SequentialIds(tasks)
    ensures forall i :: 0 <= i < |tasks| ==> tasks[i].id != |tasks| + 1
    ensures Toggle(Add(tasks, title, deadline, taskType, now), |tasks| + 1)
            == tasks + [Task(|tasks| + 1, title, true, now, deadline, taskType)]
  {
    var created := Task(|tasks| + 1, title, false, now, deadline, taskType);
    assert Add(tasks, title, deadline, taskType, now) == tasks + [created];
    ToggleAppended(tasks, created);
  }

  // ---------------------------------------------------------------------------
  // First match and toggle
  // ---------------------------------------------------------------------------

  /**
   The position of the first record carrying `id`, scanning from the front,
   or None when no record carries it.
   */
  function FirstMatch(tasks: seq<Task>, id: int): (k: Option<nat>)
    ensures k.Some? ==> k.value < |tasks| && tasks[k.value].id == id
    ensures k.Some? ==> forall j :: 0 <= j < k.value ==> tasks[j].id != id
    ensures k.None? <==> forall j :: 0 <= j < |tasks| ==> tasks[j].id != id
  {
    if |tasks| == 0 then None
    else if tasks[0].id == id then Some(0)
    else match FirstMatch(tasks[1..], id)
      case None => None
      case Some(k) => Some(k + 1)
  }

  /**
   Flips `done` on the first record whose ID is `id` and leaves every other
   record as it was, including later records carrying the same ID. When no
   record carries `id` the list comes back unchanged.
   */
  function Toggle(tasks: seq<Task>, id: int): (r: seq<Task>)
    ensures |r| == |tasks|
    ensures forall i {:trigger r[i]} :: 0 <= i < |tasks| ==>
      r[i] == (if FirstMatch(tasks, id) == Some(i) then Flip(tasks[i]) else tasks[i])
    ensures FirstMatch(tasks, id).None? ==> r == tasks
  {
    if |tasks| == 0 then []
    else if tasks[0].id == id then [Flip(tasks[0])] + tasks[1..]
    else [tasks[0]] + Toggle(tasks[1..], id)
  }

  /** When the first match is at position k, toggle is the update of position k. */
  lemma ToggleAtMatch(tasks: seq<Task>, id: int, k: nat)
    requires FirstMatch(tasks, id) == Some(k)
    ensures Toggle(tasks, id) == tasks[k := Flip(tasks[k])]
  {
  }

  /** A record whose ID no earlier record carries is the first match for it. */
  lemma FirstMatchAppend(tasks: seq<Task>, t: Task)
    requires forall i :: 0 <= i < |tasks| ==> tasks[i].id != t.id
    ensures FirstMatch(tasks + [t], t.id) == Some(|tasks|)
  {
    var s := tasks + [t];
    assert s[|tasks|].id == t.id;
    assert forall j :: 0 <= j < |tasks| ==> s[j] == tasks[j];
  }

  /** Toggling the ID of an appended record that no earlier record carries flips that record alone. */
  lemma ToggleAppended(tasks: seq<Task>, t: Task)
    requires forall i :: 0 <= i < |tasks| ==> tasks[i].id != t.id
    ensures Toggle(tasks + [t], t.id) == tasks + [Flip(t)]
  {
    FirstMatchAppend(tasks, t);
    ToggleAtMatch(tasks + [t], t.id, |tasks|);
    assert (tasks + [t])[|tasks| := Flip(t)] == tasks + [Flip(t)];
  }

  /**
   The scan of the data file's records as the application writes it: walk the
   list in order, flip the first record whose ID matches, and stop there.
   */
  method ToggleTaskDone(tasks: seq<Task>, id: int) returns (r: seq<Task>)
    ensures r == Toggle(tasks, id)
  {
    r := tasks;
    var i := 0;
    while i < |r|
      invariant 0 <= i <= |r|
      invariant r == tasks
      invariant forall j :: 0 <= j < i ==> tasks[j].id != id
      decreases |r| - i
    {
      if r[i].id == id {
        assert FirstMatch(tasks, id) == Some(i);
        r := r[i := Flip(r[i])];
        break;
      }
      i := i + 1;
    }
  }

  /** Toggle never changes an ID, a title, a type or a timestamp. */
  lemma ToggleKeepsFields(tasks: seq<Task>, id: int)
    ensures |Toggle(tasks, id)| == |tasks|
    ensures forall i :: 0 <= i < |tasks| ==> SameExceptDone(Toggle(tasks, id)[i], tasks[i])
  {
  }

  /**
   First-match semantics: when records `i < j` both carry `id`, the toggle
   leaves record `j` alone.
   */
  lemma ToggleSkipsLaterDuplicates(tasks: seq<Task>, id: int, i: nat, j: nat)
    requires i < j < |tasks|
    requires tasks[i].id == id && tasks[j].id == id
    ensures Toggle(tasks, id)[j] == tasks[j]
  {
  }

  /** Toggle reads the ID only, so a toggled list has the same first match. */
  lemma {:induction false} FirstMatchAfterToggle(tasks: seq<Task>, id: int, other: int)
    ensures FirstMatch(Toggle(tasks, id), other) == FirstMatch(tasks, other)
  {
    if |tasks| > 0 && tasks[0].id != id {
      FirstMatchAfterToggle(tasks[1..], id, other);
      assert Toggle(tasks, id)[1..] == Toggle(tasks[1..], id);
    } else if |tasks| > 0 {
      assert Toggle(tasks, id)[1..] == tasks[1..];
    }
  }

  /** Toggling the same ID twice gives back the original list. */
  lemma ToggleTwice(tasks: seq<Task>, id: int)
    ensures Toggle(Toggle(tasks, id), id) == tasks
  {
    FirstMatchAfterToggle(tasks, id, id);
  }

  /** On a list whose IDs are 1..n, `FirstMatch` finds ID k at position k-1. */
  lemma FirstMatchSequential(tasks: seq<Task>, id: int)
    requires SequentialIds(tasks)
    ensures FirstMatch(tasks, id) == if 1 <= id <= |tasks| then Some(id - 1) else None
  {
    if 1 <= id <= |tasks| {
      var k := FirstMatch(tasks, id);
      assert tasks[id - 1].id == id;
      assert k.Some?;
    }
  }

  /**
   Toggle keeps IDs 1..n, and on such a list it flips exactly the record at
   position id-1.
   */
  lemma ToggleSequential(tasks: seq<Task>, id: int)
    requires SequentialIds(tasks)
    ensures SequentialIds(Toggle(tasks, id))
    ensures forall i :: 0 <= i < |tasks| ==>
      Toggle(tasks, id)[i].done == (tasks[i].done != (id == i + 1))
  {
    FirstMatchSequential(tasks, id);
  }

  /** IDs 1..n are pairwise distinct. */
  lemma SequentialIdsAreUnique(tasks: seq<Task>)
    requires SequentialIds(tasks)
    ensures UniqueIds(tasks)
  {
  }
}
