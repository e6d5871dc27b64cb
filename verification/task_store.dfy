/**
 The task store seen from the user interface: every add or toggle request loads
 the data file, transforms the list in memory and writes the whole list back;
 a list request only loads it.

 The data file is `None` while it does not exist and `Some(tasks)` once a
 request has saved `tasks`. Saving and re-loading are taken to give back the
 same records; the JSON encoding itself is not part of this model.
 */
module TaskStore {
  import opened TodoList

  /** The data file: absent, or holding the records last saved. */
  type DataFile = Option<seq<Task>>

  /** The two requests that change the list. */
  datatype Request =
    | AddRequest(title: string, deadline: Instant, taskType: string, now: Instant)
    | ToggleRequest(id: int)

  /** Reading the data file; a missing file reads as the empty list. */
  function Load(file: DataFile): (r: seq<Task>)
    ensures file.None? ==> |r| == 0
    ensures file.Some? ==> r == file.value
  {
    match file
    case None => []
    case Some(tasks) => tasks
  }

  /**
   One request: load, transform, save. After it the data file exists, one
   record longer for an add and as long as before for a toggle.
   */
  function Apply(file: DataFile, req: Request): (r: DataFile)
    ensures r.Some?
    ensures req.AddRequest? ==> |Load(r)| == |Load(file)| + 1
    ensures req.ToggleRequest? ==> |Load(r)| == |Load(file)|
  {
    var tasks := Load(file);
    match req
    case AddRequest(title, deadline, taskType, now) => Some(Add(tasks, title, deadline, taskType, now))
    case ToggleRequest(id) => Some(Toggle(tasks, id))
  }

  /** A sequence of requests served one after another. */
  function Run(file: DataFile, reqs: seq<Request>): DataFile
    decreases |reqs|
  {
    if |reqs| == 0 then file else Run(Apply(file, reqs[0]), reqs[1..])
  }

  /** How many of the requests are adds. */
  function CountAdds(reqs: seq<Request>): nat
  {
    if |reqs| == 0 then 0
    else (if reqs[0].AddRequest? then 1 else 0) + CountAdds(reqs[1..])
  }

  /** How many of the requests toggle `id`. */
  function CountToggles(reqs: seq<Request>, id: int): nat
  {
    if |reqs| == 0 then 0
    else (if reqs[0] == ToggleRequest(id) then 1 else 0) + CountToggles(reqs[1..], id)
  }

  predicate Odd(n: nat)
  {
    n % 2 == 1
  }

  /** One more toggle flips the parity; kept apart so the modulus is reasoned about in isolation. */
  lemma OddSucc(n: nat)
    ensures Odd(n + 1) == !Odd(n)
  {
  }

  /** Peeling off the first request flips the parity exactly when it toggles `id`. */
  lemma OddCountToggles(reqs: seq<Request>, id: int)
    requires |reqs| > 0
    ensures Odd(CountToggles(reqs, id)) == ((reqs[0] == ToggleRequest(id)) != Odd(CountToggles(reqs[1..], id)))
  {
    var rest := CountToggles(reqs[1..], id);
    if reqs[0] == ToggleRequest(id) {
      assert CountToggles(reqs, id) == rest + 1;
      OddSucc(rest);
    } else {
      assert CountToggles(reqs, id) == rest;
    }
  }

  /** Serving `a` and then `b` is serving `a + b`. */
  lemma {:induction false} RunConcat(file: DataFile, a: seq<Request>, b: seq<Request>)
    ensures Run(file, a + b) == Run(Run(file, a), b)
    decreases |a|
  {
    if |a| > 0 {
      assert (a + b)[0] == a[0];
      assert (a + b)[1..] == a[1..] + b;
      RunConcat(Apply(file, a[0]), a[1..], b);
    } else {
      assert a + b == b;
    }
  }

  /** The list grows by exactly one record per add and by nothing else. */
  lemma {:induction false} RunLength(file: DataFile, reqs: seq<Request>)
    ensures |Load(Run(file, reqs))| == |Load(file)| + CountAdds(reqs)
    decreases |reqs|
  {
    if |reqs| > 0 {
      RunLength(Apply(file, reqs[0]), reqs[1..]);
    }
  }

  /** Serving requests keeps the IDs equal to 1..n in position order. */
  lemma {:induction false} RunKeepsSequentialIds(file: DataFile, reqs: seq<Request>)
    requires SequentialIds(Load(file))
    ensures SequentialIds(Load(Run(file, reqs)))
    decreases |reqs|
  {
    if |reqs| > 0 {
      match reqs[0] {
        case AddRequest(title, deadline, taskType, now) =>
          AddKeepsSequentialIds(Load(file), title, deadline, taskType, now);
        case ToggleRequest(id) =>
          ToggleSequential(Load(file), id);
      }
      RunKeepsSequentialIds(Apply(file, reqs[0]), reqs[1..]);
    }
  }

  /**
   Starting with no data file, any sequence of adds and toggles leaves a list
   with one record per add whose IDs are 1..n in order, hence all distinct.
   */
  lemma FromMissingFile(reqs: seq<Request>)
    ensures |Load(Run(None, reqs))| == CountAdds(reqs)
    ensures SequentialIds(Load(Run(None, reqs)))
    ensures UniqueIds(Load(Run(None, reqs)))
  {
    RunLength(None, reqs);
    RunKeepsSequentialIds(None, reqs);
    SequentialIdsAreUnique(Load(Run(None, reqs)));
  }

  /**
   One request on a list with IDs 1..n: the IDs stay 1..n(+1), and an existing
   record at position i keeps every field but `done`, which flips exactly when
   the request toggles ID i+1.
   */
  lemma ApplyStep(file: DataFile, req: Request, i: nat)
    requires SequentialIds(Load(file))
    requires i < |Load(file)|
    ensures SequentialIds(Load(Apply(file, req)))
    ensures i < |Load(Apply(file, req))|
    ensures SameExceptDone(Load(Apply(file, req))[i], Load(file)[i])
    ensures Load(Apply(file, req))[i].done == (Load(file)[i].done != (req == ToggleRequest(i + 1)))
  {
    var tasks := Load(file);
    match req {
      case AddRequest(title, deadline, taskType, now) =>
        var next := Add(tasks, title, deadline, taskType, now);
        AddKeepsSequentialIds(tasks, title, deadline, taskType, now);
        assert next[i] == next[..|tasks|][i];
      case ToggleRequest(id) =>
        ToggleSequential(tasks, id);
    }
  }

  /**
   The per-task state machine: on a list with IDs 1..n, a record that already
   exists keeps every field but `done`, and its `done` flag ends up flipped
   exactly when its ID was toggled an odd number of times.
   */
  lemma {:induction false} RunDoneParity(file: DataFile, reqs: seq<Request>, i: nat)
    requires SequentialIds(Load(file))
    requires i < |Load(file)|
    ensures i < |Load(Run(file, reqs))|
    ensures SameExceptDone(Load(Run(file, reqs))[i], Load(file)[i])
    ensures Load(Run(file, reqs))[i].done == (Load(file)[i].done != Odd(CountToggles(reqs, i + 1)))
    decreases |reqs|
  {
    if |reqs| > 0 {
      var next := Apply(file, reqs[0]);
      ApplyStep(file, reqs[0], i);
      RunDoneParity(next, reqs[1..], i);
      assert Run(file, reqs) == Run(next, reqs[1..]);
      OddCountToggles(reqs, i + 1);
    }
  }

  /**
   A task created during a run, starting with no data file: the add at
   position k of the requests creates the record at position n, where n is the
   number of earlier adds. That record ends with ID n+1, the title, type and
   times of the add, and `done` set exactly when its ID was toggled an odd
   number of times after the add.
   */
  lemma CreatedTaskDoneParity(reqs: seq<Request>, k: nat)
    requires k < |reqs| && reqs[k].AddRequest?
    ensures CountAdds(reqs[..k]) < |Load(Run(None, reqs))|
    ensures var t := Load(Run(None, reqs))[CountAdds(reqs[..k])];
      && t.id == CountAdds(reqs[..k]) + 1
      && t.title == reqs[k].title && t.taskType == reqs[k].taskType
      && t.createdAt == reqs[k].now && t.deadline == reqs[k].deadline
      && t.done == Odd(CountToggles(reqs[k + 1..], CountAdds(reqs[..k]) + 1))
  {
    var before := Run(None, reqs[..k]);
    var n := CountAdds(reqs[..k]);
    FromMissingFile(reqs[..k]);
    var mid := Apply(before, reqs[k]);
    var tasks := Load(before);
    AddKeepsSequentialIds(tasks, reqs[k].title, reqs[k].deadline, reqs[k].taskType, reqs[k].now);
    RunConcat(None, reqs[..k], [reqs[k]]);
    assert Run(before, [reqs[k]]) == mid;
    assert reqs[..k] + [reqs[k]] == reqs[..k + 1];
    RunConcat(None, reqs[..k + 1], reqs[k + 1..]);
    assert reqs[..k + 1] + reqs[k + 1..] == reqs;
    RunDoneParity(mid, reqs[k + 1..], n);
  }
}
