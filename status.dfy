/** The worker status tracker of worker.cpp: the edits that `workbegin`,
    `workupdate`, `workcancel` and `submit` make to the status vector
    embedded in a request. */
module Status {
  import opened Outcomes
  import opened Tables

  /** `std::find_if` for the caller's entry: the first position whose
      worker is `w`, or `|status|` (the end) when there is none. */
  function IndexOf(status: seq<WorkerStatus>, w: Name): (r: nat)
    ensures r <= |status|
    ensures r < |status| ==> status[r].worker == w
    ensures forall i :: 0 <= i < r ==> status[i].worker != w
  {
    if status == [] then 0
    else if status[0].worker == w then 0
    else 1 + IndexOf(status[1..], w)
  }

  /** At most one entry per worker. */
  ghost predicate Unique(status: seq<WorkerStatus>)
  {
    forall i, j :: 0 <= i < j < |status| ==> status[i].worker != status[j].worker
  }

  /** `workbegin`'s edit: reject a worker that already has an entry, reject
      when the vector is longer than `maxWorkers` (the check is
      `size <= max_workers`), else append a fresh "started" entry. */
  function Begin(status: seq<WorkerStatus>, w: Name, maxWorkers: nat, now: Time): (r: Result<seq<WorkerStatus>>)
    ensures r == Err(AlreadyStarted) <==> exists i :: 0 <= i < |status| && status[i].worker == w
    ensures r == Err(TooManyWorkers) <==>
      (forall i :: 0 <= i < |status| ==> status[i].worker != w) && |status| > maxWorkers
    ensures r.Ok? <==> (forall i :: 0 <= i < |status| ==> status[i].worker != w) && |status| <= maxWorkers
    ensures r.Ok? ==> |r.value| == |status| + 1 <= maxWorkers + 1
    ensures r.Ok? ==> r.value[..|status|] == status && r.value[|status|] == WorkerStatus(w, "started", now)
    ensures r.Ok? && Unique(status) ==> Unique(r.value)
  {
    if IndexOf(status, w) < |status| then Err(AlreadyStarted)
    else if |status| > maxWorkers then Err(TooManyWorkers)
    else Ok(status + [WorkerStatus(w, "started", now)])
  }

  /** `workupdate`'s edit: the caller's entry gets the new text; every
      worker and start time, and every other entry, stay as they were. */
  function Update(status: seq<WorkerStatus>, w: Name, text: string): (r: Result<seq<WorkerStatus>>)
    ensures r.Err? <==> forall i :: 0 <= i < |status| ==> status[i].worker != w
    ensures r.Err? ==> r.error == StatusNotFound
    ensures r.Ok? ==> |r.value| == |status|
    ensures r.Ok? ==> forall i :: 0 <= i < |status| ==>
      r.value[i].worker == status[i].worker && r.value[i].started == status[i].started
    ensures r.Ok? ==> forall i :: 0 <= i < |status| && status[i].worker != w ==> r.value[i] == status[i]
    ensures r.Ok? && Unique(status) ==> forall i :: 0 <= i < |status| && status[i].worker == w ==> r.value[i].status == text
    ensures r.Ok? && Unique(status) ==> Unique(r.value)
  {
    var i := IndexOf(status, w);
    if i == |status| then Err(StatusNotFound)
    else Ok(status[i := status[i].(status := text)])
  }

  /** The edit of `workcancel` and of `submit`: the caller's first entry
      is removed (`vector::erase`) and the others are kept, in order. */
  function Cancel(status: seq<WorkerStatus>, w: Name): (r: Result<seq<WorkerStatus>>)
    ensures r.Err? <==> forall i :: 0 <= i < |status| ==> status[i].worker != w
    ensures r.Err? ==> r.error == StatusNotFound
    ensures r.Ok? ==> |r.value| == |status| - 1
    ensures r.Ok? ==> forall e :: e in r.value ==> e in status
    ensures r.Ok? ==> forall e :: e in status && e.worker != w ==> e in r.value
    ensures r.Ok? && Unique(status) ==> Unique(r.value)
    ensures r.Ok? && Unique(status) ==> forall e :: e in r.value ==> e.worker != w
    ensures r.Ok? ==> exists i ::
      && 0 <= i < |status| && status[i].worker == w
      && (forall j :: 0 <= j < i ==> status[j].worker != w)
      && r.value == status[..i] + status[i + 1..]
  {
    var i := IndexOf(status, w);
    if i == |status| then Err(StatusNotFound)
    else
      RemoveAt(status, i);
      Ok(status[..i] + status[i + 1..])
  }

  /** Dropping position `i` keeps every entry of another worker and, on a
      unique vector, drops that worker altogether. */
  lemma RemoveAt(status: seq<WorkerStatus>, i: nat)
    requires i < |status|
    ensures var rest := status[..i] + status[i + 1..];
      && |rest| == |status| - 1
      && (forall e :: e in rest ==> e in status)
      && (forall e :: e in status && e.worker != status[i].worker ==> e in rest)
      && (Unique(status) ==> Unique(rest) && forall e :: e in rest ==> e.worker != status[i].worker)
  {
    var rest := status[..i] + status[i + 1..];
    assert forall j :: 0 <= j < |rest| ==> rest[j] == if j < i then status[j] else status[j + 1];
    forall e | e in status && e.worker != status[i].worker
      ensures e in rest
    {
      var j :| 0 <= j < |status| && status[j] == e;
      assert rest[if j < i then j else j - 1] == e;
    }
  }

  /** A second `workbegin` by the same worker, with no `workcancel` in
      between, is always refused. */
  lemma BeginTwiceRefused(status: seq<WorkerStatus>, w: Name, m1: nat, m2: nat, t1: Time, t2: Time)
    requires Begin(status, w, m1, t1).Ok?
    ensures Begin(Begin(status, w, m1, t1).value, w, m2, t2) == Err(AlreadyStarted)
  {
    var s := Begin(status, w, m1, t1).value;
    assert s[|status|].worker == w;
  }

  /** The cap admits one entry too many: a vector already holding
      `maxWorkers` entries of other workers still accepts a new one. */
  lemma BeginCapOffByOne(status: seq<WorkerStatus>, w: Name, maxWorkers: nat, now: Time)
    requires |status| == maxWorkers
    requires forall i :: 0 <= i < |status| ==> status[i].worker != w
    ensures Begin(status, w, maxWorkers, now).Ok?
    ensures |Begin(status, w, maxWorkers, now).value| == maxWorkers + 1
  {
  }
}
