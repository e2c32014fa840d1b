/** The pure parts of `submit` (worker.cpp): the integrity preimage, the
    match count over the `byresult` index, and the settlement scan over the
    results' `bytime` index that picks payees and erases rows. */
module Quorum {
  import opened Tables
  import Index

  // ---- integrity preimage: to_string(nonce) + body + concat(binary_inputs) ----

  function DigitChar(d: nat): (r: char)
    requires d < 10
  {
    ('0' as int + d) as char
  }

  function DigitValue(c: char): (r: nat)
  {
    if '0' <= c <= '9' then (c as int - '0' as int) as nat else 0
  }

  /** `std::to_string` of an unsigned integer: its decimal digits, most
      significant first, with no leading zero. */
  function DecimalString(n: nat): (s: string)
    ensures 1 <= |s|
    ensures forall i :: 0 <= i < |s| ==> '0' <= s[i] <= '9'
    ensures |s| > 1 ==> s[0] != '0'
  {
    if n < 10 then [DigitChar(n)] else DecimalString(n / 10) + [DigitChar(n % 10)]
  }

  /** Reads decimal digits back: the inverse of `DecimalString`. */
  function ParseDecimal(s: string): (r: nat)
  {
    if s == [] then 0 else ParseDecimal(s[..|s| - 1]) * 10 + DigitValue(s[|s| - 1])
  }

  lemma {:induction false} DecimalRoundTrip(n: nat)
    ensures ParseDecimal(DecimalString(n)) == n
  {
    if n >= 10 {
      DecimalRoundTrip(n / 10);
      var s := DecimalString(n);
      assert s[..|s| - 1] == DecimalString(n / 10);
    }
  }

  /** Distinct nonces render to distinct strings. */
  lemma DecimalInjective(m: nat, n: nat)
    requires m != n
    ensures DecimalString(m) != DecimalString(n)
  {
    DecimalRoundTrip(m);
    DecimalRoundTrip(n);
  }

  /** The binary inputs concatenated in order. */
  function Flatten(inputs: seq<string>): (r: string)
  {
    if inputs == [] then [] else Flatten(inputs[..|inputs| - 1]) + inputs[|inputs| - 1]
  }

  lemma {:induction false} FlattenAppend(a: seq<string>, b: seq<string>)
    ensures Flatten(a + b) == Flatten(a) + Flatten(b)
  {
    if b == [] {
      assert a + b == a;
    } else {
      FlattenAppend(a, b[..|b| - 1]);
      assert (a + b)[..|a + b| - 1] == a + b[..|b| - 1];
    }
  }

  /** The loop that builds `binary_inputs` by `+=`. */
  method ConcatInputs(inputs: seq<string>) returns (s: string)
    ensures s == Flatten(inputs)
  {
    s := "";
    for i := 0 to |inputs|
      invariant s == Flatten(inputs[..i])
    {
      assert inputs[..i + 1][..i] == inputs[..i];
      s := s + inputs[i];
    }
    assert inputs[..|inputs|] == inputs;
  }

  /** The string whose SHA-256 `submit` compares with `request_hash`. */
  function RequestPreimage(r: WorkRequest): (v: string)
    ensures |v| == |DecimalString(r.nonce)| + |r.body| + |Flatten(r.binaryInputs)|
    ensures ParseDecimal(v[..|DecimalString(r.nonce)|]) == r.nonce
  {
    var d := DecimalString(r.nonce);
    DecimalRoundTrip(r.nonce);
    assert (d + r.body + Flatten(r.binaryInputs))[..|d|] == d;
    d + r.body + Flatten(r.binaryInputs)
  }

  /** With the body and the inputs fixed, the preimage determines the
      nonce: its field boundaries are lost only when the body differs. */
  lemma PreimageBindsNonce(a: WorkRequest, b: WorkRequest)
    requires a.body == b.body && a.binaryInputs == b.binaryInputs
    requires RequestPreimage(a) == RequestPreimage(b)
    ensures a.nonce == b.nonce
  {
    var v := RequestPreimage(a);
    assert |DecimalString(a.nonce)| == |DecimalString(b.nonce)|;
    assert ParseDecimal(v[..|DecimalString(a.nonce)|]) == a.nonce;
  }

  /** The preimage does not separate its fields: request 1 with body "23"
      and request 12 with body "3" hash the same string. */
  lemma PreimageNotFieldSeparated(a: WorkRequest, b: WorkRequest)
    requires a.nonce == 1 && a.body == "23" && a.binaryInputs == []
    requires b.nonce == 12 && b.body == "3" && b.binaryInputs == []
    ensures a.nonce != b.nonce && RequestPreimage(a) == RequestPreimage(b)
  {
    assert DecimalString(1) == "1";
    assert DecimalString(12) == DecimalString(1) + ['2'];
  }

  // ---- the double-submit guard: byworker.find(worker) != end ----

  predicate HasSubmitted(results: seq<WorkResult>, w: Name)
  {
    exists i :: 0 <= i < |results| && results[i].worker == w
  }

  /** The guard as the contract asks it: `byworker.find(worker)` is not
      the end exactly when the worker owns a row. */
  lemma HasSubmittedByWorker(results: seq<WorkResult>, w: Name)
    ensures HasSubmitted(results, w) <==> Index.Find(Index.View(ByWorker(results)), w) < |results|
  {
    Index.ViewHasKey(ByWorker(results), w);
    if HasSubmitted(results, w) {
      var i :| 0 <= i < |results| && results[i].worker == w;
      assert ByWorker(results)[i].key == w;
    }
  }

  /** Each worker owns at most one results row. */
  ghost predicate OneRowPerWorker(results: seq<WorkResult>)
  {
    forall i, j :: 0 <= i < j < |results| ==> results[i].worker != results[j].worker
  }

  // ---- the match count ----

  /** Number of rows, of any request, whose result hash is at least `h`. */
  function HashesAtLeast(rows: seq<WorkResult>, h: Hash): (r: nat)
  {
    if rows == [] then 0 else (if rows[0].resultHash >= h then 1 else 0) + HashesAtLeast(rows[1..], h)
  }

  lemma {:induction false} ByResultCount(rows: seq<WorkResult>, h: Hash)
    ensures Index.CountAtLeast(ByResult(rows), h) == HashesAtLeast(rows, h)
  {
    if rows != [] {
      assert ByResult(rows)[1..] == ByResult(rows[1..]);
      ByResultCount(rows[1..], h);
    }
  }

  /** The `while` loop stepping from `byresult.find(h)` to the end: it
      counts every row whose hash is at least `h`, from every request, as
      soon as one row has hash `h`, and 0 otherwise. */
  method CountMatches(results: seq<WorkResult>, h: Hash) returns (matches: nat)
    ensures (exists i :: 0 <= i < |results| && results[i].resultHash == h) ==> matches == HashesAtLeast(results, h)
    ensures (forall i :: 0 <= i < |results| ==> results[i].resultHash != h) ==> matches == 0
    ensures (exists i :: 0 <= i < |results| && results[i].resultHash == h) ==> matches >= 1
  {
    var view := Index.View(ByResult(results));
    var it := Index.Find(view, h);
    ghost var start := it;
    matches := 0;
    while it < |view|
      invariant start <= it <= |view|
      invariant matches == it - start
    {
      it := it + 1;
      matches := matches + 1;
    }
    Index.ViewHasKey(ByResult(results), h);
    if exists i :: 0 <= i < |results| && results[i].resultHash == h {
      var i :| 0 <= i < |results| && results[i].resultHash == h;
      assert ByResult(results)[i].key == h;
    }
    if start < |view| {
      Index.ViewFindCount(ByResult(results), h);
      ByResultCount(results, h);
    }
  }

  /** What a reader might take the count to be: rows of this request with exactly
      this hash. */
  function SameRequestMatches(rows: seq<WorkResult>, rid: nat, h: Hash): (r: nat)
  {
    if rows == [] then 0
    else (if rows[0].requestId == rid && rows[0].resultHash == h then 1 else 0) + SameRequestMatches(rows[1..], rid, h)
  }

  /** The count never falls below the same-request matches ... */
  lemma {:induction false} CountCoversSameRequest(rows: seq<WorkResult>, rid: nat, h: Hash)
    ensures SameRequestMatches(rows, rid, h) <= HashesAtLeast(rows, h)
  {
    if rows != [] {
      CountCoversSameRequest(rows[1..], rid, h);
    }
  }

  /** ... and exceeds it once another request holds a higher hash. */
  lemma CountSpansRequests(a: WorkResult, b: WorkResult)
    requires a.requestId == 1 && a.resultHash == 5
    requires b.requestId == 2 && b.resultHash == 7
    ensures SameRequestMatches([a, b], 1, 5) == 1 && HashesAtLeast([a, b], 5) == 2
  {
    assert [a, b][1..] == [b];
    assert [b][1..] == [];
    assert SameRequestMatches([b], 1, 5) == 0;
    assert HashesAtLeast([b], 5) == 1;
  }

  // ---- the settlement scan over bytime, from lower_bound(timestamp) ----

  /** The payees the scan collects over the index range `s`: a row of
      request `rid` is taken when fewer than `cap` were taken and its worker
      is not the submitter. Its result hash plays no part. */
  function Picked(s: seq<Index.Entry<WorkResult>>, rid: nat, submitter: Name, cap: nat): (p: seq<Name>)
    ensures |p| <= cap
  {
    if s == [] then []
    else
      var p := Picked(s[..|s| - 1], rid, submitter, cap);
      var e := s[|s| - 1];
      if e.row.requestId == rid && |p| < cap && e.row.worker != submitter then p + [e.row.worker] else p
  }

  /** Workers of the rows of `rid` other than the submitter, in index order. */
  function Eligible(s: seq<Index.Entry<WorkResult>>, rid: nat, submitter: Name): (ws: seq<Name>)
    ensures forall w :: w in ws ==> w != submitter
    ensures forall w :: w in ws ==> exists i :: 0 <= i < |s| && s[i].row.worker == w && s[i].row.requestId == rid
    ensures WorkersDistinct(s) ==> NoDuplicates(ws)
  {
    if s == [] then []
    else
      var init := s[..|s| - 1];
      var e := s[|s| - 1];
      var ws := Eligible(init, rid, submitter);
      assert forall i :: 0 <= i < |init| ==> init[i] == s[i];
      assert WorkersDistinct(s) ==> WorkersDistinct(init) && e.row.worker !in ws;
      if e.row.requestId == rid && e.row.worker != submitter then ws + [e.row.worker] else ws
  }

  ghost predicate WorkersDistinct(s: seq<Index.Entry<WorkResult>>)
  {
    forall i, j :: 0 <= i < j < |s| ==> s[i].row.worker != s[j].row.worker
  }

  predicate NoDuplicates<T(==)>(s: seq<T>)
  {
    forall i, j :: 0 <= i < j < |s| ==> s[i] != s[j]
  }

  function Take<T>(s: seq<T>, n: nat): (r: seq<T>)
  {
    if |s| <= n then s else s[..n]
  }

  /** One more step of the scan: the entry at `it` is picked and erased
      exactly when it belongs to `rid` (picked only while under the cap and
      not the submitter's). */
  lemma ScanStep(view: seq<Index.Entry<WorkResult>>, start: nat, it: nat, rid: nat, submitter: Name, cap: nat)
    requires start <= it < |view|
    ensures var e := view[it];
      var p := Picked(view[start..it], rid, submitter, cap);
      Picked(view[start..it + 1], rid, submitter, cap) ==
        (if e.row.requestId == rid && |p| < cap && e.row.worker != submitter then p + [e.row.worker] else p)
    ensures view[it].row.requestId == rid ==>
      ErasedIds(view[start..it + 1], rid) == ErasedIds(view[start..it], rid) + {view[it].pk}
    ensures view[it].row.requestId != rid ==>
      ErasedIds(view[start..it + 1], rid) == ErasedIds(view[start..it], rid)
  {
    assert view[start..it + 1][..it - start] == view[start..it];
    assert view[start..it + 1][it - start] == view[it];
  }

  /** The payees are the first `cap` eligible workers in index order. */
  lemma {:induction false} PickedIsFirstEligible(s: seq<Index.Entry<WorkResult>>, rid: nat, submitter: Name, cap: nat)
    ensures Picked(s, rid, submitter, cap) == Take(Eligible(s, rid, submitter), cap)
  {
    if s != [] {
      var init := s[..|s| - 1];
      var e := s[|s| - 1];
      PickedIsFirstEligible(init, rid, submitter, cap);
      var es := Eligible(init, rid, submitter);
      if e.row.requestId == rid && e.row.worker != submitter {
        if |es| >= cap {
          assert (es + [e.row.worker])[..cap] == es[..cap];
        }
      }
    }
  }

  /** Primary keys of the rows of `rid` in the index range `s`: the rows
      the scan erases. */
  function ErasedIds(s: seq<Index.Entry<WorkResult>>, rid: nat): (r: set<nat>)
  {
    if s == [] then {}
    else ErasedIds(s[..|s| - 1], rid) + (if s[|s| - 1].row.requestId == rid then {s[|s| - 1].pk} else {})
  }

  lemma {:induction false} ErasedIdsMembers(s: seq<Index.Entry<WorkResult>>, rid: nat)
    ensures forall id :: id in ErasedIds(s, rid) <==> exists i :: 0 <= i < |s| && s[i].row.requestId == rid && s[i].pk == id
  {
    if s != [] {
      var init := s[..|s| - 1];
      ErasedIdsMembers(init, rid);
      assert forall i :: 0 <= i < |init| ==> init[i] == s[i];
    }
  }

  /** The results' `bytime` index. */
  function TimeView(rows: seq<WorkResult>): (r: seq<Index.Entry<WorkResult>>)
  {
    Index.View(ByTime(rows))
  }

  /** An entry of the `bytime` index is the entry of one of the rows. */
  lemma TimeViewEntries(rows: seq<WorkResult>)
    ensures |TimeView(rows)| == |rows|
    ensures Index.Sorted(TimeView(rows))
    ensures forall e :: e in TimeView(rows) <==> exists j :: 0 <= j < |rows| && e == Index.Entry(rows[j].submitted, rows[j].id, rows[j])
  {
    Index.ViewSorted(ByTime(rows));
    var t := ByTime(rows);
    Index.ViewDistinct(t);
    forall e
      ensures e in t <==> exists j :: 0 <= j < |rows| && e == Index.Entry(rows[j].submitted, rows[j].id, rows[j])
    {
      if e in t {
        var j :| 0 <= j < |t| && t[j] == e;
      }
      if exists j :: 0 <= j < |rows| && e == Index.Entry(rows[j].submitted, rows[j].id, rows[j]) {
        var j :| 0 <= j < |rows| && e == Index.Entry(rows[j].submitted, rows[j].id, rows[j]);
        assert t[j] == e;
      }
    }
  }

  /** The ids the settlement scan erases over the `bytime` range from
      `lower_bound(ts)`. */
  function SettledIds(rows: seq<WorkResult>, rid: nat, ts: Time): (r: set<nat>)
  {
    var v := TimeView(rows);
    ErasedIds(v[Index.LowerBound(v, ts)..], rid)
  }

  lemma ErasedIfLate(rows: seq<WorkResult>, rid: nat, ts: Time, m: nat)
    requires m < |rows| && rows[m].requestId == rid && rows[m].submitted >= ts
    ensures rows[m].id in SettledIds(rows, rid, ts)
  {
    var v := TimeView(rows);
    var lb := Index.LowerBound(v, ts);
    TimeViewEntries(rows);
    Index.LowerBoundSuffix(v, ts);
    ErasedIdsMembers(v[lb..], rid);
    var ex := Index.Entry(rows[m].submitted, rows[m].id, rows[m]);
    assert ex in v;
    var i :| 0 <= i < |v| && v[i] == ex;
    assert v[lb..][i - lb] == ex;
  }

  lemma ErasedOnlyLate(rows: seq<WorkResult>, rid: nat, ts: Time, m: nat)
    requires ResultIdsAscending(rows)
    requires m < |rows| && rows[m].id in SettledIds(rows, rid, ts)
    ensures rows[m].requestId == rid && rows[m].submitted >= ts
  {
    var v := TimeView(rows);
    var lb := Index.LowerBound(v, ts);
    TimeViewEntries(rows);
    Index.LowerBoundSuffix(v, ts);
    ErasedIdsMembers(v[lb..], rid);
    var i :| 0 <= i < |v[lb..]| && v[lb..][i].row.requestId == rid && v[lb..][i].pk == rows[m].id;
    var e := v[lb + i];
    assert e in v;
    var j :| 0 <= j < |rows| && e == Index.Entry(rows[j].submitted, rows[j].id, rows[j]);
    assert j == m;
  }

  /** Settlement erases exactly this request's rows submitted at or after
      the request's timestamp; every other row survives. */
  lemma SettlementErases(rows: seq<WorkResult>, rid: nat, ts: Time)
    requires ResultIdsAscending(rows)
    ensures forall x :: x in ResultsWithout(rows, SettledIds(rows, rid, ts)) <==>
        x in rows && !(x.requestId == rid && x.submitted >= ts)
  {
    ResultsWithoutMembers(rows, SettledIds(rows, rid, ts));
    forall x | x in rows
      ensures x.id in SettledIds(rows, rid, ts) <==> x.requestId == rid && x.submitted >= ts
    {
      var m :| 0 <= m < |rows| && rows[m] == x;
      if x.requestId == rid && x.submitted >= ts {
        ErasedIfLate(rows, rid, ts, m);
      }
      if x.id in SettledIds(rows, rid, ts) {
        ErasedOnlyLate(rows, rid, ts, m);
      }
    }
  }

  /** The `bytime` index keeps the one-row-per-worker property. */
  lemma TimeViewWorkersDistinct(rows: seq<WorkResult>)
    requires OneRowPerWorker(rows)
    ensures WorkersDistinct(TimeView(rows))
  {
    var v := TimeView(rows);
    var t := ByTime(rows);
    assert Index.Distinct(t) by {
      forall i, j | 0 <= i < j < |t| ensures t[i] != t[j] {
        assert t[i].row.worker == rows[i].worker;
      }
    }
    TimeViewEntries(rows);
    Index.ViewDistinct(t);
    forall i, j | 0 <= i < j < |v|
      ensures v[i].row.worker != v[j].row.worker
    {
      assert v[i] in v && v[j] in v;
      var a :| 0 <= a < |rows| && v[i] == Index.Entry(rows[a].submitted, rows[a].id, rows[a]);
      var b :| 0 <= b < |rows| && v[j] == Index.Entry(rows[b].submitted, rows[b].id, rows[b]);
      assert v[i] != v[j];
      assert a != b;
    }
  }

  /** Every payee the scan picks owns a row of the request in the range. */
  lemma PickedFromRange(s: seq<Index.Entry<WorkResult>>, rid: nat, submitter: Name, cap: nat)
    ensures forall w :: w in Picked(s, rid, submitter, cap) ==>
      w != submitter && exists i :: 0 <= i < |s| && s[i].row.worker == w && s[i].row.requestId == rid
    ensures WorkersDistinct(s) ==> NoDuplicates(Picked(s, rid, submitter, cap) + [submitter])
  {
    PickedIsFirstEligible(s, rid, submitter, cap);
    var p := Picked(s, rid, submitter, cap);
    var es := Eligible(s, rid, submitter);
    assert |p| <= |es|;
    assert forall i :: 0 <= i < |p| ==> p[i] == es[i];
    forall w | w in p
      ensures w in es
    {
      var i :| 0 <= i < |p| && p[i] == w;
      assert es[i] == w;
    }
    if WorkersDistinct(s) {
      var q := p + [submitter];
      forall i, j | 0 <= i < j < |q|
        ensures q[i] != q[j]
      {
        assert q[i] == es[i] && es[i] in es;
        if j < |p| {
          assert q[j] == es[j];
        }
      }
    }
  }

  /** The `payments` vector of a settlement over `rows`: the workers the
      `bytime` scan from `lower_bound(ts)` picks, then the submitter. */
  function Payees(rows: seq<WorkResult>, rid: nat, ts: Time, submitter: Name, cap: nat): (p: seq<Name>)
    ensures 1 <= |p| <= cap + 1 && p[|p| - 1] == submitter
  {
    var v := TimeView(rows);
    Picked(v[Index.LowerBound(v, ts)..], rid, submitter, cap) + [submitter]
  }

  /** Erasing rows keeps one row per worker. */
  lemma {:induction false} ErasingKeepsOneRow(rows: seq<WorkResult>, ids: set<nat>)
    requires OneRowPerWorker(rows)
    ensures OneRowPerWorker(ResultsWithout(rows, ids))
  {
    if rows != [] {
      ErasingKeepsOneRow(rows[1..], ids);
      var rest := ResultsWithout(rows[1..], ids);
      ResultsWithoutMembers(rows[1..], ids);
      if rows[0].id !in ids {
        forall x | x in rest ensures x.worker != rows[0].worker {
          var j :| 0 <= j < |rows[1..]| && rows[1..][j] == x;
          assert rows[j + 1] == x;
        }
        var r := [rows[0]] + rest;
        forall i, j | 0 <= i < j < |r| ensures r[i].worker != r[j].worker {
          if i == 0 {
            assert r[j] == rest[j - 1] && r[j] in rest;
          } else {
            assert r[i] == rest[i - 1] && r[j] == rest[j - 1];
          }
        }
      }
    }
  }

  /** The range the settlement scan visits holds rows of distinct
      workers ... */
  lemma ScanRangeDistinct(rows: seq<WorkResult>, ts: Time)
    requires OneRowPerWorker(rows)
    ensures var v := TimeView(rows);
      WorkersDistinct(v[Index.LowerBound(v, ts)..])
  {
    var v := TimeView(rows);
    var lb := Index.LowerBound(v, ts);
    var s := v[lb..];
    TimeViewWorkersDistinct(rows);
    forall i, j | 0 <= i < j < |s|
      ensures s[i].row.worker != s[j].row.worker
    {
      assert s[i] == v[lb + i] && s[j] == v[lb + j];
    }
  }

  /** ... each a row of the table submitted at or after `ts`. */
  lemma ScanRangeRows(rows: seq<WorkResult>, ts: Time)
    ensures forall i :: Index.LowerBound(TimeView(rows), ts) <= i < |TimeView(rows)| ==>
      TimeView(rows)[i].row in rows && TimeView(rows)[i].row.submitted >= ts
  {
    var v := TimeView(rows);
    TimeViewEntries(rows);
    Index.LowerBoundSuffix(v, ts);
    forall i | Index.LowerBound(v, ts) <= i < |v|
      ensures v[i].row in rows && v[i].row.submitted >= ts
    {
      assert v[i] in v;
      var j :| 0 <= j < |rows| && v[i] == Index.Entry(rows[j].submitted, rows[j].id, rows[j]);
      assert rows[j] in rows;
    }
  }

  /** The payees of a settlement are distinct: the scan never picks the
      submitter and meets each worker at most once. */
  lemma PayeesDistinct(rows: seq<WorkResult>, rid: nat, ts: Time, submitter: Name, cap: nat)
    requires OneRowPerWorker(rows)
    ensures NoDuplicates(Payees(rows, rid, ts, submitter, cap))
  {
    var v := TimeView(rows);
    var s := v[Index.LowerBound(v, ts)..];
    ScanRangeDistinct(rows, ts);
    PickedFromRange(s, rid, submitter, cap);
    assert Payees(rows, rid, ts, submitter, cap) == Picked(s, rid, submitter, cap) + [submitter];
  }

  /** Every payee but the submitter is the worker of a row of this request
      submitted at or after the request's timestamp; its result hash plays
      no part. */
  lemma PayeesQualify(rows: seq<WorkResult>, rid: nat, ts: Time, submitter: Name, cap: nat)
    ensures forall w :: w in Payees(rows, rid, ts, submitter, cap) && w != submitter ==>
      exists x :: x in rows && x.worker == w && x.requestId == rid && x.submitted >= ts
  {
    var v := TimeView(rows);
    var lb := Index.LowerBound(v, ts);
    var s := v[lb..];
    ScanRangeRows(rows, ts);
    PickedFromRange(s, rid, submitter, cap);
    var p := Picked(s, rid, submitter, cap);
    assert Payees(rows, rid, ts, submitter, cap) == p + [submitter];
    forall w | w in p
      ensures exists x :: x in rows && x.worker == w && x.requestId == rid && x.submitted >= ts
    {
      var i :| 0 <= i < |s| && s[i].row.worker == w && s[i].row.requestId == rid;
      assert s[i] == v[lb + i];
    }
  }
}
