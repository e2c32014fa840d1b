/** What `submit` (worker.cpp) does to the tables once its checks have
    passed, as a function of the tables it touches: it writes the caller's
    result row, and when the match count equals the request's
    `min_verification` it settles the request. The lemmas below state what
    a settlement promises: which rows go, who is paid, and how much. */
module Settlement {
  import opened Outcomes
  import opened Assets
  import opened Tables
  import opened Ledger
  import Status
  import Quorum

  /** The three tables `submit` writes. */
  datatype Books = Books(users: map<Name, Account>, queue: map<nat, WorkRequest>, results: seq<WorkResult>)

  /** The checks `submit` makes after the request hash: the request
      exists, the caller has a status entry on it, and the caller owns no
      result row of any request. */
  predicate Ready(t: Books, worker: Name, rid: nat)
  {
    && rid in t.queue
    && Status.Cancel(t.queue[rid].status, worker).Ok?
    && !Quorum.HasSubmitted(t.results, worker)
  }

  /** The row `submit` emplaces, under `available_primary_key()`. */
  function NewResult(results: seq<WorkResult>, rid: nat, req: WorkRequest, worker: Name,
                     resultHash: Hash, ipfsHash: string, now: Time): (row: WorkResult)
    ensures ResultIdsAscending(results) ==> forall x :: x in results ==> x.id < row.id
  {
    WorkResult(NextResultId(results), rid, req.user, worker, resultHash, ipfsHash, now)
  }

  /** The results table once the caller's row is in. */
  function Appended(t: Books, worker: Name, rid: nat, resultHash: Hash, ipfsHash: string, now: Time): (r: seq<WorkResult>)
    requires rid in t.queue
  {
    t.results + [NewResult(t.results, rid, t.queue[rid], worker, resultHash, ipfsHash, now)]
  }

  /** The match count reaches the request's `min_verification`. */
  predicate Settles(t: Books, worker: Name, rid: nat, resultHash: Hash, ipfsHash: string, now: Time)
    requires rid in t.queue
    ensures Settles(t, worker, rid, resultHash, ipfsHash, now) ==> t.queue[rid].minVerification >= 1
  {
    AppendedCounts(t, worker, rid, resultHash, ipfsHash, now);
    Quorum.HashesAtLeast(Appended(t, worker, rid, resultHash, ipfsHash, now), resultHash) == t.queue[rid].minVerification
  }

  /** The caller's own row always counts, so the count is at least 1. */
  lemma {:induction false} CountsOwnRow(rows: seq<WorkResult>, x: WorkResult, h: Hash)
    requires x.resultHash >= h
    ensures Quorum.HashesAtLeast(rows + [x], h) >= 1
  {
    if rows == [] {
      assert [x][1..] == [];
    } else {
      CountsOwnRow(rows[1..], x, h);
      assert (rows + [x])[1..] == rows[1..] + [x];
    }
  }

  /** ... so the table with the caller's row emplaced matches at least once. */
  lemma AppendedCounts(t: Books, worker: Name, rid: nat, resultHash: Hash, ipfsHash: string, now: Time)
    requires rid in t.queue
    ensures Quorum.HashesAtLeast(Appended(t, worker, rid, resultHash, ipfsHash, now), resultHash) >= 1
  {
    CountsOwnRow(t.results, NewResult(t.results, rid, t.queue[rid], worker, resultHash, ipfsHash, now), resultHash);
  }

  /** The tables after `submit` passed its checks, and its outcome. Below
      the quorum the row stays and the caller leaves the status list.
      At the quorum, the share is computed (it fails only on a reward whose
      precision differs from the token's, and then nothing is written),
      this request's rows in the `bytime` range are erased, every payee is
      credited the share, and the request is erased. */
  function Accept(token: Symbol, t: Books, worker: Name, rid: nat, resultHash: Hash,
                  ipfsHash: string, now: Time): (r: (Outcome, Books))
    requires Ready(t, worker, rid)
    ensures r.0.Fail? <==>
      Settles(t, worker, rid, resultHash, ipfsHash, now) && t.queue[rid].reward.symbol.precision != token.precision
    ensures r.0.Fail? ==> r == (Fail(PrecisionMismatch), t)
    ensures r.0.Pass? ==> (rid in r.1.queue <==> !Settles(t, worker, rid, resultHash, ipfsHash, now))
    ensures r.0.Pass? && rid in r.1.queue ==>
      r.1.users == t.users && r.1.results == Appended(t, worker, rid, resultHash, ipfsHash, now)
    ensures r.0.Pass? ==> |r.1.results| <= |t.results| + 1
    ensures r.1.queue - {rid} == t.queue - {rid}
  {
    var req := t.queue[rid];
    var after := Appended(t, worker, rid, resultHash, ipfsHash, now);
    var k := req.minVerification;
    if Quorum.HashesAtLeast(after, resultHash) != k then
      (Pass, Books(t.users, t.queue[rid := req.(status := Status.Cancel(req.status, worker).value)], after))
    else
      AppendedCounts(t, worker, rid, resultHash, ipfsHash, now);
      match SplitPayment(req.reward, token, k)
      case Err(e) => (Fail(e), t)
      case Ok(payment) =>
        ResultsWithoutMembers(after, Quorum.SettledIds(after, rid, req.timestamp));
        (Pass, Settled(Books(t.users, t.queue, after), rid, req.timestamp, worker, k - 1, payment))
  }

  /** Proof helper for `Gpu.Contract.Record`: `Accept` below the quorum,
      unfolded. It states no property of its own; `SettlementWaits` does. */
  lemma AcceptWaits(token: Symbol, t: Books, worker: Name, rid: nat, resultHash: Hash, ipfsHash: string, now: Time)
    requires Ready(t, worker, rid) && !Settles(t, worker, rid, resultHash, ipfsHash, now)
    ensures var req := t.queue[rid];
      Accept(token, t, worker, rid, resultHash, ipfsHash, now) ==
      (Pass, Books(t.users, t.queue[rid := req.(status := Status.Cancel(req.status, worker).value)],
                   Appended(t, worker, rid, resultHash, ipfsHash, now)))
  {
  }

  /** Below the quorum nothing is paid and nothing erased: the users stay,
      the results gain exactly the caller's row, and the request keeps
      everything but its status list, which loses the caller's entry and
      keeps every other worker's. */
  lemma SettlementWaits(token: Symbol, t: Books, worker: Name, rid: nat, resultHash: Hash, ipfsHash: string, now: Time)
    requires Ready(t, worker, rid) && Status.Unique(t.queue[rid].status)
    requires !Settles(t, worker, rid, resultHash, ipfsHash, now)
    ensures var r := Accept(token, t, worker, rid, resultHash, ipfsHash, now);
      var req := t.queue[rid];
      && r.0 == Pass && r.1.users == t.users && rid in r.1.queue
      && r.1.results == t.results + [NewResult(t.results, rid, req, worker, resultHash, ipfsHash, now)]
      && r.1.queue[rid] == req.(status := r.1.queue[rid].status)
      && |r.1.queue[rid].status| == |req.status| - 1
      && (forall e :: e in r.1.queue[rid].status <==> e in req.status && e.worker != worker)
  {
    AcceptWaits(token, t, worker, rid, resultHash, ipfsHash, now);
  }

  /** The tables after a settlement of request `rid` at share `payment`,
      from `b`, the tables with the caller's row already emplaced: the
      payees are credited, the request erased, and the settled rows erased. */
  function Settled(b: Books, rid: nat, ts: Time, worker: Name, cap: nat, payment: Asset): (r: Books)
  {
    Books(CreditAll(b.users, Quorum.Payees(b.results, rid, ts, worker, cap), payment),
          b.queue - {rid},
          ResultsWithout(b.results, Quorum.SettledIds(b.results, rid, ts)))
  }

  /** Proof helper for `Gpu.Contract.Conclude`, stating no property of its
      own: `Accept` at the quorum, unfolded. With the share `payment` (for
      `k` verifications, `k - 1` further payees besides the caller), the
      tables end up as `Settled` makes them from the tables with the
      caller's row emplaced. */
  lemma AcceptSettled(token: Symbol, t: Books, worker: Name, rid: nat, resultHash: Hash, ipfsHash: string, now: Time,
                      cap: nat, payment: Asset, b: Books)
    requires Ready(t, worker, rid) && Settles(t, worker, rid, resultHash, ipfsHash, now)
    requires cap + 1 == t.queue[rid].minVerification
    requires SplitPayment(t.queue[rid].reward, token, cap + 1) == Ok(payment)
    requires b == Settled(Books(t.users, t.queue, Appended(t, worker, rid, resultHash, ipfsHash, now)),
                          rid, t.queue[rid].timestamp, worker, cap, payment)
    ensures Accept(token, t, worker, rid, resultHash, ipfsHash, now) == (Pass, b)
  {
    var after := Appended(t, worker, rid, resultHash, ipfsHash, now);
    AppendedCounts(t, worker, rid, resultHash, ipfsHash, now);
  }

  /** The payees of a settlement. */
  function PayeesOf(t: Books, worker: Name, rid: nat, resultHash: Hash, ipfsHash: string, now: Time): (p: seq<Name>)
    requires rid in t.queue
    ensures t.queue[rid].minVerification >= 1 ==>
      p == Quorum.Payees(Appended(t, worker, rid, resultHash, ipfsHash, now), rid, t.queue[rid].timestamp, worker,
                         t.queue[rid].minVerification - 1)
  {
    var req := t.queue[rid];
    var k := req.minVerification;
    Quorum.Payees(Appended(t, worker, rid, resultHash, ipfsHash, now), rid, req.timestamp, worker,
                  if k == 0 then 0 else k - 1)
  }

  /** Appending the caller's row keeps ids ascending and, since the caller
      owned no row, one row per worker. */
  lemma NewRowKeepsInvariant(t: Books, worker: Name, rid: nat, resultHash: Hash, ipfsHash: string, now: Time)
    requires Ready(t, worker, rid)
    requires ResultIdsAscending(t.results) && Quorum.OneRowPerWorker(t.results)
    ensures var after := Appended(t, worker, rid, resultHash, ipfsHash, now);
      ResultIdsAscending(after) && Quorum.OneRowPerWorker(after)
  {
    var after := Appended(t, worker, rid, resultHash, ipfsHash, now);
    var row := after[|after| - 1];
    forall i | 0 <= i < |t.results|
      ensures after[i].id < row.id && after[i].worker != row.worker
    {
      assert after[i] == t.results[i] && t.results[i] in t.results;
    }
  }

  /** A settlement erases exactly this request's rows submitted at or after
      the request's timestamp (the caller's new row among them when it
      qualifies); every other row, of this request or another, stays. */
  lemma SettlementErasesRows(token: Symbol, t: Books, worker: Name, rid: nat, resultHash: Hash, ipfsHash: string, now: Time)
    requires Ready(t, worker, rid) && ResultIdsAscending(t.results) && Quorum.OneRowPerWorker(t.results)
    requires Accept(token, t, worker, rid, resultHash, ipfsHash, now).0.Pass?
    requires Settles(t, worker, rid, resultHash, ipfsHash, now)
    ensures var after := Appended(t, worker, rid, resultHash, ipfsHash, now);
      var ts := t.queue[rid].timestamp;
      forall x :: x in Accept(token, t, worker, rid, resultHash, ipfsHash, now).1.results <==>
        x in after && !(x.requestId == rid && x.submitted >= ts)
  {
    var after := Appended(t, worker, rid, resultHash, ipfsHash, now);
    NewRowKeepsInvariant(t, worker, rid, resultHash, ipfsHash, now);
    Quorum.SettlementErases(after, rid, t.queue[rid].timestamp);
  }

  /** The payees of a settlement are distinct, at most
      `min_verification` of them, the caller last, and every other one the
      worker of a row of this request submitted at or after its timestamp.
      Their result hash plays no part. */
  lemma SettlementPayees(t: Books, worker: Name, rid: nat, resultHash: Hash, ipfsHash: string, now: Time)
    requires Ready(t, worker, rid) && ResultIdsAscending(t.results) && Quorum.OneRowPerWorker(t.results)
    requires Settles(t, worker, rid, resultHash, ipfsHash, now)
    ensures var req := t.queue[rid];
      var payees := PayeesOf(t, worker, rid, resultHash, ipfsHash, now);
      && Quorum.NoDuplicates(payees)
      && 1 <= |payees| <= req.minVerification
      && payees[|payees| - 1] == worker
      && (forall w :: w in payees && w != worker ==>
            exists x :: x in Appended(t, worker, rid, resultHash, ipfsHash, now)
              && x.worker == w && x.requestId == rid && x.submitted >= req.timestamp)
  {
    var req := t.queue[rid];
    var after := Appended(t, worker, rid, resultHash, ipfsHash, now);
    AppendedCounts(t, worker, rid, resultHash, ipfsHash, now);
    assert req.minVerification != 0;
    var cap := req.minVerification - 1;
    var payees := Quorum.Payees(after, rid, req.timestamp, worker, cap);
    assert PayeesOf(t, worker, rid, resultHash, ipfsHash, now) == payees;
    NewRowKeepsInvariant(t, worker, rid, resultHash, ipfsHash, now);
    Quorum.PayeesDistinct(after, rid, req.timestamp, worker, cap);
    Quorum.PayeesQualify(after, rid, req.timestamp, worker, cap);
  }

  /** A settlement credits each payee the share exactly once, opens an
      account for a payee that had none, and changes no other account. */
  lemma SettlementCredits(token: Symbol, t: Books, worker: Name, rid: nat, resultHash: Hash, ipfsHash: string, now: Time)
    requires Ready(t, worker, rid) && ResultIdsAscending(t.results) && Quorum.OneRowPerWorker(t.results)
    requires Accept(token, t, worker, rid, resultHash, ipfsHash, now).0.Pass?
    requires Settles(t, worker, rid, resultHash, ipfsHash, now)
    ensures var req := t.queue[rid];
      var payees := PayeesOf(t, worker, rid, resultHash, ipfsHash, now);
      var payment := SplitPayment(req.reward, token, req.minVerification).value;
      var users := Accept(token, t, worker, rid, resultHash, ipfsHash, now).1.users;
      && (forall u :: u in users <==> u in t.users || u in payees)
      && (forall p :: p in payees ==> AmountOf(users, p) == AmountOf(t.users, p) + payment.amount)
      && (forall u :: u in t.users && u !in payees ==> users[u] == t.users[u])
  {
    var req := t.queue[rid];
    var after := Appended(t, worker, rid, resultHash, ipfsHash, now);
    AppendedCounts(t, worker, rid, resultHash, ipfsHash, now);
    SettlementPayees(t, worker, rid, resultHash, ipfsHash, now);
    var payees := PayeesOf(t, worker, rid, resultHash, ipfsHash, now);
    var payment := SplitPayment(req.reward, token, req.minVerification).value;
    assert Accept(token, t, worker, rid, resultHash, ipfsHash, now).1.users == CreditAll(t.users, payees, payment);
    CreditAllEffect(t.users, payees, payment);
  }

  /** For a non-negative reward, all the shares of a settlement together
      never exceed the reward the request escrowed. */
  lemma SettlementWithinReward(token: Symbol, t: Books, worker: Name, rid: nat, resultHash: Hash, ipfsHash: string, now: Time)
    requires Ready(t, worker, rid)
    requires Accept(token, t, worker, rid, resultHash, ipfsHash, now).0.Pass?
    requires Settles(t, worker, rid, resultHash, ipfsHash, now)
    requires t.queue[rid].reward.amount >= 0
    ensures var req := t.queue[rid];
      var payment := SplitPayment(req.reward, token, req.minVerification).value;
      0 <= payment.amount
      && payment.amount * |PayeesOf(t, worker, rid, resultHash, ipfsHash, now)| <= req.reward.amount
  {
    var req := t.queue[rid];
    var k := req.minVerification;
    var after := Appended(t, worker, rid, resultHash, ipfsHash, now);
    AppendedCounts(t, worker, rid, resultHash, ipfsHash, now);
    SplitNeverOverpays(req.reward, token, k);
    var payment := SplitPayment(req.reward, token, k).value;
    var n := |PayeesOf(t, worker, rid, resultHash, ipfsHash, now)|;
    MulMonotone(n, k, payment.amount);
    assert payment.amount * n == n * payment.amount;
  }
}
