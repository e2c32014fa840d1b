/** The telos.gpu contract: its tables as the fields of one object and each
    action as a method on it. An action either passes all of its checks
    and makes its writes, or fails one check and leaves every table as it
    was (the chain aborts the transaction); each method therefore checks
    first and writes afterwards. */
module Gpu {
  import opened Outcomes
  import opened Assets
  import opened Tables
  import opened Ledger
  import Status
  import Quorum
  import Cards
  import Index
  import Settlement

  datatype Option<T> = None | Some(value: T)

  class Contract {
    /** The contract's own account (`get_self()`). */
    const self: Name
    /** SHA-256 over a string, as `assert_sha256` computes it. */
    const sha256: string -> Hash

    /** The `config` singleton; `None` until it is set. */
    var config: Option<Config>
    /** `users`, keyed by user name. */
    var users: map<Name, Account>
    /** `workers`, keyed by account. */
    var workers: map<Name, Worker>
    /** `cards`, in primary-key order. */
    var cards: seq<Card>
    /** `queue`, keyed by nonce. */
    var queue: map<nat, WorkRequest>
    /** `results`, in primary-key order. */
    var results: seq<WorkResult>

    /** Rows sit under their own primary key, ids ascend in the ordered
        tables, a request holds at most one status entry per worker, a
        worker owns at most one result row, and the nonce is a `uint64_t`. */
    ghost predicate Valid()
      reads this
    {
      && UsersValid(users)
      && (forall a :: a in workers ==> workers[a].account == a)
      && (forall n :: n in queue ==> queue[n].nonce == n && Status.Unique(queue[n].status))
      && CardIdsAscending(cards)
      && ResultIdsAscending(results)
      && Quorum.OneRowPerWorker(results)
      && (config.Some? ==> config.value.nonce < U64)
    }

    /** A freshly deployed contract: empty tables and the given config. */
    constructor (self: Name, sha256: string -> Hash, config: Option<Config>)
      requires config.Some? ==> config.value.nonce < U64
      ensures Valid()
      ensures this.self == self && this.sha256 == sha256 && this.config == config
      ensures users == map[] && workers == map[] && cards == [] && queue == map[] && results == []
    {
      this.self := self;
      this.sha256 := sha256;
      this.config := config;
      users := map[];
      workers := map[];
      cards := [];
      queue := map[];
      results := [];
    }

    // ---- telos.gpu.hpp ----

    /** `get_and_increment_nonce`: hands out the stored nonce and stores its
        successor, wrapping at 2^64. Reading a missing singleton aborts. */
    method GetAndIncrementNonce() returns (r: Result<nat>)
      requires Valid()
      modifies this`config
      ensures Valid()
      ensures old(config).None? <==> r == Err(NotConfigured)
      ensures old(config).None? ==> config == old(config)
      ensures old(config).Some? ==> r == Ok(old(config).value.nonce)
      ensures old(config).Some? ==> config == Some(old(config).value.(nonce := (old(config).value.nonce + 1) % U64))
    {
      if config.None? {
        return Err(NotConfigured);
      }
      var g := config.value;
      var nonce := g.nonce;
      config := Some(g.(nonce := (g.nonce + 1) % U64));
      return Ok(nonce);
    }

    // ---- balance.cpp ----

    /** `sub_balance`: debits `owner` by `value`, failing when it has no
        account or too little on it. */
    method SubBalance(owner: Name, value: Asset) returns (o: Outcome)
      requires Valid()
      modifies this`users
      ensures Valid()
      ensures o == DebitCheck(old(users), owner, value)
      ensures o.Fail? ==> users == old(users)
      ensures o.Pass? ==> users == Debited(old(users), owner, value)
    {
      o := DebitCheck(users, owner, value);
      if o.Pass? {
        users := Debited(users, owner, value);
      }
    }

    /** `add_balance`: credits `owner` by `value`, opening its account if
        it has none. */
    method AddBalance(owner: Name, value: Asset)
      requires Valid()
      modifies this`users
      ensures Valid()
      ensures users == Credited(old(users), owner, value)
    {
      users := Credited(users, owner, value);
    }

    /** The `add_balance` loop at the end of a settlement. */
    method PayAll(payees: seq<Name>, value: Asset)
      requires Valid()
      modifies this`users
      ensures Valid()
      ensures users == CreditAll(old(users), payees, value)
    {
      for i := 0 to |payees|
        invariant Valid()
        invariant users == CreditAll(old(users), payees[..i], value)
      {
        assert payees[..i + 1][..i] == payees[..i];
        AddBalance(payees[i], value);
      }
      assert payees[..|payees|] == payees;
    }

    /** `deposit`, the notification of an incoming token transfer: ignored
        unless the contract is the receiver and not the sender; otherwise it
        must come from the configured token contract and carry a positive
        amount of the configured token, and credits the sender. */
    method Deposit(from: Name, to: Name, quantity: Asset, memo: string, firstReceiver: Name) returns (o: Outcome)
      requires Valid()
      modifies this`users
      ensures Valid()
      ensures (from == self || to != self) ==> o == Pass && users == old(users)
      ensures o == Fail(NotConfigured) <==> from != self && to == self && config.None?
      ensures o == Fail(WrongTokenContract) <==>
        from != self && to == self && config.Some? && firstReceiver != config.value.tokenContract
      ensures o == Fail(NonPositiveDeposit) <==>
        from != self && to == self && config.Some? && firstReceiver == config.value.tokenContract
        && quantity.amount <= 0
      ensures o == Fail(WrongToken) <==>
        from != self && to == self && config.Some? && firstReceiver == config.value.tokenContract
        && quantity.amount > 0 && quantity.symbol != config.value.tokenSymbol
      ensures o == Pass <==>
        || from == self || to != self
        || (config.Some? && firstReceiver == config.value.tokenContract
            && quantity.amount > 0 && quantity.symbol == config.value.tokenSymbol)
      ensures o.Fail? ==> users == old(users)
      ensures o.Pass? && from != self && to == self ==> users == Credited(old(users), from, quantity)
    {
      if from == self || to != self {
        return Pass;
      }
      if config.None? {
        return Fail(NotConfigured);
      }
      var g := config.value;
      if firstReceiver != g.tokenContract {
        return Fail(WrongTokenContract);
      }
      if quantity.amount <= 0 {
        return Fail(NonPositiveDeposit);
      }
      if quantity.symbol != g.tokenSymbol {
        return Fail(WrongToken);
      }
      AddBalance(from, quantity);
      return Pass;
    }

    /** `withdraw`: requires the config, then debits the user; the outbound
        token transfer is not part of this model. */
    method Withdraw(user: Name, quantity: Asset) returns (o: Outcome)
      requires Valid()
      modifies this`users
      ensures Valid()
      ensures o == Fail(NotConfigured) <==> config.None?
      ensures config.Some? ==> o == DebitCheck(old(users), user, quantity)
      ensures o.Fail? ==> users == old(users)
      ensures o.Pass? ==> users == Debited(old(users), user, quantity)
    {
      if config.None? {
        return Fail(NotConfigured);
      }
      o := SubBalance(user, quantity);
    }

    // ---- user.cpp ----

    /** `enqueue`: escrows `reward` from the user's balance, takes the next
        nonce and files the request under it with an empty status list.
        Neither the reward's sign nor `minVerification` is checked. */
    method Enqueue(user: Name, body: string, binaryInputs: seq<string>, reward: Asset,
                   minVerification: nat, now: Time) returns (o: Outcome)
      requires Valid()
      modifies this`users, this`config, this`queue
      ensures Valid()
      ensures o == Fail(NoAccount) <==> user !in old(users)
      ensures o == Fail(Overdrawn) <==> user in old(users) && old(users)[user].balance.amount < reward.amount
      ensures o == Fail(NotConfigured) <==> DebitCheck(old(users), user, reward).Pass? && old(config).None?
      ensures o == Fail(DuplicateKey) <==>
        DebitCheck(old(users), user, reward).Pass? && old(config).Some? && old(config).value.nonce in old(queue)
      ensures o == Pass <==>
        DebitCheck(old(users), user, reward).Pass? && old(config).Some? && old(config).value.nonce !in old(queue)
      ensures o.Fail? ==> users == old(users) && config == old(config) && queue == old(queue)
      ensures o.Pass? ==> users == Debited(old(users), user, reward)
      ensures o.Pass? ==> config == Some(old(config).value.(nonce := (old(config).value.nonce + 1) % U64))
      ensures o.Pass? ==> queue == old(queue)[old(config).value.nonce :=
        WorkRequest(old(config).value.nonce, user, reward, minVerification, body, binaryInputs, [], now)]
    {
      o := DebitCheck(users, user, reward);
      if o.Fail? {
        return;
      }
      if config.None? {
        return Fail(NotConfigured);
      }
      if config.value.nonce in queue {
        return Fail(DuplicateKey);
      }
      o := SubBalance(user, reward);
      var r := GetAndIncrementNonce();
      var nonce := r.value;
      queue := queue[nonce := WorkRequest(nonce, user, reward, minVerification, body, binaryInputs, [], now)];
    }

    /** `dequeue`: releases the escrow of a request to the CALLER, whoever
        filed it, and drops the request; result rows stay. */
    method Dequeue(user: Name, requestId: nat) returns (o: Outcome)
      requires Valid()
      modifies this`users, this`queue
      ensures Valid()
      ensures o == Fail(RequestNotFound) <==> requestId !in old(queue)
      ensures o == Pass <==> requestId in old(queue)
      ensures o.Fail? ==> users == old(users) && queue == old(queue)
      ensures o.Pass? ==> users == Credited(old(users), user, old(queue)[requestId].reward)
      ensures o.Pass? ==> queue == old(queue) - {requestId}
    {
      if requestId !in queue {
        return Fail(RequestNotFound);
      }
      var req := queue[requestId];
      AddBalance(user, req.reward);
      queue := queue - {requestId};
      return Pass;
    }

    // ---- worker.cpp ----

    /** `regworker`: registers the account, or changes only the url of an
        existing registration. */
    method RegWorker(account: Name, url: string, now: Time)
      requires Valid()
      modifies this`workers
      ensures Valid()
      ensures account !in old(workers) ==> workers == old(workers)[account := Worker(account, now, 0, url)]
      ensures account in old(workers) ==> workers == old(workers)[account := old(workers)[account].(url := url)]
    {
      if account !in workers {
        workers := workers[account := Worker(account, now, 0, url)];
      } else {
        workers := workers[account := workers[account].(url := url)];
      }
    }

    /** `addcard`: a registered worker's new card under the next free id. */
    method AddCard(worker: Name, cardName: string, version: string, totalMemory: nat,
                   mpCount: nat, extra: string) returns (o: Outcome)
      requires Valid()
      modifies this`cards
      ensures Valid()
      ensures o == Fail(WorkerNotRegistered) <==> worker !in workers
      ensures o == Pass <==> worker in workers
      ensures o.Fail? ==> cards == old(cards)
      ensures o.Pass? ==> cards == old(cards) + [Card(NextCardId(old(cards)), worker, cardName, version, totalMemory, mpCount, extra)]
      ensures o.Pass? ==> forall c :: c in old(cards) ==> c.id != NextCardId(old(cards))
    {
      if worker !in workers {
        return Fail(WorkerNotRegistered);
      }
      var id := NextCardId(cards);
      cards := cards + [Card(id, worker, cardName, version, totalMemory, mpCount, extra)];
      return Pass;
    }

    /** `remcard`: erases the card with this id, whoever owns it. */
    method RemCard(worker: Name, id: nat) returns (o: Outcome)
      requires Valid()
      modifies this`cards
      ensures Valid()
      ensures o == Fail(CardNotFound) <==> forall c :: c in old(cards) ==> c.id != id
      ensures o.Fail? ==> cards == old(cards)
      ensures o.Pass? ==> cards == CardsWithout(old(cards), {id})
      ensures forall c :: c in cards <==> c in old(cards) && c.id != id
    {
      if !exists c :: c in cards && c.id == id {
        CardsWithoutMembers(cards, {id});
        return Fail(CardNotFound);
      }
      CardsWithoutMembers(cards, {id});
      CardsWithoutAscending(cards, {id});
      cards := CardsWithout(cards, {id});
      return Pass;
    }

    /** `unregworker`: erases every card from `byowner.find(account)` to
        the end of the index, then the registration. */
    method UnregWorker(account: Name, reason: string) returns (o: Outcome)
      requires Valid()
      modifies this`workers, this`cards
      ensures Valid()
      ensures o == Fail(WorkerNotRegistered) <==> account !in old(workers)
      ensures o == Pass <==> account in old(workers)
      ensures o.Fail? ==> workers == old(workers) && cards == old(cards)
      ensures o.Pass? ==> workers == old(workers) - {account}
      ensures o.Pass? ==> cards == CardsWithout(old(cards), Cards.SweptIds(old(cards), account))
      ensures o.Pass? ==> forall c :: c in cards <==>
        c in old(cards) && !(Cards.OwnsCard(old(cards), account) && c.owner >= account)
      ensures o.Pass? ==> forall c :: c in cards ==> c.owner != account
    {
      if account !in workers {
        return Fail(WorkerNotRegistered);
      }
      ghost var before := cards;
      var kept := Sweep(cards, account);
      CardsWithoutMembers(before, Cards.SweptIds(before, account));
      CardsWithoutAscending(before, Cards.SweptIds(before, account));
      Cards.SweepKeeps(before, account);
      Cards.SweepRemovesOwnCards(before, account);
      cards := kept;
      workers := workers - {account};
      return Pass;
    }

    /** `workbegin`: a registered worker joins a request's status list. */
    method WorkBegin(worker: Name, requestId: nat, maxWorkers: nat, now: Time) returns (o: Outcome)
      requires Valid()
      modifies this`queue
      ensures Valid()
      ensures o == Fail(WorkerNotRegistered) <==> worker !in workers
      ensures o == Fail(RequestNotFound) <==> worker in workers && requestId !in old(queue)
      ensures worker in workers && requestId in old(queue) ==>
        match Status.Begin(old(queue)[requestId].status, worker, maxWorkers, now)
        case Err(e) => o == Fail(e)
        case Ok(s) => o == Pass && queue == old(queue)[requestId := old(queue)[requestId].(status := s)]
      ensures o.Fail? ==> queue == old(queue)
    {
      if worker !in workers {
        return Fail(WorkerNotRegistered);
      }
      if requestId !in queue {
        return Fail(RequestNotFound);
      }
      var req := queue[requestId];
      var r := Status.Begin(req.status, worker, maxWorkers, now);
      if r.Err? {
        return Fail(r.error);
      }
      queue := queue[requestId := req.(status := r.value)];
      return Pass;
    }

    /** `workupdate`: rewrites the caller's status text. */
    method WorkUpdate(worker: Name, requestId: nat, text: string) returns (o: Outcome)
      requires Valid()
      modifies this`queue
      ensures Valid()
      ensures o == Fail(RequestNotFound) <==> requestId !in old(queue)
      ensures requestId in old(queue) ==>
        match Status.Update(old(queue)[requestId].status, worker, text)
        case Err(e) => o == Fail(e)
        case Ok(s) => o == Pass && queue == old(queue)[requestId := old(queue)[requestId].(status := s)]
      ensures o.Fail? ==> queue == old(queue)
    {
      if requestId !in queue {
        return Fail(RequestNotFound);
      }
      var req := queue[requestId];
      var r := Status.Update(req.status, worker, text);
      if r.Err? {
        return Fail(r.error);
      }
      queue := queue[requestId := req.(status := r.value)];
      return Pass;
    }

    /** `workcancel`: drops the caller's status entry. */
    method WorkCancel(worker: Name, requestId: nat, reason: string) returns (o: Outcome)
      requires Valid()
      modifies this`queue
      ensures Valid()
      ensures o == Fail(RequestNotFound) <==> requestId !in old(queue)
      ensures requestId in old(queue) ==>
        match Status.Cancel(old(queue)[requestId].status, worker)
        case Err(e) => o == Fail(e)
        case Ok(s) => o == Pass && queue == old(queue)[requestId := old(queue)[requestId].(status := s)]
      ensures o.Fail? ==> queue == old(queue)
    {
      if requestId !in queue {
        return Fail(RequestNotFound);
      }
      var req := queue[requestId];
      var r := Status.Cancel(req.status, worker);
      if r.Err? {
        return Fail(r.error);
      }
      queue := queue[requestId := req.(status := r.value)];
      return Pass;
    }

    /** The checks of `submit` that come before the result row is written:
        config present, request present, request hash right, caller in the
        status list, caller owning no result row of any request. */
    ghost predicate Admits(worker: Name, requestId: nat, requestHash: Hash)
      reads this
    {
      && config.Some?
      && requestId in queue
      && sha256(Quorum.RequestPreimage(queue[requestId])) == requestHash
      && Status.Cancel(queue[requestId].status, worker).Ok?
      && !Quorum.HasSubmitted(results, worker)
    }

    /** `submit`: checks the request hash, moves the caller from the status
        list to a new result row, counts matches over `byresult`, and when
        the count equals `min_verification` settles: erases this request's
        rows from `lower_bound(timestamp)` on in `bytime`, pays each payee
        the split share, and drops the request. */
    method Submit(worker: Name, requestId: nat, requestHash: Hash, resultHash: Hash,
                  ipfsHash: string, now: Time) returns (o: Outcome)
      requires Valid()
      modifies this`users, this`queue, this`results
      ensures Valid()
      ensures o == Fail(NotConfigured) <==> config.None?
      ensures o == Fail(RequestNotFound) <==> config.Some? && requestId !in old(queue)
      ensures o == Fail(RequestHashMismatch) <==>
        (config.Some? && requestId in old(queue)
         && sha256(Quorum.RequestPreimage(old(queue)[requestId])) != requestHash)
      ensures o == Fail(StatusNotFound) <==>
        (config.Some? && requestId in old(queue)
         && sha256(Quorum.RequestPreimage(old(queue)[requestId])) == requestHash
         && Status.Cancel(old(queue)[requestId].status, worker).Err?)
      ensures o == Fail(AlreadySubmitted) <==>
        (config.Some? && requestId in old(queue)
         && sha256(Quorum.RequestPreimage(old(queue)[requestId])) == requestHash
         && Status.Cancel(old(queue)[requestId].status, worker).Ok?
         && Quorum.HasSubmitted(old(results), worker))
      ensures o.Fail? ==> users == old(users) && queue == old(queue) && results == old(results)
      ensures old(Admits(worker, requestId, requestHash)) ==>
        (o, Settlement.Books(users, queue, results)) ==
        Settlement.Accept(config.value.tokenSymbol, old(Settlement.Books(users, queue, results)),
                          worker, requestId, resultHash, ipfsHash, now)
    {
      if config.None? {
        return Fail(NotConfigured);
      }
      if requestId !in queue {
        return Fail(RequestNotFound);
      }
      var req := queue[requestId];
      var inputs := Quorum.ConcatInputs(req.binaryInputs);
      var preimage := Quorum.DecimalString(req.nonce) + req.body + inputs;
      if sha256(preimage) != requestHash {
        return Fail(RequestHashMismatch);
      }
      if Status.Cancel(req.status, worker).Err? {
        return Fail(StatusNotFound);
      }
      if Quorum.HasSubmitted(results, worker) {
        return Fail(AlreadySubmitted);
      }
      assert preimage == Quorum.RequestPreimage(req);
      o := Record(worker, requestId, resultHash, ipfsHash, now);
    }

    /** The writes of `submit`, after its checks. */
    method Record(worker: Name, requestId: nat, resultHash: Hash, ipfsHash: string, now: Time) returns (o: Outcome)
      requires Valid() && config.Some?
      requires Settlement.Ready(Settlement.Books(users, queue, results), worker, requestId)
      modifies this`users, this`queue, this`results
      ensures Valid()
      ensures (o, Settlement.Books(users, queue, results)) ==
        Settlement.Accept(config.value.tokenSymbol, old(Settlement.Books(users, queue, results)),
                          worker, requestId, resultHash, ipfsHash, now)
    {
      ghost var t := Settlement.Books(users, queue, results);
      var req := queue[requestId];
      var status := Status.Cancel(req.status, worker);
      var row := Settlement.NewResult(results, requestId, req, worker, resultHash, ipfsHash, now);
      var after := results + [row];
      assert after == Settlement.Appended(t, worker, requestId, resultHash, ipfsHash, now);
      assert after[|after| - 1].resultHash == resultHash;
      var matches := Quorum.CountMatches(after, resultHash);
      var k := req.minVerification;
      var split: Result<Asset> := Ok(Asset(0, req.reward.symbol));
      if matches == k {
        split := SplitPayment(req.reward, config.value.tokenSymbol, k);
        if split.Err? {
          o := Fail(split.error);
          assert (o, Settlement.Books(users, queue, results)) == Settlement.Accept(config.value.tokenSymbol, t, worker, requestId, resultHash, ipfsHash, now);
          return;
        }
      }
      // the checks have passed: write
      Settlement.NewRowKeepsInvariant(t, worker, requestId, resultHash, ipfsHash, now);
      results := after;
      if matches != k {
        queue := queue[requestId := req.(status := status.value)];
        Settlement.AcceptWaits(config.value.tokenSymbol, t, worker, requestId, resultHash, ipfsHash, now);
        return Pass;
      }
      // At the quorum the status row would be rewritten and then erased
      // with the request: only the erasure is visible.
      Conclude(t, worker, requestId, resultHash, ipfsHash, now, after, req.timestamp, k - 1, split.value);
      o := Pass;
    }

    /** `submit` at the quorum, after the caller's row is emplaced: the
        tables end up as `Accept` says. */
    method Conclude(ghost t: Settlement.Books, worker: Name, requestId: nat, resultHash: Hash, ipfsHash: string,
                    now: Time, after: seq<WorkResult>, ts: Time, cap: nat, payment: Asset)
      requires Valid() && config.Some?
      requires Settlement.Ready(t, worker, requestId)
      requires Settlement.Settles(t, worker, requestId, resultHash, ipfsHash, now)
      requires ts == t.queue[requestId].timestamp && cap + 1 == t.queue[requestId].minVerification
      requires SplitPayment(t.queue[requestId].reward, config.value.tokenSymbol, cap + 1) == Ok(payment)
      requires users == t.users && queue == t.queue
      requires results == after && after == Settlement.Appended(t, worker, requestId, resultHash, ipfsHash, now)
      modifies this`users, this`queue, this`results
      ensures Valid()
      ensures (Pass, Settlement.Books(users, queue, results)) ==
        Settlement.Accept(config.value.tokenSymbol, t, worker, requestId, resultHash, ipfsHash, now)
    {
      ghost var token := config.value.tokenSymbol;
      Payout(requestId, after, ts, worker, cap, payment);
      ghost var b := Settlement.Books(users, queue, results);
      assert b == Settlement.Settled(Settlement.Books(t.users, t.queue, after), requestId, ts, worker, cap, payment);
      Settlement.AcceptSettled(token, t, worker, requestId, resultHash, ipfsHash, now, cap, payment, b);
    }

    /** The settlement branch of `submit`: the `bytime` scan, the payments,
        and the request's removal. */
    method Payout(requestId: nat, after: seq<WorkResult>, ts: Time, worker: Name, cap: nat, payment: Asset)
      requires Valid() && results == after
      modifies this`users, this`queue, this`results
      ensures Valid()
      ensures users == CreditAll(old(users), Quorum.Payees(after, requestId, ts, worker, cap), payment)
      ensures queue == old(queue) - {requestId}
      ensures results == ResultsWithout(after, Quorum.SettledIds(after, requestId, ts))
    {
      // The request's row is erased last in the action; the three tables are
      // disjoint and the action is atomic, so erasing it first is the same.
      queue := queue - {requestId};
      Distribute(after, requestId, ts, worker, cap, payment);
    }

    /** The scan of a settlement, then the payments. */
    method Distribute(after: seq<WorkResult>, requestId: nat, ts: Time, worker: Name, cap: nat, payment: Asset)
      requires Valid() && results == after
      modifies this`users, this`results
      ensures Valid()
      ensures users == CreditAll(old(users), Quorum.Payees(after, requestId, ts, worker, cap), payment)
      ensures results == ResultsWithout(after, Quorum.SettledIds(after, requestId, ts))
    {
      var payments := Settle(after, requestId, ts, worker, cap);
      PayAll(payments, payment);
    }

    /** The `bytime` scan of a settlement: walks the index from
        `lower_bound(ts)` to the end, erasing each row of request `rid` and
        collecting up to `cap` of their workers other than the submitter;
        then appends the submitter. */
    method Settle(after: seq<WorkResult>, rid: nat, ts: Time, submitter: Name, cap: nat)
      returns (payments: seq<Name>)
      requires ResultIdsAscending(after) && Quorum.OneRowPerWorker(after)
      requires results == after
      modifies this`results
      ensures ResultIdsAscending(results) && Quorum.OneRowPerWorker(results)
      ensures payments == Quorum.Payees(after, rid, ts, submitter, cap)
      ensures results == ResultsWithout(after, Quorum.SettledIds(after, rid, ts))
    {
      var view := Quorum.TimeView(after);
      var picked, rows := Scan(after, view, Index.LowerBound(view, ts), rid, submitter, cap);
      Quorum.ErasingKeepsOneRow(after, Quorum.SettledIds(after, rid, ts));
      ResultsWithoutAscending(after, Quorum.SettledIds(after, rid, ts));
      payments := picked + [submitter];
      results := rows;
    }
  }

  /** The loop of a settlement over the `bytime` index range
      `view[lb..]`: each row of `rid` is erased, and its worker picked while
      fewer than `cap` are and it is not the submitter. */
  method Scan(after: seq<WorkResult>, view: seq<Index.Entry<WorkResult>>, lb: nat, rid: nat, submitter: Name, cap: nat)
    returns (picked: seq<Name>, rows: seq<WorkResult>)
    requires lb <= |view|
    ensures picked == Quorum.Picked(view[lb..], rid, submitter, cap)
    ensures rows == ResultsWithout(after, Quorum.ErasedIds(view[lb..], rid))
  {
    var it := lb;
    rows := after;
    picked := [];
    ResultsWithoutNothing(after);
    while it < |view|
      invariant lb <= it <= |view|
      invariant picked == Quorum.Picked(view[lb..it], rid, submitter, cap)
      invariant rows == ResultsWithout(after, Quorum.ErasedIds(view[lb..it], rid))
    {
      var e := view[it];
      Quorum.ScanStep(view, lb, it, rid, submitter, cap);
      if e.row.requestId == rid {
        if |picked| < cap && e.row.worker != submitter {
          picked := picked + [e.row.worker];
        }
        ResultsWithoutTwice(after, Quorum.ErasedIds(view[lb..it], rid), {e.pk});
        rows := ResultsWithout(rows, {e.pk});
      }
      it := it + 1;
    }
    assert view[lb..it] == view[lb..];
  }

  /** The card loop of `unregworker`: walks the `byowner` index from
      `find(account)` to the end, erasing each card it visits. */
  method Sweep(cards: seq<Card>, account: Name) returns (kept: seq<Card>)
    ensures kept == CardsWithout(cards, Cards.SweptIds(cards, account))
  {
    var view := Cards.OwnerView(cards);
    var it := Index.Find(view, account);
    ghost var start := it;
    kept := cards;
    CardsWithoutNothing(cards);
    while it < |view|
      invariant start <= it <= |view|
      invariant kept == CardsWithout(cards, Index.Pks(view[start..it]))
    {
      Index.PksExtend(view, start, it);
      CardsWithoutTwice(cards, Index.Pks(view[start..it]), {view[it].pk});
      kept := CardsWithout(kept, {view[it].pk});
      it := it + 1;
    }
    assert view[start..it] == view[start..];
  }
}
