/** The persistent rows of telos.gpu and the indices the actions walk.
    eosio `name`s are their 64-bit values, `checksum256`s and timestamps
    are uninterpreted ordered values; both become `nat`. */
module Tables {
  import opened Assets
  import Index

  type Name = nat
  type Hash = nat
  /** Seconds since the epoch (`time_point_sec`). */
  type Time = nat

  /** 2^64: the nonce is a `uint64_t` and wraps around. */
  const U64: nat := 0x1_0000_0000_0000_0000

  /** The config singleton. */
  datatype Config = Config(tokenContract: Name, tokenSymbol: Symbol, nonce: nat)

  /** A `users` row, keyed by `user`. */
  datatype Account = Account(user: Name, balance: Asset)

  /** A `workers` row, keyed by `account`. */
  datatype Worker = Worker(account: Name, joined: Time, left: Time, url: string)

  /** A `cards` row, keyed by `id`, with secondary index `byowner`. */
  datatype Card = Card(id: nat, owner: Name, cardName: string, version: string,
                       totalMemory: nat, mpCount: nat, extra: string)

  /** One entry of the status vector embedded in a request. */
  datatype WorkerStatus = WorkerStatus(worker: Name, status: string, started: Time)

  /** A `queue` row, keyed by `nonce`. */
  datatype WorkRequest = WorkRequest(
    nonce: nat,
    user: Name,
    reward: Asset,
    minVerification: nat,
    body: string,
    binaryInputs: seq<string>,
    status: seq<WorkerStatus>,
    timestamp: Time)

  /** A `results` row, keyed by `id`, with secondary indices `byreqid`,
      `byresult`, `byworker` and `bytime`. */
  datatype WorkResult = WorkResult(
    id: nat,
    requestId: nat,
    user: Name,
    worker: Name,
    resultHash: Hash,
    ipfsHash: string,
    submitted: Time)

  // ---- secondary index entries, in primary-key order ----

  /** Entries of the `byresult` index: keyed by result hash. */
  function ByResult(rows: seq<WorkResult>): (r: seq<Index.Entry<WorkResult>>)
  {
    seq(|rows|, i requires 0 <= i < |rows| => Index.Entry(rows[i].resultHash, rows[i].id, rows[i]))
  }

  /** Entries of the results' `bytime` index: keyed by submission second. */
  function ByTime(rows: seq<WorkResult>): (r: seq<Index.Entry<WorkResult>>)
  {
    seq(|rows|, i requires 0 <= i < |rows| => Index.Entry(rows[i].submitted, rows[i].id, rows[i]))
  }

  /** Entries of the results' `byworker` index: keyed by worker. */
  function ByWorker(rows: seq<WorkResult>): (r: seq<Index.Entry<WorkResult>>)
  {
    seq(|rows|, i requires 0 <= i < |rows| => Index.Entry(rows[i].worker, rows[i].id, rows[i]))
  }

  /** Entries of the cards' `byowner` index. */
  function ByOwner(cards: seq<Card>): (r: seq<Index.Entry<Card>>)
  {
    seq(|cards|, i requires 0 <= i < |cards| => Index.Entry(cards[i].owner, cards[i].id, cards[i]))
  }

  // ---- primary keys ----

  /** A table stored in primary-key order has strictly increasing ids. */
  ghost predicate ResultIdsAscending(rows: seq<WorkResult>)
  {
    forall i, j :: 0 <= i < j < |rows| ==> rows[i].id < rows[j].id
  }

  ghost predicate CardIdsAscending(cards: seq<Card>)
  {
    forall i, j :: 0 <= i < j < |cards| ==> cards[i].id < cards[j].id
  }

  /** `available_primary_key()`: 0 for an empty table, else one past the
      largest id. */
  function NextResultId(rows: seq<WorkResult>): (id: nat)
    ensures ResultIdsAscending(rows) ==> forall r :: r in rows ==> r.id < id
  {
    if rows == [] then 0 else rows[|rows| - 1].id + 1
  }

  function NextCardId(cards: seq<Card>): (id: nat)
    ensures CardIdsAscending(cards) ==> forall c :: c in cards ==> c.id < id
  {
    if cards == [] then 0 else cards[|cards| - 1].id + 1
  }

  /** The results table after erasing the rows whose id is in `ids`. */
  function ResultsWithout(rows: seq<WorkResult>, ids: set<nat>): (r: seq<WorkResult>)
  {
    if rows == [] then []
    else if rows[0].id in ids then ResultsWithout(rows[1..], ids)
    else [rows[0]] + ResultsWithout(rows[1..], ids)
  }

  /** The cards table after erasing the rows whose id is in `ids`. */
  function CardsWithout(cards: seq<Card>, ids: set<nat>): (r: seq<Card>)
  {
    if cards == [] then []
    else if cards[0].id in ids then CardsWithout(cards[1..], ids)
    else [cards[0]] + CardsWithout(cards[1..], ids)
  }

  /** Erasing keeps exactly the rows whose id is not erased. */
  lemma {:induction false} ResultsWithoutMembers(rows: seq<WorkResult>, ids: set<nat>)
    ensures forall x :: x in ResultsWithout(rows, ids) <==> x in rows && x.id !in ids
    ensures |ResultsWithout(rows, ids)| <= |rows|
  {
    if rows != [] {
      ResultsWithoutMembers(rows[1..], ids);
      assert rows == [rows[0]] + rows[1..];
    }
  }

  /** ... and keeps them in primary-key order. */
  lemma {:induction false} ResultsWithoutAscending(rows: seq<WorkResult>, ids: set<nat>)
    requires ResultIdsAscending(rows)
    ensures ResultIdsAscending(ResultsWithout(rows, ids))
  {
    if rows != [] {
      ResultsWithoutAscending(rows[1..], ids);
      ResultsWithoutMembers(rows[1..], ids);
      var rest := ResultsWithout(rows[1..], ids);
      if rows[0].id !in ids {
        forall x | x in rest ensures rows[0].id < x.id {
          var j :| 0 <= j < |rows| - 1 && rows[1..][j] == x;
          assert rows[j + 1] == x;
        }
        ResultConsAscending(rows[0], rest);
      }
    }
  }

  lemma ResultConsAscending(first: WorkResult, rest: seq<WorkResult>)
    requires ResultIdsAscending(rest) && forall x :: x in rest ==> first.id < x.id
    ensures ResultIdsAscending([first] + rest)
  {
    var r := [first] + rest;
    forall i, j | 0 <= i < j < |r| ensures r[i].id < r[j].id {
      assert r[j] == rest[j - 1];
      if 0 < i {
        assert r[i] == rest[i - 1];
      }
    }
  }

  /** Erasing keeps exactly the cards whose id is not erased. */
  lemma {:induction false} CardsWithoutMembers(cards: seq<Card>, ids: set<nat>)
    ensures forall x :: x in CardsWithout(cards, ids) <==> x in cards && x.id !in ids
  {
    if cards != [] {
      CardsWithoutMembers(cards[1..], ids);
      assert cards == [cards[0]] + cards[1..];
    }
  }

  /** ... and keeps them in primary-key order. */
  lemma {:induction false} CardsWithoutAscending(cards: seq<Card>, ids: set<nat>)
    requires CardIdsAscending(cards)
    ensures CardIdsAscending(CardsWithout(cards, ids))
  {
    if cards != [] {
      CardsWithoutAscending(cards[1..], ids);
      CardsWithoutMembers(cards[1..], ids);
      var rest := CardsWithout(cards[1..], ids);
      if cards[0].id !in ids {
        forall x | x in rest ensures cards[0].id < x.id {
          var j :| 0 <= j < |cards| - 1 && cards[1..][j] == x;
          assert cards[j + 1] == x;
        }
        CardConsAscending(cards[0], rest);
      }
    }
  }

  lemma CardConsAscending(first: Card, rest: seq<Card>)
    requires CardIdsAscending(rest) && forall x :: x in rest ==> first.id < x.id
    ensures CardIdsAscending([first] + rest)
  {
    var r := [first] + rest;
    forall i, j | 0 <= i < j < |r| ensures r[i].id < r[j].id {
      assert r[j] == rest[j - 1];
      if 0 < i {
        assert r[i] == rest[i - 1];
      }
    }
  }

  lemma {:induction false} ResultsWithoutNothing(rows: seq<WorkResult>)
    ensures ResultsWithout(rows, {}) == rows
  {
    if rows != [] {
      ResultsWithoutNothing(rows[1..]);
      assert rows == [rows[0]] + rows[1..];
    }
  }

  lemma {:induction false} CardsWithoutNothing(cards: seq<Card>)
    ensures CardsWithout(cards, {}) == cards
  {
    if cards != [] {
      CardsWithoutNothing(cards[1..]);
      assert cards == [cards[0]] + cards[1..];
    }
  }

  lemma {:induction false} ResultsWithoutTwice(rows: seq<WorkResult>, a: set<nat>, b: set<nat>)
    ensures ResultsWithout(ResultsWithout(rows, a), b) == ResultsWithout(rows, a + b)
  {
    if rows != [] {
      ResultsWithoutTwice(rows[1..], a, b);
      if rows[0].id !in a {
        assert ([rows[0]] + ResultsWithout(rows[1..], a))[1..] == ResultsWithout(rows[1..], a);
      }
    }
  }

  lemma {:induction false} CardsWithoutTwice(cards: seq<Card>, a: set<nat>, b: set<nat>)
    ensures CardsWithout(CardsWithout(cards, a), b) == CardsWithout(cards, a + b)
  {
    if cards != [] {
      CardsWithoutTwice(cards[1..], a, b);
      if cards[0].id !in a {
        assert ([cards[0]] + CardsWithout(cards[1..], a))[1..] == CardsWithout(cards[1..], a);
      }
    }
  }
}
