/** The card sweep of `unregworker` (worker.cpp): starting at
    `byowner.find(account)` it erases every entry up to the end of the
    `byowner` index, so cards of owners with a higher name value go too. */
module Cards {
  import opened Tables
  import Index

  /** The cards' `byowner` index. */
  function OwnerView(cards: seq<Card>): (r: seq<Index.Entry<Card>>)
  {
    Index.View(ByOwner(cards))
  }

  /** Does `account` own a card? */
  predicate OwnsCard(cards: seq<Card>, account: Name)
  {
    exists i :: 0 <= i < |cards| && cards[i].owner == account
  }

  /** Primary keys the sweep erases: those of the index entries from
      `find(account)` to the end. */
  function SweptIds(cards: seq<Card>, account: Name): (r: set<nat>)
  {
    var v := OwnerView(cards);
    Index.Pks(v[Index.Find(v, account)..])
  }

  /** Every entry of the `byowner` index is the entry of one of the cards. */
  lemma OwnerViewEntries(cards: seq<Card>)
    ensures |OwnerView(cards)| == |cards|
    ensures Index.Sorted(OwnerView(cards))
    ensures forall e :: e in OwnerView(cards) <==> exists j :: 0 <= j < |cards| && e == Index.Entry(cards[j].owner, cards[j].id, cards[j])
  {
    var t := ByOwner(cards);
    Index.ViewSorted(t);
    Index.ViewDistinct(t);
    forall e
      ensures e in t <==> exists j :: 0 <= j < |cards| && e == Index.Entry(cards[j].owner, cards[j].id, cards[j])
    {
      if e in t {
        var j :| 0 <= j < |t| && t[j] == e;
      }
      if exists j :: 0 <= j < |cards| && e == Index.Entry(cards[j].owner, cards[j].id, cards[j]) {
        var j :| 0 <= j < |cards| && e == Index.Entry(cards[j].owner, cards[j].id, cards[j]);
        assert t[j] == e;
      }
    }
  }

  /** From `find(account)` on, the index holds exactly the keys at least
      `account`, provided `account` owns a card; otherwise `find` is the end. */
  lemma FindSplitsOwners(cards: seq<Card>, account: Name)
    ensures var v := OwnerView(cards);
      forall i :: 0 <= i < |v| ==>
        (Index.Find(v, account) <= i <==> OwnsCard(cards, account) && v[i].key >= account)
  {
    var v := OwnerView(cards);
    var f := Index.Find(v, account);
    OwnerViewEntries(cards);
    Index.ViewHasKey(ByOwner(cards), account);
    if OwnsCard(cards, account) {
      var j :| 0 <= j < |cards| && cards[j].owner == account;
      assert ByOwner(cards)[j].key == account;
    } else {
      forall i | 0 <= i < |ByOwner(cards)|
        ensures ByOwner(cards)[i].key != account
      {
        assert ByOwner(cards)[i].key == cards[i].owner;
      }
    }
    forall i | 0 <= i < |v|
      ensures f <= i <==> OwnsCard(cards, account) && v[i].key >= account
    {
      if f < |v| {
        if i < f {
          assert Index.Precedes(v[i], v[f]);
        } else if f < i {
          assert Index.Precedes(v[f], v[i]);
        }
      }
    }
  }

  lemma SweptIfAbove(cards: seq<Card>, account: Name, m: nat)
    requires m < |cards| && OwnsCard(cards, account) && cards[m].owner >= account
    ensures cards[m].id in SweptIds(cards, account)
  {
    var v := OwnerView(cards);
    var f := Index.Find(v, account);
    OwnerViewEntries(cards);
    FindSplitsOwners(cards, account);
    Index.PksMembers(v[f..]);
    var e := Index.Entry(cards[m].owner, cards[m].id, cards[m]);
    assert e in v;
    var i :| 0 <= i < |v| && v[i] == e;
    assert v[f..][i - f] == e;
  }

  lemma SweptOnlyAbove(cards: seq<Card>, account: Name, m: nat)
    requires CardIdsAscending(cards)
    requires m < |cards| && cards[m].id in SweptIds(cards, account)
    ensures OwnsCard(cards, account) && cards[m].owner >= account
  {
    var v := OwnerView(cards);
    var f := Index.Find(v, account);
    OwnerViewEntries(cards);
    FindSplitsOwners(cards, account);
    Index.PksMembers(v[f..]);
    var i :| 0 <= i < |v[f..]| && v[f..][i].pk == cards[m].id;
    var e := v[f + i];
    assert e in v;
    var j :| 0 <= j < |cards| && e == Index.Entry(cards[j].owner, cards[j].id, cards[j]);
    assert j == m;
  }

  /** The sweep keeps a card exactly when `account` owns no card at all, or
      the card's owner has a lower name value than `account`. */
  lemma SweepKeeps(cards: seq<Card>, account: Name)
    requires CardIdsAscending(cards)
    ensures forall c :: c in CardsWithout(cards, SweptIds(cards, account)) <==>
      c in cards && !(OwnsCard(cards, account) && c.owner >= account)
  {
    CardsWithoutMembers(cards, SweptIds(cards, account));
    forall c | c in cards
      ensures c.id in SweptIds(cards, account) <==> OwnsCard(cards, account) && c.owner >= account
    {
      var m :| 0 <= m < |cards| && cards[m] == c;
      if OwnsCard(cards, account) && c.owner >= account {
        SweptIfAbove(cards, account, m);
      }
      if c.id in SweptIds(cards, account) {
        SweptOnlyAbove(cards, account, m);
      }
    }
  }

  /** Every card of `account` itself is swept away. */
  lemma SweepRemovesOwnCards(cards: seq<Card>, account: Name)
    requires CardIdsAscending(cards)
    ensures forall c :: c in CardsWithout(cards, SweptIds(cards, account)) ==> c.owner != account
  {
    SweepKeeps(cards, account);
    forall c | c in CardsWithout(cards, SweptIds(cards, account))
      ensures c.owner != account
    {
      var m :| 0 <= m < |cards| && cards[m] == c;
      assert c.owner == account ==> OwnsCard(cards, account);
    }
  }

  /** ... and with it the card of a higher-valued owner: worker 1 leaving
      also drops worker 2's card. */
  lemma SweepTakesHigherOwners(a: Card, b: Card)
    requires a.id == 0 && a.owner == 1 && b.id == 1 && b.owner == 2
    ensures forall c :: c !in CardsWithout([a, b], SweptIds([a, b], 1))
  {
    SweepKeeps([a, b], 1);
    assert [a, b][0].owner == 1;
    assert OwnsCard([a, b], 1);
  }
}
