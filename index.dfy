/** Secondary indices of an eosio multi_index table.
    A secondary index visits the rows ordered by their secondary key and,
    among equal keys, by primary key. An index view here is the sequence of
    `Entry(key, pk, row)` in that order; `Find` is the first entry with an
    equal key and `LowerBound` the first entry with a key at least the
    argument, both `|view|` (the end iterator) when there is none. */
module Index {

  datatype Entry<R> = Entry(key: nat, pk: nat, row: R)

  /** The (secondary key, primary key) order of an index. */
  predicate Precedes<R>(a: Entry<R>, b: Entry<R>)
  {
    a.key < b.key || (a.key == b.key && a.pk <= b.pk)
  }

  ghost predicate Sorted<R>(s: seq<Entry<R>>)
  {
    forall i, j :: 0 <= i < j < |s| ==> Precedes(s[i], s[j])
  }

  /** No entry occurs twice. */
  ghost predicate Distinct<R>(s: seq<Entry<R>>)
  {
    forall i, j :: 0 <= i < j < |s| ==> s[i] != s[j]
  }

  function Insert<R>(e: Entry<R>, s: seq<Entry<R>>): (r: seq<Entry<R>>)
    ensures |r| == |s| + 1
  {
    if s == [] || Precedes(e, s[0]) then [e] + s else [s[0]] + Insert(e, s[1..])
  }

  /** The index view of a table given its entries in primary-key order. */
  function View<R>(s: seq<Entry<R>>): (v: seq<Entry<R>>)
    ensures |v| == |s|
  {
    if s == [] then [] else Insert(s[0], View(s[1..]))
  }

  lemma {:induction false} InsertSorted<R>(e: Entry<R>, s: seq<Entry<R>>)
    requires Sorted(s)
    ensures Sorted(Insert(e, s))
    ensures multiset(Insert(e, s)) == multiset(s) + multiset{e}
  {
    if s == [] || Precedes(e, s[0]) {
      assert Insert(e, s) == [e] + s;
    } else {
      assert s == [s[0]] + s[1..];
      InsertSorted(e, s[1..]);
      var t := Insert(e, s[1..]);
      assert Insert(e, s) == [s[0]] + t;
      forall x | x in t
        ensures Precedes(s[0], x)
      {
        assert x in multiset(t);
      }
    }
  }

  /** The view is ordered and holds exactly the table's entries. */
  lemma {:induction false} ViewSorted<R>(s: seq<Entry<R>>)
    ensures Sorted(View(s))
    ensures multiset(View(s)) == multiset(s)
  {
    if s != [] {
      ViewSorted(s[1..]);
      InsertSorted(s[0], View(s[1..]));
      assert s == [s[0]] + s[1..];
    }
  }

  lemma {:induction false} InsertDistinct<R>(e: Entry<R>, s: seq<Entry<R>>)
    ensures forall x :: x in Insert(e, s) <==> x == e || x in s
    ensures Distinct(s) && e !in s ==> Distinct(Insert(e, s))
  {
    if s != [] && !Precedes(e, s[0]) {
      InsertDistinct(e, s[1..]);
      assert s == [s[0]] + s[1..];
      var t := Insert(e, s[1..]);
      assert Insert(e, s) == [s[0]] + t;
      if Distinct(s) && e !in s {
        assert Distinct(s[1..]);
        assert s[0] !in s[1..];
        assert s[0] !in t;
      }
    }
  }

  /** The view holds the table's entries, each once if it was once there. */
  lemma {:induction false} ViewDistinct<R>(s: seq<Entry<R>>)
    ensures forall x :: x in View(s) <==> x in s
    ensures Distinct(s) ==> Distinct(View(s))
  {
    if s != [] {
      ViewDistinct(s[1..]);
      InsertDistinct(s[0], View(s[1..]));
      assert s == [s[0]] + s[1..];
    }
  }

  /** Number of entries whose key is at least `k`. */
  function CountAtLeast<R>(s: seq<Entry<R>>, k: nat): (r: nat)
  {
    if s == [] then 0 else (if s[0].key >= k then 1 else 0) + CountAtLeast(s[1..], k)
  }

  lemma {:induction false} CountAtLeastInsert<R>(e: Entry<R>, s: seq<Entry<R>>, k: nat)
    ensures CountAtLeast(Insert(e, s), k) == CountAtLeast(s, k) + (if e.key >= k then 1 else 0)
  {
    if s == [] || Precedes(e, s[0]) {
      assert ([e] + s)[1..] == s;
    } else {
      CountAtLeastInsert(e, s[1..], k);
      assert ([s[0]] + Insert(e, s[1..]))[1..] == Insert(e, s[1..]);
    }
  }

  /** Building the index neither adds nor drops a key. */
  lemma {:induction false} CountAtLeastView<R>(s: seq<Entry<R>>, k: nat)
    ensures CountAtLeast(View(s), k) == CountAtLeast(s, k)
  {
    if s != [] {
      CountAtLeastView(s[1..], k);
      CountAtLeastInsert(s[0], View(s[1..]), k);
    }
  }

  lemma {:induction false} CountAtLeastSplit<R>(a: seq<Entry<R>>, b: seq<Entry<R>>, k: nat)
    ensures CountAtLeast(a + b, k) == CountAtLeast(a, k) + CountAtLeast(b, k)
  {
    if a != [] {
      assert (a + b)[1..] == a[1..] + b;
      CountAtLeastSplit(a[1..], b, k);
    } else {
      assert a + b == b;
    }
  }

  /** First position whose key equals `k` (the index's `find`). */
  function Find<R>(s: seq<Entry<R>>, k: nat): (r: nat)
    ensures r <= |s|
    ensures r < |s| ==> s[r].key == k
    ensures forall i :: 0 <= i < r ==> s[i].key != k
  {
    if s == [] then 0 else if s[0].key == k then 0 else 1 + Find(s[1..], k)
  }

  /** First position whose key is at least `k` (the index's `lower_bound`). */
  function LowerBound<R>(s: seq<Entry<R>>, k: nat): (r: nat)
    ensures r <= |s|
    ensures r < |s| ==> s[r].key >= k
    ensures forall i :: 0 <= i < r ==> s[i].key < k
  {
    if s == [] then 0 else if s[0].key >= k then 0 else 1 + LowerBound(s[1..], k)
  }

  /** On an ordered view, iterating from `lower_bound(k)` to the end visits
      exactly the entries whose key is at least `k`. */
  lemma LowerBoundSuffix<R>(s: seq<Entry<R>>, k: nat)
    requires Sorted(s)
    ensures forall i :: 0 <= i < |s| ==> (LowerBound(s, k) <= i <==> s[i].key >= k)
  {
    var lb := LowerBound(s, k);
    forall i | lb <= i < |s|
      ensures s[i].key >= k
    {
      if lb < i {
        assert Precedes(s[lb], s[i]);
      }
    }
  }

  /** On an ordered view, iterating from `find(k)` to the end visits as many
      entries as there are keys at least `k`, provided some key equals `k`. */
  lemma {:induction false} FindSuffixCount<R>(s: seq<Entry<R>>, k: nat)
    requires Sorted(s)
    requires Find(s, k) < |s|
    ensures |s| - Find(s, k) == CountAtLeast(s, k)
  {
    var f := Find(s, k);
    assert s == s[..f] + s[f..];
    CountAtLeastSplit(s[..f], s[f..], k);
    forall i | 0 <= i < f
      ensures s[i].key < k
    {
      assert Precedes(s[i], s[f]);
    }
    forall i | f <= i < |s|
      ensures s[i].key >= k
    {
      if f < i {
        assert Precedes(s[f], s[i]);
      }
    }
    AllBelow(s[..f], k);
    AllAtLeast(s[f..], k);
  }

  lemma {:induction false} AllBelow<R>(s: seq<Entry<R>>, k: nat)
    requires forall i :: 0 <= i < |s| ==> s[i].key < k
    ensures CountAtLeast(s, k) == 0
  {
    if s != [] {
      AllBelow(s[1..], k);
    }
  }

  lemma {:induction false} AllAtLeast<R>(s: seq<Entry<R>>, k: nat)
    requires forall i :: 0 <= i < |s| ==> s[i].key >= k
    ensures CountAtLeast(s, k) == |s|
  {
    if s != [] {
      AllAtLeast(s[1..], k);
    }
  }

  /** Counting entries from `find(k)` to the end of the index built over a
      table counts the table's entries whose key is at least `k`. */
  lemma ViewFindCount<R>(s: seq<Entry<R>>, k: nat)
    requires Find(View(s), k) < |View(s)|
    ensures |View(s)| - Find(View(s), k) == CountAtLeast(s, k)
  {
    ViewSorted(s);
    FindSuffixCount(View(s), k);
    CountAtLeastView(s, k);
  }

  /** The view has an entry with key `k` exactly when the table has one. */
  lemma ViewHasKey<R>(s: seq<Entry<R>>, k: nat)
    ensures Find(View(s), k) < |View(s)| <==> exists i :: 0 <= i < |s| && s[i].key == k
  {
    ViewSorted(s);
    var v := View(s);
    if exists i :: 0 <= i < |s| && s[i].key == k {
      var i :| 0 <= i < |s| && s[i].key == k;
      assert s[i] in multiset(v);
      var j :| 0 <= j < |v| && v[j] == s[i];
      assert Find(v, k) <= j;
    }
    if Find(v, k) < |v| {
      assert v[Find(v, k)] in multiset(s);
    }
  }

  /** Primary keys of a run of entries, as visited left to right. */
  function Pks<R>(s: seq<Entry<R>>): (r: set<nat>)
  {
    if s == [] then {} else Pks(s[..|s| - 1]) + {s[|s| - 1].pk}
  }

  /** Extending a run by the next entry adds that entry's primary key. */
  lemma PksExtend<R>(s: seq<Entry<R>>, lo: nat, hi: nat)
    requires lo <= hi < |s|
    ensures Pks(s[lo..hi + 1]) == Pks(s[lo..hi]) + {s[hi].pk}
  {
    assert s[lo..hi + 1][..hi - lo] == s[lo..hi];
  }

  lemma {:induction false} PksMembers<R>(s: seq<Entry<R>>)
    ensures forall id :: id in Pks(s) <==> exists i :: 0 <= i < |s| && s[i].pk == id
  {
    if s != [] {
      var init := s[..|s| - 1];
      PksMembers(init);
      assert forall i :: 0 <= i < |init| ==> init[i] == s[i];
    }
  }
}
