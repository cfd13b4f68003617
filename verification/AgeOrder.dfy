/**
The age order behind first-hit reads: along the search order, the versions of a user key
descend. These lemmas say how writing and compacting affect it.
*/
module AgeOrder {
  import opened Bytes
  import opened Keys
  import opened Versions
  import opened Iterators

  /** For every shared user key, all versions in a are newer than all versions in b. */
  predicate NewerThan(a: seq<Entry>, b: seq<Entry>) {
    forall x, y :: x in a && y in b && UserKeyOf(x) == UserKeyOf(y) ==> SeqOf(x) > SeqOf(y)
  }

  lemma {:induction false} DescendConcat(a: seq<Entry>, b: seq<Entry>)
    ensures VersionsDescend(a + b) <==> VersionsDescend(a) && VersionsDescend(b) && NewerThan(a, b)
  {
    hide UserKey, SeqNum;
    var c := a + b;
    if VersionsDescend(c) {
      assert forall i :: 0 <= i < |a| ==> c[i] == a[i];
      assert forall i :: 0 <= i < |b| ==> c[|a| + i] == b[i];
      forall x, y | x in a && y in b && UserKeyOf(x) == UserKeyOf(y) ensures SeqOf(x) > SeqOf(y) {
        var i :| 0 <= i < |a| && a[i] == x;
        var j :| 0 <= j < |b| && b[j] == y;
        assert c[i] == x && c[|a| + j] == y;
      }
    }
    if VersionsDescend(a) && VersionsDescend(b) && NewerThan(a, b) {
      forall i, j | 0 <= i < j < |c| && UserKeyOf(c[i]) == UserKeyOf(c[j]) ensures SeqOf(c[i]) > SeqOf(c[j]) {
        if i < |a| <= j { assert c[i] in a && c[j] in b; }
      }
    }
  }

  /** Age order makes all internal keys different. */
  lemma {:induction false} DescendUnique(es: seq<Entry>)
    requires VersionsDescend(es)
    ensures UniqueKeys(multiset(es))
  {
    hide UserKey, SeqNum, VersionsDescend;
    forall x | x in multiset(es) ensures multiset(es)[x] == 1 {
      var i :| 0 <= i < |es| && es[i] == x;
      DescendOnce(es, i);
    }
    forall x, y | x in multiset(es) && y in multiset(es) && x.key == y.key ensures x == y {
      var i :| 0 <= i < |es| && es[i] == x;
      var j :| 0 <= j < |es| && es[j] == y;
      DescendApart(es, i, j);
    }
  }

  lemma {:induction false} DescendApart(es: seq<Entry>, i: nat, j: nat)
    requires VersionsDescend(es) && i < |es| && j < |es| && es[i].key == es[j].key
    ensures i == j
  {
    hide UserKey, SeqNum;
    assert UserKeyOf(es[i]) == UserKeyOf(es[j]) && SeqOf(es[i]) == SeqOf(es[j]);
  }

  lemma {:induction false} DescendOnce(es: seq<Entry>, i: nat)
    requires VersionsDescend(es) && i < |es|
    ensures multiset(es)[es[i]] == 1
  {
    hide UserKey, SeqNum, VersionsDescend;
    var a, b := es[..i], es[i + 1..];
    assert es == a + [es[i]] + b;
    forall j | 0 <= j < |es| && j != i ensures es[j] != es[i] {
      if es[j] == es[i] { DescendApart(es, i, j); }
    }
    assert es[i] !in a && es[i] !in b;
    assert multiset(a)[es[i]] == 0 && multiset(b)[es[i]] == 0;
  }

  /** Every read that stops at the first hit returns the newest visible version. */
  ghost predicate AllReadsNewest(es: seq<Entry>) {
    forall u: Bytes, m: nat :: ReadsNewest(Elements(es), u, m, FirstVisible(es, u, m))
  }

  /** First-hit reads are right for every key and snapshot exactly in age order. */
  lemma {:induction false} ReadsNewestIffDescend(es: seq<Entry>)
    requires UniqueKeys(multiset(es))
    requires forall e :: e in es ==> |e.key| >= SEQ_SIZE
    ensures VersionsDescend(es) <==> AllReadsNewest(es)
  {
    hide UserKey, SeqNum, FirstVisible;
    if VersionsDescend(es) {
      forall u: Bytes, m: nat ensures ReadsNewest(Elements(es), u, m, FirstVisible(es, u, m)) {
        FirstVisibleIsNewest(es, u, m);
      }
    }
    if AllReadsNewest(es) {
      forall i, j | 0 <= i < j < |es| && UserKeyOf(es[i]) == UserKeyOf(es[j])
        ensures SeqOf(es[i]) > SeqOf(es[j])
      {
        assert ReadsNewest(Elements(es), UserKeyOf(es[j]), SeqOf(es[j]),
                           FirstVisible(es, UserKeyOf(es[j]), SeqOf(es[j])));
        NewestComesFirst(es, i, j);
      }
    }
  }

  lemma {:induction false} NewestComesFirst(es: seq<Entry>, i: nat, j: nat)
    requires UniqueKeys(multiset(es))
    requires forall e :: e in es ==> |e.key| >= SEQ_SIZE
    requires i < j < |es| && UserKeyOf(es[i]) == UserKeyOf(es[j])
    requires ReadsNewest(Elements(es), UserKeyOf(es[j]), SeqOf(es[j]), FirstVisible(es, UserKeyOf(es[j]), SeqOf(es[j])))
    ensures SeqOf(es[i]) > SeqOf(es[j])
  {
    hide UserKey, SeqNum, FirstVisible;
    if SeqOf(es[i]) <= SeqOf(es[j]) {
      var u, m := UserKeyOf(es[j]), SeqOf(es[j]);
      var p := FirstVisibleIndex(es, u, m);
      assert Visible(es[i], u, m) && Visible(es[j], u, m);
      assert es[j] in Elements(es);
      assert p <= i && SeqOf(es[p]) == m;
      SameVersion(es[p], es[j]);
      assert es[p] in multiset(es) && es[j] in multiset(es);
      RepeatedElement(es, p, j);
    }
  }

  lemma {:induction false} SameVersion(a: Entry, b: Entry)
    requires |a.key| >= SEQ_SIZE && |b.key| >= SEQ_SIZE
    requires UserKeyOf(a) == UserKeyOf(b) && SeqOf(a) == SeqOf(b)
    ensures a.key == b.key
  {
    MakeOfSplit(a.key);
    MakeOfSplit(b.key);
  }

  // ----- writing -----

  /** Inserting the newest version of all keeps the age order. */
  lemma {:induction false} InsertNewest(active: seq<Entry>, rest: seq<Entry>, e: Entry, keys: iset<Bytes>)
    requires VersionsDescend(active + rest) && Sorted(active)
    requires SeparableSpace(keys) && InSpace(active, keys) && InSpace([e], keys)
    requires forall x :: x in active + rest ==> SeqOf(x) < SeqOf(e)
    ensures Sorted(Insert(active, e))
    ensures VersionsDescend(Insert(active, e) + rest)
  {
    hide UserKey, SeqNum, Less, VersionsDescend, LowerBound;
    assert [e][0] == e;
    assert forall x :: x in active ==> x in active + rest;
    forall i | 0 <= i < |active| ensures active[i].key != e.key {
      assert active[i] in active;
      assert SeqOf(active[i]) < SeqOf(e);
    }
    InsertKeepsSorted(active, e);
    InsertKeepsElements(active, e);
    InsertInSpace(active, e, keys);
    SortedDescends(Insert(active, e), keys);
    DescendConcat(active, rest);
    DescendConcat(Insert(active, e), rest);
    forall x, y | x in Insert(active, e) && y in rest && UserKeyOf(x) == UserKeyOf(y) ensures SeqOf(x) > SeqOf(y) {
      assert x in Elements(Insert(active, e));
      assert y in active + rest;
    }
  }

  lemma {:induction false} InsertInSpace(es: seq<Entry>, e: Entry, keys: iset<Bytes>)
    requires InSpace(es, keys) && InSpace([e], keys)
    ensures InSpace(Insert(es, e), keys)
  {
    assert [e][0] == e;
  }

  // ----- compacting -----

  /** No user key occurs on both sides. */
  predicate NoSharedKey(a: seq<Entry>, b: seq<Entry>) {
    forall x, y :: x in a && y in b ==> UserKeyOf(x) != UserKeyOf(y)
  }

  ghost predicate UnionOf(c: seq<Entry>, a: seq<Entry>, b: seq<Entry>) {
    forall e :: e in c <==> e in a || e in b
  }

  /** Merging `moved` into the sorted level `old` below it, past the tables `passed` that stay
      behind, keeps the age order exactly when `moved` and `passed` share no user key. */
  lemma {:induction false} MoveDown(above: seq<Entry>, moved: seq<Entry>, passed: seq<Entry>, old_: seq<Entry>,
                                    new_: seq<Entry>, below: seq<Entry>, keys: iset<Bytes>)
    requires VersionsDescend(above + (moved + (passed + (old_ + below))))
    requires Sorted(new_) && InSpace(new_, keys) && SeparableSpace(keys)
    requires UnionOf(new_, moved, old_)
    ensures VersionsDescend(above + (passed + (new_ + below))) <==> NoSharedKey(moved, passed)
  {
    hide UserKey, SeqNum, Less, VersionsDescend, Sorted, InSpace;
    DescendConcat(above, moved + (passed + (old_ + below)));
    DescendConcat(moved, passed + (old_ + below));
    DescendConcat(passed, old_ + below);
    DescendConcat(old_, below);
    SortedDescends(new_, keys);
    DescendConcat(above, passed + (new_ + below));
    DescendConcat(passed, new_ + below);
    DescendConcat(new_, below);
    assert NewerThan(new_, below);
    assert NewerThan(above, passed + (new_ + below));
    assert NewerThan(passed, below);
    if NewerThan(passed, new_ + below) {
      forall x, y | x in moved && y in passed ensures UserKeyOf(x) != UserKeyOf(y) {
        assert y in passed + (old_ + below);
        assert x in new_ + below;
      }
    }
    if NoSharedKey(moved, passed) {
      forall x, y | x in passed && y in new_ + below && UserKeyOf(x) == UserKeyOf(y) ensures SeqOf(x) > SeqOf(y) {
        if y in new_ { assert y in old_ || y in moved; }
        assert y !in moved ==> y in old_ + below;
      }
    }
  }
}
