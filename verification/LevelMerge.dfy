/**
Replacing the overlapping part of a level by the merged run keeps the level sorted and
its tables disjoint, even when other tables stay on both sides.
*/
module LevelMerge {
  import opened Bytes
  import opened Keys
  import opened Versions
  import opened Tables
  import opened AgeOrder
  import opened Compaction

  ghost predicate KeyInSpace(key: Bytes, keys: iset<Bytes>) {
    |key| >= SEQ_SIZE && UserKey(key) in keys
  }

  /** On separable keys, byte order never inverts user-key order. */
  lemma {:induction false} UserKeyMonotone(a: Bytes, b: Bytes, keys: iset<Bytes>)
    requires SeparableSpace(keys) && KeyInSpace(a, keys) && KeyInSpace(b, keys)
    requires LessEq(a, b)
    ensures LessEq(UserKey(a), UserKey(b))
  {
    hide Less, UserKey, SeqNum;
    EntryOrder(Entry(b, Tombstone), Entry(a, Tombstone));
  }

  lemma {:induction false} UserKeyDecides(a: Bytes, b: Bytes, keys: iset<Bytes>)
    requires SeparableSpace(keys) && KeyInSpace(a, keys) && KeyInSpace(b, keys)
    requires Less(UserKey(a), UserKey(b))
    ensures Less(a, b)
  {
    hide Less, UserKey, SeqNum;
    EntryOrder(Entry(a, Tombstone), Entry(b, Tombstone));
  }

  predicate LeftOf(t: Table, minKey: Bytes) {
    Less(UserKey(LastKey(t)), UserKey(minKey))
  }

  predicate RightOf(t: Table, maxKey: Bytes) {
    Less(UserKey(maxKey), UserKey(FirstKey(t)))
  }

  lemma {:induction false} OverlapsIff(t: Table, minKey: Bytes, maxKey: Bytes)
    ensures Overlaps(t, minKey, maxKey) <==> !LeftOf(t, minKey) && !RightOf(t, maxKey)
  {
  }

  /** Non-empty tables with all keys in the space. */
  ghost predicate TablesInSpace(ts: seq<Table>, keys: iset<Bytes>) {
    forall i :: 0 <= i < |ts| ==> ts[i].entries != [] && InSpace(ts[i].entries, keys)
  }

  lemma {:induction false} EndsInSpace(t: Table, keys: iset<Bytes>)
    requires t.entries != [] && InSpace(t.entries, keys)
    ensures KeyInSpace(FirstKey(t), keys) && KeyInSpace(LastKey(t), keys)
    ensures t.entries[0] in t.entries && t.entries[|t.entries| - 1] in t.entries
  {
  }

  /** Later tables of a sorted level begin and end at later user keys. */
  lemma {:induction false} LevelEndsAscend(a: Table, b: Table, keys: iset<Bytes>)
    requires SeparableSpace(keys)
    requires a.entries != [] && InSpace(a.entries, keys) && b.entries != [] && InSpace(b.entries, keys)
    requires AllBefore(a.entries, b.entries)
    ensures LessEq(UserKey(FirstKey(a)), UserKey(FirstKey(b)))
    ensures LessEq(UserKey(LastKey(a)), UserKey(LastKey(b)))
  {
    hide Less, UserKey, InSpace;
    EndsInSpace(a, keys);
    EndsInSpace(b, keys);
    LessAsymmetric(FirstKey(a), FirstKey(b));
    LessAsymmetric(LastKey(a), LastKey(b));
    UserKeyMonotone(FirstKey(a), FirstKey(b), keys);
    UserKeyMonotone(LastKey(a), LastKey(b), keys);
  }

  lemma {:induction false} TailBehindHead(level: seq<Table>, keys: iset<Bytes>, minKey: Bytes, maxKey: Bytes)
    requires SeparableSpace(keys) && level != [] && Sorted(TablesFlat(level)) && TablesInSpace(level, keys)
    ensures Sorted(TablesFlat(level[1..])) && TablesInSpace(level[1..], keys)
    ensures !LeftOf(level[0], minKey) ==> forall i :: 0 <= i < |level[1..]| ==> !LeftOf(level[1..][i], minKey)
    ensures RightOf(level[0], maxKey) ==> forall i :: 0 <= i < |level[1..]| ==> RightOf(level[1..][i], maxKey)
  {
    hide Less, UserKey, InSpace, Sorted, AllBefore, FirstKey, LastKey;
    SortedSplit(level[0].entries, TablesFlat(level[1..]));
    forall i | 0 <= i < |level[1..]|
      ensures !LeftOf(level[0], minKey) ==> !LeftOf(level[1..][i], minKey)
      ensures RightOf(level[0], maxKey) ==> RightOf(level[1..][i], maxKey)
    {
      var t := level[1..][i];
      assert t == level[i + 1];
      TableInFlat(level[1..], i);
      BeforeSubset(level[0].entries, TablesFlat(level[1..]), t.entries);
      LevelEndsAscend(level[0], t, keys);
      if LeftOf(t, minKey) {
        LessEqLess(UserKey(LastKey(level[0])), UserKey(LastKey(t)), UserKey(minKey));
      }
      if RightOf(level[0], maxKey) {
        LessLessEq(UserKey(maxKey), UserKey(FirstKey(level[0])), UserKey(FirstKey(t)));
      }
    }
  }

  lemma {:induction false} BeforeSubset(a: seq<Entry>, b: seq<Entry>, c: seq<Entry>)
    requires AllBefore(a, b) && forall e :: e in c ==> e in b
    ensures AllBefore(a, c)
  {
  }

  lemma {:induction false} OverlappingNone(level: seq<Table>, minKey: Bytes, maxKey: Bytes)
    requires forall i :: 0 <= i < |level| ==> RightOf(level[i], maxKey)
    ensures Overlapping(level, minKey, maxKey) == []
  {
    hide RightOf, Overlaps;
    if level != [] {
      OverlapsIff(level[0], minKey, maxKey);
      OverlappingNone(level[1..], minKey, maxKey);
    }
  }

  /** The overlapping tables are a contiguous stretch of the level. */
  lemma {:induction false} LevelSplit(level: seq<Table>, keys: iset<Bytes>, minKey: Bytes, maxKey: Bytes)
    returns (left: seq<Table>, right: seq<Table>)
    requires SeparableSpace(keys) && Sorted(TablesFlat(level)) && TablesInSpace(level, keys)
    ensures level == left + (Overlapping(level, minKey, maxKey) + right)
    ensures forall t :: t in left ==> LeftOf(t, minKey)
    ensures forall t :: t in right ==> RightOf(t, maxKey)
  {
    hide LeftOf, RightOf, Overlaps, TablesFlat, Sorted, TablesInSpace, SeparableSpace;
    if level == [] {
      left, right := [], [];
      return;
    }
    OverlapsIff(level[0], minKey, maxKey);
    TailBehindHead(level, keys, minKey, maxKey);
    var tail := level[1..];
    assert level == [level[0]] + tail;
    if RightOf(level[0], maxKey) {
      OverlappingNone(tail, minKey, maxKey);
      left, right := [], level;
    } else {
      left, right := LevelSplit(tail, keys, minKey, maxKey);
      if LeftOf(level[0], minKey) {
        left := [level[0]] + left;
      } else {
        assert forall t :: t in tail ==> !LeftOf(t, minKey);
        assert forall t :: t in left ==> t in tail;
        assert left == [];
      }
    }
  }

  // ----- the merged level -----

  /** All user keys of the entries lie in [lo, hi]. */
  predicate Within(es: seq<Entry>, lo: Bytes, hi: Bytes) {
    forall e :: e in es ==> LessEq(lo, UserKeyOf(e)) && LessEq(UserKeyOf(e), hi)
  }

  predicate AllLeft(es: seq<Entry>, lo: Bytes) {
    forall e :: e in es ==> Less(UserKeyOf(e), lo)
  }

  predicate AllRight(es: seq<Entry>, hi: Bytes) {
    forall e :: e in es ==> Less(hi, UserKeyOf(e))
  }

  ghost predicate AllInSpace(es: seq<Entry>, keys: iset<Bytes>) {
    forall e :: e in es ==> KeyInSpace(e.key, keys)
  }

  lemma {:induction false} InSpaceIff(es: seq<Entry>, keys: iset<Bytes>)
    ensures InSpace(es, keys) <==> AllInSpace(es, keys)
  {
    hide UserKey;
    if AllInSpace(es, keys) {
      forall i | 0 <= i < |es| ensures |es[i].key| >= SEQ_SIZE && UserKeyOf(es[i]) in keys {
        assert es[i] in es;
      }
    }
  }

  lemma {:induction false} LeftBeforeMerged(left: seq<Entry>, moved: seq<Entry>, old_: seq<Entry>, merged: seq<Entry>,
                         lo: Bytes, hi: Bytes, keys: iset<Bytes>)
    requires SeparableSpace(keys) && AllInSpace(left, keys) && AllInSpace(merged, keys)
    requires UnionOf(merged, moved, old_) && AllBefore(left, old_)
    requires AllLeft(left, lo) && Within(moved, lo, hi)
    ensures AllBefore(left, merged)
  {
    hide Less, UserKey, SeparableSpace;
    forall x, y | x in left && y in merged ensures Less(x.key, y.key) {
      if y in moved {
        LessLessEq(UserKeyOf(x), lo, UserKeyOf(y));
        UserKeyDecides(x.key, y.key, keys);
      }
    }
  }

  lemma {:induction false} MergedBeforeRight(right: seq<Entry>, moved: seq<Entry>, old_: seq<Entry>, merged: seq<Entry>,
                          lo: Bytes, hi: Bytes, keys: iset<Bytes>)
    requires SeparableSpace(keys) && AllInSpace(right, keys) && AllInSpace(merged, keys)
    requires UnionOf(merged, moved, old_) && AllBefore(old_, right)
    requires AllRight(right, hi) && Within(moved, lo, hi)
    ensures AllBefore(merged, right)
  {
    hide Less, UserKey, SeparableSpace;
    forall x, y | x in merged && y in right ensures Less(x.key, y.key) {
      if x in moved {
        LessEqLess(UserKeyOf(x), hi, UserKeyOf(y));
        UserKeyDecides(x.key, y.key, keys);
      }
    }
  }

  lemma {:induction false} MergedLevelSorted(left: seq<Entry>, old_: seq<Entry>, right: seq<Entry>, moved: seq<Entry>,
                                             merged: seq<Entry>, lo: Bytes, hi: Bytes, keys: iset<Bytes>)
    requires SeparableSpace(keys) && AllInSpace(left, keys) && AllInSpace(right, keys) && AllInSpace(merged, keys)
    requires Sorted(left + (old_ + right)) && Sorted(merged) && UnionOf(merged, moved, old_)
    requires AllLeft(left, lo) && AllRight(right, hi) && Within(moved, lo, hi)
    ensures Sorted(left + (merged + right))
  {
    hide Less, UserKey, SeparableSpace, Sorted, AllLeft, AllRight, Within, AllInSpace;
    SortedSplit(left, old_ + right);
    SortedSplit(old_, right);
    BeforeSubset(left, old_ + right, old_);
    BeforeSubset(left, old_ + right, right);
    LeftBeforeMerged(left, moved, old_, merged, lo, hi, keys);
    MergedBeforeRight(right, moved, old_, merged, lo, hi, keys);
    SortedConcat(merged, right);
    SortedConcat(left, merged + right);
  }

  /** The user keys of the moved tables lie between those of the range bounds. */
  lemma {:induction false} MovedWithin(ts: seq<Table>, minKey: Bytes, maxKey: Bytes, keys: iset<Bytes>)
    requires SeparableSpace(keys) && TablesInSpace(ts, keys) && Spans(ts, minKey, maxKey)
    requires forall i :: 0 <= i < |ts| ==> Sorted(ts[i].entries)
    ensures Within(TablesFlat(ts), UserKey(minKey), UserKey(maxKey))
    ensures KeyInSpace(minKey, keys) && KeyInSpace(maxKey, keys)
  {
    hide Less, UserKey, InSpace, TablesFlat, SeparableSpace;
    SpanEndsInSpace(ts, minKey, maxKey, keys);
    forall e | e in TablesFlat(ts)
      ensures LessEq(UserKey(minKey), UserKeyOf(e)) && LessEq(UserKeyOf(e), UserKey(maxKey))
    {
      var i := FlatInTable(ts, e);
      EndsInSpace(ts[i], keys);
      InSpaceIff(ts[i].entries, keys);
      BetweenEnds(ts[i], e);
      LessEqTransitive(minKey, FirstKey(ts[i]), e.key);
      LessEqTransitive(e.key, LastKey(ts[i]), maxKey);
      UserKeyMonotone(minKey, e.key, keys);
      UserKeyMonotone(e.key, maxKey, keys);
    }
  }

  lemma {:induction false} SpanEndsInSpace(ts: seq<Table>, minKey: Bytes, maxKey: Bytes, keys: iset<Bytes>)
    requires TablesInSpace(ts, keys) && Spans(ts, minKey, maxKey)
    ensures KeyInSpace(minKey, keys) && KeyInSpace(maxKey, keys)
  {
    hide Less, UserKey, InSpace;
    var t :| t in ts && FirstKey(t) == minKey;
    EndsInSpace(t, keys);
    var u :| u in ts && LastKey(u) == maxKey;
    EndsInSpace(u, keys);
  }

  lemma {:induction false} BetweenEnds(t: Table, e: Entry)
    requires Sorted(t.entries) && e in t.entries
    ensures LessEq(FirstKey(t), e.key) && LessEq(e.key, LastKey(t))
  {
    hide Less;
    var j :| 0 <= j < |t.entries| && t.entries[j] == e;
    LessIrreflexive(e.key);
    if 0 < j { LessAsymmetric(t.entries[0].key, e.key); }
    if j < |t.entries| - 1 { LessAsymmetric(e.key, t.entries[|t.entries| - 1].key); }
  }

  lemma {:induction false} SideEntries(ts: seq<Table>, minKey: Bytes, maxKey: Bytes, keys: iset<Bytes>)
    requires SeparableSpace(keys) && TablesInSpace(ts, keys)
    requires forall i :: 0 <= i < |ts| ==> Sorted(ts[i].entries)
    ensures (forall t :: t in ts ==> LeftOf(t, minKey)) ==> AllLeft(TablesFlat(ts), UserKey(minKey))
    ensures (forall t :: t in ts ==> RightOf(t, maxKey)) ==> AllRight(TablesFlat(ts), UserKey(maxKey))
  {
    hide Less, UserKey, InSpace, TablesFlat, SeparableSpace, FirstKey, LastKey, Sorted;
    forall e | e in TablesFlat(ts)
      ensures (forall t :: t in ts ==> LeftOf(t, minKey)) ==> Less(UserKeyOf(e), UserKey(minKey))
      ensures (forall t :: t in ts ==> RightOf(t, maxKey)) ==> Less(UserKey(maxKey), UserKeyOf(e))
    {
      var i := FlatInTable(ts, e);
      var t := ts[i];
      EndsInSpace(t, keys);
      InSpaceIff(t.entries, keys);
      BetweenEnds(t, e);
      UserKeyMonotone(FirstKey(t), e.key, keys);
      UserKeyMonotone(e.key, LastKey(t), keys);
      if LeftOf(t, minKey) { LessEqLess(UserKeyOf(e), UserKey(LastKey(t)), UserKey(minKey)); }
      if RightOf(t, maxKey) { LessLessEq(UserKey(maxKey), UserKey(FirstKey(t)), UserKeyOf(e)); }
    }
  }

  // ----- the new output level -----

  ghost predicate DisjointIds(a: seq<Table>, b: seq<Table>) {
    forall x, y :: x in a && y in b ==> x.id != y.id
  }

  lemma {:induction false} DropOverlap(left: seq<Table>, overlap: seq<Table>, right: seq<Table>, moved: seq<Table>)
    requires DisjointIds(left, overlap) && DisjointIds(overlap, right)
    requires DisjointIds(moved, left) && DisjointIds(moved, right)
    ensures DropIds(left + (overlap + right), IdsOf(moved + overlap)) == left + right
  {
    hide DropIds;
    var obsolete := IdsOf(moved + overlap);
    DropIdsConcat(left, overlap + right, obsolete);
    DropIdsConcat(overlap, right, obsolete);
    DropIdsNone(left, obsolete);
    DropIdsNone(right, obsolete);
    DropIdsAll(overlap, obsolete);
  }

  lemma {:induction false} FlatThree(a: seq<Table>, b: seq<Table>, c: seq<Table>)
    ensures TablesFlat(a + (b + c)) == TablesFlat(a) + (TablesFlat(b) + TablesFlat(c))
  {
    TablesFlatConcat(a, b + c);
    TablesFlatConcat(b, c);
  }

  lemma {:induction false} FlatInSpace(ts: seq<Table>, keys: iset<Bytes>)
    requires TablesInSpace(ts, keys)
    ensures AllInSpace(TablesFlat(ts), keys)
  {
    hide TablesFlat, InSpace, KeyInSpace;
    forall e | e in TablesFlat(ts) ensures KeyInSpace(e.key, keys) {
      var i := FlatInTable(ts, e);
      InSpaceIff(ts[i].entries, keys);
    }
  }

  lemma {:induction false} TablesInSpaceSubset(ts: seq<Table>, us: seq<Table>, keys: iset<Bytes>)
    requires TablesInSpace(ts, keys) && forall u :: u in us ==> u in ts
    ensures TablesInSpace(us, keys)
  {
    hide InSpace;
    forall i | 0 <= i < |us| ensures us[i].entries != [] && InSpace(us[i].entries, keys) {
      assert us[i] in us;
    }
  }

  lemma {:induction false} SameElements(a: seq<Entry>, b: seq<Entry>)
    requires multiset(a) == multiset(b)
    ensures forall e :: e in a <==> e in b
  {
    forall e ensures e in a <==> e in b {
      assert e in multiset(a) <==> e in multiset(b);
    }
  }

  /** The output level becomes: what was left of the range, the new tables, what was right. */
  lemma {:induction false} MergedLevel(level: seq<Table>, moved: seq<Table>, newTables: seq<Table>, minKey: Bytes,
                                       maxKey: Bytes, keys: iset<Bytes>) returns (left: seq<Table>, right: seq<Table>)
    requires SeparableSpace(keys) && Spans(moved, minKey, maxKey)
    requires TablesInSpace(level, keys) && TablesInSpace(moved, keys) && TablesInSpace(newTables, keys)
    requires forall t :: t in level || t in moved ==> Sorted(t.entries)
    requires Sorted(TablesFlat(level)) && Sorted(TablesFlat(newTables))
    requires multiset(TablesFlat(newTables)) == multiset(TablesFlat(moved + Overlapping(level, minKey, maxKey)))
    ensures level == left + (Overlapping(level, minKey, maxKey) + right)
    ensures Sorted(TablesFlat(left + (newTables + right)))
  {
    hide Less, UserKey, InSpace, TablesFlat, SeparableSpace, FirstKey, LastKey, Sorted, LeftOf, RightOf, Overlapping,
      AllLeft, AllRight, Within, AllInSpace, KeyInSpace;
    left, right := LevelSplit(level, keys, minKey, maxKey);
    var overlap := Overlapping(level, minKey, maxKey);
    assert (forall t :: t in left ==> t in level) && (forall t :: t in right ==> t in level);
    TablesInSpaceSubset(level, left, keys);
    TablesInSpaceSubset(level, right, keys);
    MovedWithin(moved, minKey, maxKey, keys);
    SideEntries(left, minKey, maxKey, keys);
    SideEntries(right, minKey, maxKey, keys);
    FlatInSpace(left, keys);
    FlatInSpace(right, keys);
    FlatInSpace(newTables, keys);
    FlatThree(left, overlap, right);
    FlatThree(left, newTables, right);
    TablesFlatConcat(moved, overlap);
    SameElements(TablesFlat(newTables), TablesFlat(moved + overlap));
    MergedLevelSorted(TablesFlat(left), TablesFlat(overlap), TablesFlat(right), TablesFlat(moved),
                      TablesFlat(newTables), UserKey(minKey), UserKey(maxKey), keys);
  }

  /** Dropping the obsolete tables and sorting the new ones in gives exactly that level. */
  lemma {:induction false} NewLevelIs(left: seq<Table>, overlap: seq<Table>, right: seq<Table>, moved: seq<Table>,
                                      newTables: seq<Table>)
    requires DisjointIds(left, overlap) && DisjointIds(overlap, right)
    requires DisjointIds(moved, left) && DisjointIds(moved, right)
    requires Sorted(TablesFlat(left + (newTables + right)))
    requires forall t :: t in left + (newTables + right) ==> t.entries != []
    ensures SortTables(DropIds(left + (overlap + right), IdsOf(moved + overlap)) + newTables) ==
      left + (newTables + right)
  {
    hide TablesFlat, Sorted, DropIds, SortTables, IdsOf, StrictlyByFirstKey;
    DropOverlap(left, overlap, right, moved);
    SortedLevelByFirstKey(left + (newTables + right));
    SortTablesIs((left + right) + newTables, left + (newTables + right));
  }
}
