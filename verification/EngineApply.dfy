/**
Applying a compaction result (db/compact.go:148-241): what it does to the search order,
to the stored versions and to the age order.
*/
module EngineApply {
  import opened Bytes
  import opened Keys
  import opened Versions
  import opened Bloom
  import opened Tables
  import opened Iterators
  import opened AgeOrder
  import opened Compaction
  import opened LevelMerge
  import opened Engine

  /** The search order around a compaction. */
  datatype Split = Split(above: seq<Table>, moved: seq<Table>, passed: seq<Table>,
                         left: seq<Table>, overlap: seq<Table>, right: seq<Table>, below: seq<Table>)

  function Before(c: Split): seq<Table> {
    c.above + (c.moved + (c.passed + ((c.left + (c.overlap + c.right)) + c.below)))
  }

  function After(c: Split, newTables: seq<Table>): seq<Table> {
    c.above + (c.passed + ((c.left + (newTables + c.right)) + c.below))
  }

  /** The tables of the input level that stay there: none for L0, the rest of the level below. */
  function LeftBehind(s: State): seq<Table>
    requires s.inFlight.Some?
  {
    var n := s.inFlight.value.task.inputLevel;
    if 0 < n < |s.levels| && s.levels[n] != [] then s.levels[n][1..] else []
  }

  // ----- identifiers -----

  lemma {:induction false} OneEachSplit(a: seq<nat>, b: seq<nat>)
    requires OneEach(a + b)
    ensures OneEach(a) && OneEach(b) && forall x, y :: x in a && y in b ==> x != y
  {
    var c := a + b;
    assert forall i :: 0 <= i < |a| ==> c[i] == a[i];
    assert forall i :: 0 <= i < |b| ==> c[|a| + i] == b[i];
    forall x, y | x in a && y in b ensures x != y {
      var i :| 0 <= i < |a| && a[i] == x;
      var j :| 0 <= j < |b| && b[j] == y;
      assert c[i] == x && c[|a| + j] == y;
    }
  }

  lemma {:induction false} OneEachJoin(a: seq<nat>, b: seq<nat>)
    requires OneEach(a) && OneEach(b) && forall x, y :: x in a && y in b ==> x != y
    ensures OneEach(a + b)
  {
    var c := a + b;
    forall i, j | 0 <= i < j < |c| ensures c[i] != c[j] {
      if i < |a| <= j { assert c[i] in a && c[j] in b; }
    }
  }

  lemma {:induction false} IdMember(ts: seq<Table>, t: Table)
    requires t in ts
    ensures t.id in TableIds(ts)
  {
    var i :| 0 <= i < |ts| && ts[i] == t;
    assert TableIds(ts)[i] == t.id;
  }

  lemma {:induction false} IdsSplit(a: seq<Table>, b: seq<Table>)
    requires OneEach(TableIds(a + b))
    ensures OneEach(TableIds(a)) && OneEach(TableIds(b)) && DisjointIds(a, b)
  {
    TableIdsConcat(a, b);
    OneEachSplit(TableIds(a), TableIds(b));
    forall x, y | x in a && y in b ensures x.id != y.id {
      IdMember(a, x);
      IdMember(b, y);
    }
  }

  lemma {:induction false} DisjointParts(a: seq<Table>, b: seq<Table>, c: seq<Table>)
    requires DisjointIds(a, b + c)
    ensures DisjointIds(a, b) && DisjointIds(a, c)
  {
    assert forall x :: x in b ==> x in b + c;
    assert forall x :: x in c ==> x in b + c;
  }

  /** All identifiers in the search order differ, so all its parts are disjoint. */
  lemma {:induction false} SplitDisjoint(c: Split)
    requires OneEach(TableIds(Before(c)))
    ensures DisjointIds(c.above, c.moved) && DisjointIds(c.above, c.overlap)
    ensures DisjointIds(c.moved, c.passed) && DisjointIds(c.moved, c.left) && DisjointIds(c.moved, c.right)
    ensures DisjointIds(c.passed, c.overlap)
    ensures DisjointIds(c.left, c.overlap) && DisjointIds(c.overlap, c.right)
  {
    hide OneEach, DisjointIds;
    var level := c.left + (c.overlap + c.right);
    IdsSplit(c.above, c.moved + (c.passed + (level + c.below)));
    IdsSplit(c.moved, c.passed + (level + c.below));
    IdsSplit(c.passed, level + c.below);
    IdsSplit(level, c.below);
    IdsSplit(c.left, c.overlap + c.right);
    IdsSplit(c.overlap, c.right);
    DisjointParts(c.above, c.moved, c.passed + (level + c.below));
    DisjointParts(c.above, c.passed, level + c.below);
    DisjointParts(c.above, level, c.below);
    DisjointParts(c.above, c.left, c.overlap + c.right);
    DisjointParts(c.above, c.overlap, c.right);
    DisjointParts(c.moved, c.passed, level + c.below);
    DisjointParts(c.moved, level, c.below);
    DisjointParts(c.moved, c.left, c.overlap + c.right);
    DisjointParts(c.moved, c.overlap, c.right);
    DisjointParts(c.passed, level, c.below);
    DisjointParts(c.passed, c.left, c.overlap + c.right);
    DisjointParts(c.passed, c.overlap, c.right);
    DisjointParts(c.left, c.overlap, c.right);
  }

  lemma {:induction false} KeepDisjoint(ts: seq<Table>, moved: seq<Table>, overlap: seq<Table>)
    requires DisjointIds(ts, moved) && DisjointIds(ts, overlap)
    ensures DropIds(ts, IdsOf(moved + overlap)) == ts
  {
    DropIdsNone(ts, IdsOf(moved + overlap));
  }

  lemma {:induction false} DropMoved(keep: seq<Table>, moved: seq<Table>, overlap: seq<Table>)
    requires DisjointIds(keep, moved) && DisjointIds(keep, overlap)
    ensures DropIds(keep + moved, IdsOf(moved + overlap)) == keep
    ensures DropIds(moved + keep, IdsOf(moved + overlap)) == keep
  {
    var obsolete := IdsOf(moved + overlap);
    DropIdsConcat(keep, moved, obsolete);
    DropIdsConcat(moved, keep, obsolete);
    KeepDisjoint(keep, moved, overlap);
    DropIdsAll(moved, obsolete);
  }

  lemma {:induction false} DisjointSymmetric(a: seq<Table>, b: seq<Table>)
    requires DisjointIds(a, b)
    ensures DisjointIds(b, a)
  {
  }

  // ----- entries -----

  lemma {:induction false} BeforeFlat(c: Split)
    ensures TablesFlat(Before(c)) ==
            TablesFlat(c.above) + (TablesFlat(c.moved) + (TablesFlat(c.passed)
            + (TablesFlat(c.left + (c.overlap + c.right)) + TablesFlat(c.below))))
  {
    hide TablesFlat;
    var level := c.left + (c.overlap + c.right);
    TablesFlatConcat(c.above, c.moved + (c.passed + (level + c.below)));
    TablesFlatConcat(c.moved, c.passed + (level + c.below));
    TablesFlatConcat(c.passed, level + c.below);
    TablesFlatConcat(level, c.below);
  }

  lemma {:induction false} AfterFlat(c: Split, newTables: seq<Table>)
    ensures TablesFlat(After(c, newTables)) ==
            TablesFlat(c.above) + (TablesFlat(c.passed)
            + (TablesFlat(c.left + (newTables + c.right)) + TablesFlat(c.below)))
  {
    hide TablesFlat;
    var level := c.left + (newTables + c.right);
    TablesFlatConcat(c.above, c.passed + (level + c.below));
    TablesFlatConcat(c.passed, level + c.below);
    TablesFlatConcat(level, c.below);
  }

  /** Nothing is lost, nothing is duplicated. */
  lemma {:induction false} SplitKeepsEntries(c: Split, newTables: seq<Table>)
    requires multiset(TablesFlat(newTables)) == multiset(TablesFlat(c.moved + c.overlap))
    ensures multiset(TablesFlat(After(c, newTables))) == multiset(TablesFlat(Before(c)))
  {
    hide TablesFlat;
    BeforeFlat(c);
    AfterFlat(c, newTables);
    FlatThree(c.left, c.overlap, c.right);
    FlatThree(c.left, newTables, c.right);
    TablesFlatConcat(c.moved, c.overlap);
  }

  lemma {:induction false} LevelUnion(c: Split, newTables: seq<Table>)
    requires multiset(TablesFlat(newTables)) == multiset(TablesFlat(c.moved + c.overlap))
    ensures UnionOf(TablesFlat(c.left + (newTables + c.right)), TablesFlat(c.moved),
                    TablesFlat(c.left + (c.overlap + c.right)))
  {
    hide TablesFlat;
    FlatThree(c.left, c.overlap, c.right);
    FlatThree(c.left, newTables, c.right);
    TablesFlatConcat(c.moved, c.overlap);
    SameElements(TablesFlat(newTables), TablesFlat(c.moved + c.overlap));
  }

  /** Age order survives a compaction exactly when no user key is torn between what moved
      down and what stayed behind. `mems` are the memtable entries in front. */
  lemma {:induction false} SplitAgeOrder(mems: seq<Entry>, c: Split, newTables: seq<Table>, keys: iset<Bytes>)
    requires SeparableSpace(keys)
    requires multiset(TablesFlat(newTables)) == multiset(TablesFlat(c.moved + c.overlap))
    requires Sorted(TablesFlat(c.left + (newTables + c.right)))
    requires AllInSpace(TablesFlat(After(c, newTables)), keys)
    requires VersionsDescend(mems + TablesFlat(Before(c)))
    ensures VersionsDescend(mems + TablesFlat(After(c, newTables)))
            <==> NoSharedKey(TablesFlat(c.moved), TablesFlat(c.passed))
  {
    hide TablesFlat, Sorted, VersionsDescend, KeyInSpace, NoSharedKey, SeparableSpace;
    BeforeFlat(c);
    AfterFlat(c, newTables);
    LevelUnion(c, newTables);
    var above, moved, passed := TablesFlat(c.above), TablesFlat(c.moved), TablesFlat(c.passed);
    var old_, new_ := TablesFlat(c.left + (c.overlap + c.right)), TablesFlat(c.left + (newTables + c.right));
    var below := TablesFlat(c.below);
    assert forall e :: e in new_ ==> e in TablesFlat(After(c, newTables));
    InSpaceIff(new_, keys);
    assert mems + TablesFlat(Before(c)) == (mems + above) + (moved + (passed + (old_ + below)));
    assert mems + TablesFlat(After(c, newTables)) == (mems + above) + (passed + (new_ + below));
    MoveDown(mems + above, moved, passed, old_, new_, below, keys);
  }

  // ----- the split of a state -----

  lemma {:induction false} SearchedInSpace(s: State, keys: iset<Bytes>, hash: Bytes -> Word32)
    requires AllInSpace(Flat(s), keys) && TablesValid(Searched(s), hash)
    ensures TablesInSpace(Searched(s), keys)
  {
    hide KeyInSpace, TablesFlat, InSpace, Sorted, MayContain, MemsFlat, Concat;
    var ts := Searched(s);
    forall i | 0 <= i < |ts| ensures ts[i].entries != [] && InSpace(ts[i].entries, keys) {
      TableInFlat(ts, i);
      assert forall e :: e in TablesFlat(ts) ==> e in Flat(s);
      InSpaceIff(ts[i].entries, keys);
    }
  }

  lemma {:induction false} NewTablesInSpace(newTables: seq<Table>, old_: seq<Table>, keys: iset<Bytes>,
                                            hash: Bytes -> Word32)
    requires TablesValid(newTables, hash) && TablesInSpace(old_, keys)
    requires multiset(TablesFlat(newTables)) == multiset(TablesFlat(old_))
    ensures TablesInSpace(newTables, keys)
  {
    hide KeyInSpace, TablesFlat, InSpace, Sorted, MayContain;
    SameElements(TablesFlat(newTables), TablesFlat(old_));
    FlatInSpace(old_, keys);
    forall i | 0 <= i < |newTables| ensures newTables[i].entries != [] && InSpace(newTables[i].entries, keys) {
      TableInFlat(newTables, i);
      InSpaceIff(newTables[i].entries, keys);
    }
  }

  ghost predicate GoodTables(ts: seq<Table>, keys: iset<Bytes>) {
    TablesInSpace(ts, keys) && forall t :: t in ts ==> Sorted(t.entries)
  }

  lemma {:induction false} SearchedGood(s: State, keys: iset<Bytes>, hash: Bytes -> Word32)
    requires Wf(s, keys, hash)
    ensures GoodTables(Searched(s), keys)
  {
    hide Flat, Searched, InSpace, Sorted, MayContain, UniqueKeys, SeqNum, UserKey, AllInSpace, MemsOk, IdsOk,
      InFlightOk, SeparableSpace, TablesInSpace;
    SearchedInSpace(s, keys, hash);
  }

  lemma {:induction false} GoodSubset(ts: seq<Table>, us: seq<Table>, keys: iset<Bytes>)
    requires GoodTables(ts, keys) && forall u :: u in us ==> u in ts
    ensures GoodTables(us, keys)
  {
    hide Sorted, TablesInSpace;
    TablesInSpaceSubset(ts, us, keys);
  }

  /** The pieces of the output level, for a task whose range spans what moves. */
  lemma {:induction false} SplitOutput(level: seq<Table>, r: Result, all: seq<Table>, keys: iset<Bytes>,
                                       hash: Bytes -> Word32)
    returns (left: seq<Table>, right: seq<Table>)
    requires SeparableSpace(keys) && GoodTables(all, keys) && Sorted(TablesFlat(level))
    requires (forall t :: t in level ==> t in all) && (forall t :: t in r.task.inputs ==> t in all)
    requires Spans(r.task.inputs, r.task.minKey, r.task.maxKey)
    requires r.task.overlapping == Overlapping(level, r.task.minKey, r.task.maxKey)
    requires TablesValid(r.newTables, hash) && Sorted(TablesFlat(r.newTables))
    requires multiset(TablesFlat(r.newTables)) == multiset(TablesFlat(r.task.inputs + r.task.overlapping))
    ensures level == left + (r.task.overlapping + right)
    ensures Sorted(TablesFlat(left + (r.newTables + right)))
  {
    hide TablesFlat, Sorted, Overlapping, SeparableSpace, Spans, TablesInSpace, MayContain;
    OverlappingMembers(level, r.task.minKey, r.task.maxKey);
    GoodSubset(all, level, keys);
    GoodSubset(all, r.task.inputs, keys);
    GoodSubset(all, r.task.inputs + r.task.overlapping, keys);
    NewTablesInSpace(r.newTables, r.task.inputs + r.task.overlapping, keys, hash);
    left, right := MergedLevel(level, r.task.inputs, r.newTables, r.task.minKey, r.task.maxKey, keys);
  }

  lemma {:induction false} OverlappingMembers(level: seq<Table>, minKey: Bytes, maxKey: Bytes)
    ensures forall t :: t in Overlapping(level, minKey, maxKey) ==> t in level
  {
    hide Overlaps;
    if level != [] { OverlappingMembers(level[1..], minKey, maxKey); }
  }

  lemma {:induction false} TableSpans(t: Table)
    ensures Spans([t], FirstKey(t), LastKey(t))
  {
    hide Less, FirstKey, LastKey;
    LessIrreflexive(FirstKey(t));
    LessIrreflexive(LastKey(t));
    assert t in [t];
  }

  lemma {:induction false} SearchedL0(s: State, k: nat)
    requires |s.levels| > 1 && k <= |s.l0|
    ensures Searched(s) == s.l0[..k] + (s.l0[k..] + ([] + (s.levels[1] + Concat(s.levels[2..]))))
    ensures s.l0 == s.l0[..k] + s.l0[k..]
    ensures forall t :: t in s.levels[1] || t in s.l0[k..] ==> t in Searched(s)
  {
    assert Deeper(s.levels)[0] == s.levels[1] && Deeper(s.levels)[1..] == s.levels[2..];
    assert s.l0 == s.l0[..k] + s.l0[k..];
  }

  lemma {:induction false} SearchedAtLevel(s: State, n: nat)
    requires 1 <= n && n + 1 < |s.levels|
    ensures Searched(s) ==
            (s.l0 + Concat(s.levels[1..n])) + (s.levels[n] + (s.levels[n + 1] + Concat(s.levels[n + 2..])))
  {
    hide Concat;
    var deeper := Deeper(s.levels);
    ConcatAt(deeper, n - 1);
    assert deeper[..n - 1] == s.levels[1..n] && deeper[n - 1] == s.levels[n] && deeper[n..] == s.levels[n + 1..];
    ConcatAt(s.levels[n + 1..], 0);
    assert s.levels[n + 1..][..0] == [] && s.levels[n + 1..][0] == s.levels[n + 1];
    assert s.levels[n + 1..][1..] == s.levels[n + 2..];
    ConcatNothing();
  }

  lemma {:induction false} ConcatNothing()
    ensures Concat([]) == []
  {
  }

  lemma {:induction false} SplitL0(s: State, keys: iset<Bytes>, hash: Bytes -> Word32) returns (c: Split)
    requires Wf(s, keys, hash) && s.inFlight.Some? && s.inFlight.value.task.inputLevel == 0
    ensures Searched(s) == Before(c)
    ensures c.moved == s.inFlight.value.task.inputs && c.overlap == s.inFlight.value.task.overlapping && c.passed == []
    ensures c.left + (c.overlap + c.right) == s.levels[1] && c.below == Concat(s.levels[2..])
    ensures s.l0 == c.above + c.moved
    ensures Sorted(TablesFlat(c.left + (s.inFlight.value.newTables + c.right)))
  {
    hide Flat, InSpace, Sorted, MayContain, UniqueKeys, SeqNum, UserKey, AllInSpace, MemsOk, IdsOk, Spans, Overlapping,
      SeparableSpace, TablesFlat, Concat, GoodTables, Searched, TableValid;
    var r := s.inFlight.value;
    var k := |s.l0| - |r.task.inputs|;
    SearchedGood(s, keys, hash);
    SearchedL0(s, k);
    assert s.l0[k..] == r.task.inputs;
    var left, right := SplitOutput(s.levels[1], r, Searched(s), keys, hash);
    c := Split(s.l0[..k], r.task.inputs, [], left, r.task.overlapping, right, Concat(s.levels[2..]));
  }

  lemma {:induction false} SplitLevel(s: State, keys: iset<Bytes>, hash: Bytes -> Word32) returns (c: Split)
    requires Wf(s, keys, hash) && s.inFlight.Some? && s.inFlight.value.task.inputLevel > 0
    ensures var n := s.inFlight.value.task.inputLevel;
      && Searched(s) == Before(c)
      && c.moved == s.inFlight.value.task.inputs && c.overlap == s.inFlight.value.task.overlapping
      && n + 1 < |s.levels| && s.levels[n] == c.moved + c.passed && c.passed == LeftBehind(s)
      && c.left + (c.overlap + c.right) == s.levels[n + 1] && c.below == Concat(s.levels[n + 2..])
      && c.above == s.l0 + Concat(s.levels[1..n])
      && Sorted(TablesFlat(c.left + (s.inFlight.value.newTables + c.right)))
  {
    hide Flat, InSpace, Sorted, MayContain, UniqueKeys, SeqNum, UserKey, AllInSpace, MemsOk, IdsOk, Spans, Overlapping,
      SeparableSpace, TablesFlat, Concat, GoodTables, Searched;
    var r := s.inFlight.value;
    var n := r.task.inputLevel;
    SearchedGood(s, keys, hash);
    SearchedAtLevel(s, n);
    var t := s.levels[n][0];
    TableSpans(t);
    assert s.levels[n] == [t] + s.levels[n][1..];
    assert forall x :: x in s.levels[n + 1] ==> x in Searched(s);
    assert forall x :: x in r.task.inputs ==> x in s.levels[n];
    assert forall x :: x in s.levels[n] ==> x in Searched(s);
    var left, right := SplitOutput(s.levels[n + 1], r, Searched(s), keys, hash);
    c := Split(s.l0 + Concat(s.levels[1..n]), [t], s.levels[n][1..], left, r.task.overlapping, right,
               Concat(s.levels[n + 2..]));
  }

  // ----- the state after -----

  lemma {:induction false} IdsOfSearched(s: State)
    requires IdsOk(s)
    ensures OneEach(TableIds(Searched(s)))
  {
    hide OneEach, Searched;
    var mems, tables, new_ := MemIds(s.immutables), TableIds(Searched(s)), TableIds(NewTables(s));
    OneEachSplit([s.active.id], mems + (tables + new_));
    OneEachSplit(mems, tables + new_);
    OneEachSplit(tables, new_);
  }

  lemma {:induction false} NonEmptyParts(s: State, c: Split, newTables: seq<Table>, hash: Bytes -> Word32)
    requires TablesValid(Searched(s), hash) && Searched(s) == Before(c) && TablesValid(newTables, hash)
    ensures TablesValid(After(c, newTables), hash)
    ensures forall t :: t in c.left + (newTables + c.right) ==> t.entries != []
  {
    hide TableValid, Searched;
    forall t | t in After(c, newTables) ensures TableValid(t, hash) {
      assert t in newTables || t in Before(c);
    }
    forall t | t in c.left + (newTables + c.right) ensures TableValid(t, hash) {
      assert t in After(c, newTables);
    }
    ValidNonEmpty(c.left + (newTables + c.right), hash);
  }

  lemma {:induction false} ValidNonEmpty(ts: seq<Table>, hash: Bytes -> Word32)
    requires forall t :: t in ts ==> TableValid(t, hash)
    ensures forall t :: t in ts ==> t.entries != []
  {
  }

  /** After L0 to L1: L0 keeps what was flushed meanwhile, L1 has the merged run in place. */
  lemma {:induction false} AppliedL0(s: State, c: Split, keys: iset<Bytes>, hash: Bytes -> Word32)
    requires Wf(s, keys, hash) && s.inFlight.Some? && s.inFlight.value.task.inputLevel == 0
    requires Searched(s) == Before(c)
    requires c.moved == s.inFlight.value.task.inputs && c.overlap == s.inFlight.value.task.overlapping && c.passed == []
    requires c.left + (c.overlap + c.right) == s.levels[1] && c.below == Concat(s.levels[2..])
    requires s.l0 == c.above + c.moved
    requires Sorted(TablesFlat(c.left + (s.inFlight.value.newTables + c.right)))
    ensures Applied(s).l0 == c.above
    ensures Applied(s).levels == s.levels[1 := c.left + (s.inFlight.value.newTables + c.right)]
    ensures Searched(Applied(s)) == After(c, s.inFlight.value.newTables)
  {
    hide Flat, Sorted, MayContain, UniqueKeys, SeqNum, UserKey, AllInSpace, MemsOk, Spans, Overlapping, Searched,
      SeparableSpace, TablesFlat, Concat, DropIds, SortTables, IdsOf, DisjointIds, OneEach, TableValid;
    var r := s.inFlight.value;
    IdsOfSearched(s);
    SplitDisjoint(c);
    DropMoved(c.above, c.moved, c.overlap);
    NonEmptyParts(s, c, r.newTables, hash);
    NewLevelIs(c.left, c.overlap, c.right, c.moved, r.newTables);
    var s' := Applied(s);
    SearchedL0(s', |s'.l0|);
    assert s'.levels[2..] == s.levels[2..];
    assert s'.l0[..|s'.l0|] == s'.l0 && s'.l0[|s'.l0|..] == [];
  }

  /** After Ln to Ln+1: the input level loses its first table, the next one has the merged run. */
  lemma {:induction false} AppliedLevel(s: State, c: Split, keys: iset<Bytes>, hash: Bytes -> Word32)
    requires Wf(s, keys, hash) && s.inFlight.Some? && s.inFlight.value.task.inputLevel > 0
    requires var n := s.inFlight.value.task.inputLevel;
      && Searched(s) == Before(c)
      && c.moved == s.inFlight.value.task.inputs && c.overlap == s.inFlight.value.task.overlapping
      && n + 1 < |s.levels| && s.levels[n] == c.moved + c.passed
      && c.left + (c.overlap + c.right) == s.levels[n + 1] && c.below == Concat(s.levels[n + 2..])
      && c.above == s.l0 + Concat(s.levels[1..n])
      && Sorted(TablesFlat(c.left + (s.inFlight.value.newTables + c.right)))
    ensures var n := s.inFlight.value.task.inputLevel;
      && Applied(s).l0 == s.l0
      && Applied(s).levels == s.levels[n := c.passed][n + 1 := c.left + (s.inFlight.value.newTables + c.right)]
      && Searched(Applied(s)) == After(c, s.inFlight.value.newTables)
  {
    hide Flat, Sorted, MayContain, UniqueKeys, SeqNum, UserKey, AllInSpace, MemsOk, Spans, Overlapping, Searched,
      SeparableSpace, TablesFlat, Concat, DropIds, SortTables, IdsOf, DisjointIds, OneEach, TableValid;
    var r := s.inFlight.value;
    var n := r.task.inputLevel;
    IdsOfSearched(s);
    SplitDisjoint(c);
    DisjointSymmetric(c.moved, c.passed);
    DropMoved(c.passed, c.moved, c.overlap);
    NonEmptyParts(s, c, r.newTables, hash);
    NewLevelIs(c.left, c.overlap, c.right, c.moved, r.newTables);
    var s' := Applied(s);
    SearchedAtLevel(s', n);
    assert s'.levels[n + 2..] == s.levels[n + 2..];
    assert s'.levels[1..n] == s.levels[1..n];
  }

  /** What applying a compaction does, whatever the level. */
  lemma {:induction false} ApplySplit(s: State, keys: iset<Bytes>, hash: Bytes -> Word32) returns (c: Split)
    requires Wf(s, keys, hash) && s.inFlight.Some?
    ensures Searched(s) == Before(c)
    ensures Searched(Applied(s)) == After(c, s.inFlight.value.newTables)
    ensures c.moved == s.inFlight.value.task.inputs && c.overlap == s.inFlight.value.task.overlapping
    ensures c.passed == LeftBehind(s)
    ensures Sorted(TablesFlat(c.left + (s.inFlight.value.newTables + c.right)))
    ensures |Applied(s).levels| == |s.levels| && Applied(s).levels[0] == s.levels[0]
    ensures forall n :: 1 <= n < |s.levels| ==> Sorted(TablesFlat(Applied(s).levels[n]))
  {
    hide Flat, Sorted, MayContain, UniqueKeys, SeqNum, UserKey, AllInSpace, MemsOk, Spans, Overlapping, Searched,
      SeparableSpace, TablesFlat, Concat, DropIds, SortTables, IdsOf, IdsOk, TableValid, Applied, Before, After;
    if s.inFlight.value.task.inputLevel == 0 {
      c := SplitL0(s, keys, hash);
      AppliedL0(s, c, keys, hash);
    } else {
      c := SplitLevel(s, keys, hash);
      AppliedLevel(s, c, keys, hash);
      var n := s.inFlight.value.task.inputLevel;
      TablesFlatConcat(c.moved, c.passed);
      SortedSplit(TablesFlat(c.moved), TablesFlat(c.passed));
    }
  }
}
