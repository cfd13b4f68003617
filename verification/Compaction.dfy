/**
Compaction: choosing tables (compaction/picker.go) and merging them into new ones
(compaction/executor.go).
*/
module Compaction {
  import opened Optional
  import opened Bytes
  import opened Keys
  import opened Versions
  import opened Bloom
  import opened Tables
  import opened Iterators

  datatype Config = Config(l0Trigger: int, levelSizeBase: int, levelSizeMultiplier: int, maxLevels: int)

  datatype LevelState = LevelState(l0: seq<Table>, levels: seq<seq<Table>>)

  datatype Task = Task(inputLevel: nat, outputLevel: nat, inputs: seq<Table>, overlapping: seq<Table>,
                       minKey: Bytes, maxKey: Bytes)

  // ----- choosing tables -----

  /** User-key ranges intersect. */
  predicate Overlaps(t: Table, minKey: Bytes, maxKey: Bytes) {
    && LessEq(UserKey(FirstKey(t)), UserKey(maxKey))
    && LessEq(UserKey(minKey), UserKey(LastKey(t)))
  }

  function Overlapping(level: seq<Table>, minKey: Bytes, maxKey: Bytes): seq<Table> {
    if level == [] then []
    else (if Overlaps(level[0], minKey, maxKey) then [level[0]] else []) + Overlapping(level[1..], minKey, maxKey)
  }

  lemma {:induction false} OverlappingConcat(a: seq<Table>, b: seq<Table>, minKey: Bytes, maxKey: Bytes)
    ensures Overlapping(a + b, minKey, maxKey) == Overlapping(a, minKey, maxKey) + Overlapping(b, minKey, maxKey)
  {
    hide Overlaps, Overlapping;
    if a == [] {
      assert a + b == b;
      OverlappingFirst(a, minKey, maxKey);
    } else {
      assert (a + b)[0] == a[0] && (a + b)[1..] == a[1..] + b;
      OverlappingConcat(a[1..], b, minKey, maxKey);
      OverlappingFirst(a, minKey, maxKey);
      OverlappingFirst(a + b, minKey, maxKey);
    }
  }

  lemma {:induction false} OverlappingFirst(ts: seq<Table>, minKey: Bytes, maxKey: Bytes)
    ensures Overlapping(ts, minKey, maxKey) ==
      if ts == [] then []
      else (if Overlaps(ts[0], minKey, maxKey) then [ts[0]] else []) + Overlapping(ts[1..], minKey, maxKey)
  {
    hide Overlaps;
  }

  /** A user key lies between the user keys of two internal keys. */
  predicate Between(u: Bytes, lo: Bytes, hi: Bytes) {
    LessEq(UserKey(lo), u) && LessEq(u, UserKey(hi))
  }

  /** Two ranges intersect exactly if some user key lies in both. */
  lemma {:induction false} OverlapsIff(t: Table, minKey: Bytes, maxKey: Bytes)
    requires LessEq(UserKey(minKey), UserKey(maxKey)) && LessEq(UserKey(FirstKey(t)), UserKey(LastKey(t)))
    ensures Overlaps(t, minKey, maxKey) <==> Meets(t, minKey, maxKey)
  {
    hide Less, UserKey, FirstKey, LastKey;
    var a, b := UserKey(minKey), UserKey(FirstKey(t));
    LessIrreflexive(a);
    LessIrreflexive(b);
    if Overlaps(t, minKey, maxKey) {
      var u := if Less(a, b) then b else a;
      if Less(a, b) { LessAsymmetric(a, b); }
      assert Between(u, minKey, maxKey) && Between(u, FirstKey(t), LastKey(t));
    }
    if u :| Between(u, minKey, maxKey) && Between(u, FirstKey(t), LastKey(t)) {
      LessEqTransitive(b, u, UserKey(maxKey));
      LessEqTransitive(a, u, UserKey(LastKey(t)));
    }
  }

  lemma {:induction false} OverlappingIs(level: seq<Table>, minKey: Bytes, maxKey: Bytes, t: Table)
    ensures t in Overlapping(level, minKey, maxKey) <==> t in level && Overlaps(t, minKey, maxKey)
  {
    hide Overlaps;
    if level != [] { OverlappingIs(level[1..], minKey, maxKey, t); }
  }

  /** Some user key lies both in the table's range and in the given one. */
  ghost predicate Meets(t: Table, minKey: Bytes, maxKey: Bytes) {
    exists u :: Between(u, minKey, maxKey) && Between(u, FirstKey(t), LastKey(t))
  }

  lemma {:induction false} OverlappingMeets(level: seq<Table>, minKey: Bytes, maxKey: Bytes)
    requires LessEq(UserKey(minKey), UserKey(maxKey))
    ensures forall t :: t in level && LessEq(UserKey(FirstKey(t)), UserKey(LastKey(t))) ==>
      (t in Overlapping(level, minKey, maxKey) <==> Meets(t, minKey, maxKey))
  {
    hide Overlaps, Overlapping, LessEq, UserKey, FirstKey, LastKey;
    forall t | t in level && LessEq(UserKey(FirstKey(t)), UserKey(LastKey(t)))
      ensures t in Overlapping(level, minKey, maxKey) <==> Meets(t, minKey, maxKey)
    {
      OverlappingIs(level, minKey, maxKey, t);
      OverlapsIff(t, minKey, maxKey);
    }
  }

  method FindOverlapping(level: seq<Table>, minKey: Bytes, maxKey: Bytes) returns (result: seq<Table>)
    ensures result == Overlapping(level, minKey, maxKey)
    ensures LessEq(UserKey(minKey), UserKey(maxKey)) ==>
      forall t :: t in level && LessEq(UserKey(FirstKey(t)), UserKey(LastKey(t))) ==>
        (t in result <==> Meets(t, minKey, maxKey))
  {
    hide Overlaps, Overlapping, LessEq, UserKey, FirstKey, LastKey, Meets;
    if LessEq(UserKey(minKey), UserKey(maxKey)) { OverlappingMeets(level, minKey, maxKey); }
    result := [];
    OverlappingFirst([], minKey, maxKey);
    assert level[..0] == [];
    for i := 0 to |level|
      invariant result == Overlapping(level[..i], minKey, maxKey)
    {
      assert level[..i + 1] == level[..i] + [level[i]] && [level[i]][1..] == [];
      OverlappingConcat(level[..i], [level[i]], minKey, maxKey);
      OverlappingFirst([level[i]], minKey, maxKey);
      if Overlaps(level[i], minKey, maxKey) {
        result := result + [level[i]];
      }
    }
    assert level[..|level|] == level;
  }

  /** [minKey, maxKey] is the union of the tables' key ranges. */
  ghost predicate Spans(ts: seq<Table>, minKey: Bytes, maxKey: Bytes) {
    && (forall t :: t in ts ==> LessEq(minKey, FirstKey(t)) && LessEq(LastKey(t), maxKey))
    && (exists t :: t in ts && FirstKey(t) == minKey)
    && (exists t :: t in ts && LastKey(t) == maxKey)
  }

  /** Two empty keys for no tables. */
  method KeyRange(handles: seq<Table>) returns (minKey: Bytes, maxKey: Bytes)
    ensures if handles == [] then minKey == maxKey == [] else Spans(handles, minKey, maxKey)
  {
    hide Less, FirstKey, LastKey;
    if handles == [] {
      return [], [];
    }
    minKey, maxKey := FirstKey(handles[0]), LastKey(handles[0]);
    LessIrreflexive(minKey);
    LessIrreflexive(maxKey);
    for i := 1 to |handles|
      invariant forall j :: 0 <= j < i ==> LessEq(minKey, FirstKey(handles[j])) && LessEq(LastKey(handles[j]), maxKey)
      invariant exists j :: 0 <= j < i && FirstKey(handles[j]) == minKey
      invariant exists j :: 0 <= j < i && LastKey(handles[j]) == maxKey
    {
      var fk, lk := FirstKey(handles[i]), LastKey(handles[i]);
      if Less(fk, minKey) {
        LessAsymmetric(fk, minKey);
        LessIrreflexive(fk);
        forall j | 0 <= j < i ensures LessEq(fk, FirstKey(handles[j])) {
          LessEqTransitive(fk, minKey, FirstKey(handles[j]));
        }
        minKey := fk;
      }
      if Less(maxKey, lk) {
        LessAsymmetric(maxKey, lk);
        LessIrreflexive(lk);
        forall j | 0 <= j < i ensures LessEq(LastKey(handles[j]), lk) {
          LessEqTransitive(LastKey(handles[j]), maxKey, lk);
        }
        maxKey := lk;
      }
    }
  }

  function SumSizes(ts: seq<Table>): nat {
    if ts == [] then 0 else ts[0].fileSize + SumSizes(ts[1..])
  }

  lemma {:induction false} SumSizesAre(ts: seq<Table>, t: Table)
    ensures SumSizes([]) == 0 && SumSizes([t]) == t.fileSize && SumSizes(ts + [t]) == SumSizes(ts) + t.fileSize
  {
    SumSizesConcat(ts, [t]);
    assert SumSizes([t][1..]) == 0;
  }

  lemma {:induction false} SumSizesConcat(a: seq<Table>, b: seq<Table>)
    ensures SumSizes(a + b) == SumSizes(a) + SumSizes(b)
  {
    if a == [] {
      assert a + b == b;
    } else {
      assert (a + b)[0] == a[0] && (a + b)[1..] == a[1..] + b;
      SumSizesConcat(a[1..], b);
    }
  }

  function LevelBytes(state: LevelState, level: nat): nat {
    if level == 0 || level >= |state.levels| then 0 else SumSizes(state.levels[level])
  }

  method LevelSize(state: LevelState, level: nat) returns (total: nat)
    ensures total == LevelBytes(state, level)
  {
    if level == 0 || level >= |state.levels| {
      return 0;
    }
    var ts := state.levels[level];
    total := 0;
    for i := 0 to |ts|
      invariant total == SumSizes(ts[..i])
    {
      assert ts[..i + 1] == ts[..i] + [ts[i]];
      SumSizesConcat(ts[..i], [ts[i]]);
      total := total + ts[i].fileSize;
    }
    assert ts[..|ts|] == ts;
  }

  /** Each level may grow multiplier times larger than the one above. */
  function LevelTarget(cfg: Config, level: nat): int
    requires level >= 1
  {
    if level == 1 then cfg.levelSizeBase else LevelTarget(cfg, level - 1) * cfg.levelSizeMultiplier
  }

  /** b multiplied n times. */
  function Times(b: int, n: nat): (r: int)
    ensures n == 0 ==> r == 1
    ensures n == 1 ==> r == b
  {
    if n == 0 then 1 else b * Times(b, n - 1)
  }

  lemma {:induction false} TimesAdds(b: int, m: nat, n: nat)
    ensures Times(b, m + n) == Times(b, m) * Times(b, n)
  {
    if m > 0 {
      TimesAdds(b, m - 1, n);
      hide Times;
      Regroup(b, Times(b, m - 1), Times(b, n));
    }
  }

  lemma {:induction false} Regroup(a: int, b: int, c: int)
    ensures a * (b * c) == (a * b) * c
  {
  }

  /** The target of level n is the base, multiplied n - 1 times. */
  lemma {:induction false} TargetIs(cfg: Config, level: nat)
    requires level >= 1
    ensures LevelTarget(cfg, level) == cfg.levelSizeBase * Times(cfg.levelSizeMultiplier, level - 1)
  {
    if level > 1 {
      TargetIs(cfg, level - 1);
      TimesAdds(cfg.levelSizeMultiplier, level - 2, 1);
      hide Times;
      Regroup(cfg.levelSizeBase, Times(cfg.levelSizeMultiplier, level - 2), cfg.levelSizeMultiplier);
    }
  }

  /** What the tables of a level add up to exceeds the base multiplied once per level below L1. */
  ghost predicate Outgrown(cfg: Config, level: seq<Table>, n: nat)
    requires n >= 1
  {
    SumSizes(level) > cfg.levelSizeBase * Times(cfg.levelSizeMultiplier, n - 1)
  }

  lemma {:induction false} OverfullIs(state: LevelState, cfg: Config, n: nat)
    requires 1 <= n < |state.levels|
    ensures Overfull(state, cfg, n) <==> Outgrown(cfg, state.levels[n], n)
  {
    hide SumSizes, LevelTarget, Times;
    TargetIs(cfg, n);
  }

  predicate Overfull(state: LevelState, cfg: Config, level: nat)
    requires level >= 1
  {
    LevelBytes(state, level) > LevelTarget(cfg, level)
  }

  /** A task that takes all of L0 and what it overlaps in L1. */
  ghost predicate L0Task(state: LevelState, task: Task) {
    && task.inputLevel == 0 && task.outputLevel == 1
    && task.inputs == state.l0 && state.l0 != []
    && Spans(task.inputs, task.minKey, task.maxKey)
    && task.overlapping == if |state.levels| > 1 then Overlapping(state.levels[1], task.minKey, task.maxKey) else []
  }

  /** A task that takes the first table of a level and what it overlaps in the next. */
  ghost predicate LevelTask(state: LevelState, task: Task) {
    var n := task.inputLevel;
    && 1 <= n < |state.levels| && task.outputLevel == n + 1
    && state.levels[n] != [] && task.inputs == [state.levels[n][0]]
    && task.minKey == FirstKey(state.levels[n][0]) && task.maxKey == LastKey(state.levels[n][0])
    && task.overlapping ==
       if n + 1 < |state.levels| then Overlapping(state.levels[n + 1], task.minKey, task.maxKey) else []
  }

  method PickL0Compaction(state: LevelState) returns (task: Option<Task>)
    ensures task.None? <==> state.l0 == []
    ensures task.Some? ==> L0Task(state, task.value)
  {
    if state.l0 == [] {
      return None;
    }
    var minKey, maxKey := KeyRange(state.l0);
    var overlapping := [];
    if |state.levels| > 1 {
      overlapping := FindOverlapping(state.levels[1], minKey, maxKey);
    }
    return Some(Task(0, 1, state.l0, overlapping, minKey, maxKey));
  }

  method PickLevelCompaction(state: LevelState, level: nat) returns (task: Option<Task>)
    requires level >= 1
    ensures task.None? <==> level >= |state.levels| || state.levels[level] == []
    ensures task.Some? ==> LevelTask(state, task.value) && task.value.inputLevel == level
  {
    hide Overlapping, FirstKey, LastKey;
    if level >= |state.levels| || state.levels[level] == [] {
      return None;
    }
    var input := state.levels[level][0];
    var overlapping := [];
    if level + 1 < |state.levels| {
      overlapping := FindOverlapping(state.levels[level + 1], FirstKey(input), LastKey(input));
    }
    return Some(Task(level, level + 1, [input], overlapping, FirstKey(input), LastKey(input)));
  }

  /** Level n is the shallowest overfull one among those that may be compacted. */
  predicate FirstOverfull(state: LevelState, cfg: Config, n: nat) {
    && 1 <= n < cfg.maxLevels - 1
    && Overfull(state, cfg, n)
    && forall m :: 1 <= m < n ==> !Overfull(state, cfg, m)
  }

  /** L0 first; otherwise the shallowest level that outgrew its target. */
  ghost predicate Picked(state: LevelState, cfg: Config, task: Option<Task>) {
    if |state.l0| >= cfg.l0Trigger then
      if task.None? then state.l0 == [] else L0Task(state, task.value)
    else if task.None? then
      forall n: nat :: FirstOverfull(state, cfg, n) ==> n >= |state.levels| || state.levels[n] == []
    else
      LevelTask(state, task.value) && FirstOverfull(state, cfg, task.value.inputLevel)
  }

  method PickCompaction(state: LevelState, cfg: Config) returns (task: Option<Task>)
    ensures Picked(state, cfg, task)
    ensures |state.l0| < cfg.l0Trigger && task.Some? ==>
      var n := task.value.inputLevel;
      && 1 <= n < cfg.maxLevels - 1 && n < |state.levels| && Outgrown(cfg, state.levels[n], n)
      && forall m :: 1 <= m < n ==> !Outgrown(cfg, state.levels[m], m)
    ensures |state.l0| < cfg.l0Trigger && |state.levels| == cfg.maxLevels && task.None? ==>
      forall n :: 1 <= n < cfg.maxLevels - 1 && Outgrown(cfg, state.levels[n], n) ==>
        state.levels[n] == [] || exists m :: 1 <= m < n && Outgrown(cfg, state.levels[m], m)
  {
    forall n | 1 <= n < |state.levels| ensures Overfull(state, cfg, n) <==> Outgrown(cfg, state.levels[n], n) {
      OverfullIs(state, cfg, n);
    }
    hide Outgrown, SumSizes;
    if |state.l0| >= cfg.l0Trigger {
      task := PickL0Compaction(state);
      return;
    }
    var levelTarget := cfg.levelSizeBase;
    var level := 1;
    while level < cfg.maxLevels - 1
      invariant level >= 1
      invariant levelTarget == LevelTarget(cfg, level)
      invariant forall m :: 1 <= m < level ==> !Overfull(state, cfg, m)
    {
      var size := LevelSize(state, level);
      if size > levelTarget {
        task := PickLevelCompaction(state, level);
        assert Overfull(state, cfg, level);
        return;
      }
      levelTarget := levelTarget * cfg.levelSizeMultiplier;
      level := level + 1;
    }
    return None;
  }

  // ----- merging -----

  function EntryLists(ts: seq<Table>): seq<seq<Entry>> {
    seq(|ts|, i requires 0 <= i < |ts| => ts[i].entries)
  }

  lemma {:induction false} FlattenEntryLists(ts: seq<Table>)
    ensures Flatten(EntryLists(ts)) == TablesFlat(ts)
  {
    if ts != [] {
      assert EntryLists(ts)[1..] == EntryLists(ts[1..]);
      FlattenEntryLists(ts[1..]);
    }
  }

  /** builder.Finish and OpenReader on the entries added so far. */
  method FinishTable(id: nat, entries: seq<Entry>, hash: Bytes -> Word32, fileSize: seq<Entry> -> nat)
    returns (t: Table)
    requires entries != [] && Sorted(entries) && BloomFits(|entries|)
    ensures t.id == id && t.entries == entries && t.fileSize == fileSize(entries) && TableValid(t, hash)
  {
    var hashes: seq<Word32> := [];
    for i := 0 to |entries|
      invariant |hashes| == i
      invariant forall j :: 0 <= j < i ==> hashes[j] == hash(UserKeyOf(entries[j]))
    {
      hashes := hashes + [hash(UserKeyOf(entries[i]))];
    }
    var bloom := BuildBloomFilter(hashes);
    forall e | e in entries ensures MayContain(bloom, hash(UserKeyOf(e))) {
      var j :| 0 <= j < |entries| && entries[j] == e;
      assert hashes[j] in hashes;
    }
    t := Table(id, entries, bloom, fileSize(entries));
  }

  /** No shorter non-empty prefix had reached the target. */
  ghost predicate Growing(es: seq<Entry>, estimate: seq<Entry> -> nat, target: nat) {
    forall k :: 0 < k < |es| ==> estimate(es[..k]) < target
  }

  /** Every table was cut as soon as it reached the target size, and no earlier. */
  ghost predicate AllCut(ts: seq<Table>, estimate: seq<Entry> -> nat, target: nat) {
    forall i :: 0 <= i < |ts| ==> estimate(ts[i].entries) >= target && Growing(ts[i].entries, estimate, target)
  }

  /** The same, except that the last table may stop short. */
  ghost predicate CutAt(ts: seq<Table>, estimate: seq<Entry> -> nat, target: nat) {
    ts == [] || (AllCut(ts[..|ts| - 1], estimate, target) && Growing(ts[|ts| - 1].entries, estimate, target))
  }

  lemma {:induction false} GrowingExtends(es: seq<Entry>, e: Entry, estimate: seq<Entry> -> nat, target: nat)
    requires Growing(es, estimate, target) && (es != [] ==> estimate(es) < target)
    ensures Growing(es + [e], estimate, target)
  {
    var grown := es + [e];
    forall k | 0 < k < |grown| ensures estimate(grown[..k]) < target {
      assert grown[..k] == es[..k];
      assert es[..|es|] == es;
    }
  }

  /** The pieces the rest of a run is cut into, behind what the builder already holds: each as
      soon as it reaches the target size. */
  function Cut(es: seq<Entry>, builder: seq<Entry>, estimate: seq<Entry> -> nat, target: nat): seq<seq<Entry>>
    decreases |es|
  {
    if es == [] then
      if builder == [] then [] else [builder]
    else
      var grown := builder + [es[0]];
      if estimate(grown) >= target then [grown] + Cut(es[1..], [], estimate, target)
      else Cut(es[1..], grown, estimate, target)
  }

  function Pieces(merged: seq<Entry>, estimate: seq<Entry> -> nat, target: nat): seq<seq<Entry>> {
    Cut(merged, [], estimate, target)
  }

  /** No piece holds an internal key twice, or out of order. */
  predicate AllSorted(pieces: seq<seq<Entry>>) {
    forall i :: 0 <= i < |pieces| ==> Sorted(pieces[i])
  }

  /** What the builder holds goes into the first piece. */
  lemma {:induction false} CutExtends(es: seq<Entry>, builder: seq<Entry>, estimate: seq<Entry> -> nat, target: nat)
    requires builder != []
    ensures var r := Cut(es, builder, estimate, target); r != [] && builder <= r[0]
    decreases |es|
  {
    if es != [] {
      var grown := builder + [es[0]];
      if estimate(grown) < target { CutExtends(es[1..], grown, estimate, target); }
    }
  }

  lemma {:induction false} CutSorted(es: seq<Entry>, builder: seq<Entry>, estimate: seq<Entry> -> nat, target: nat)
    requires Sorted(builder + es)
    ensures AllSorted(Cut(es, builder, estimate, target))
    decreases |es|
  {
    if es == [] {
      assert builder + es == builder;
    } else {
      var grown := builder + [es[0]];
      assert builder + es == grown + es[1..];
      SortedParts(grown, es[1..]);
      assert [] + es[1..] == es[1..];
      if estimate(grown) >= target {
        CutSorted(es[1..], [], estimate, target);
      } else {
        CutSorted(es[1..], grown, estimate, target);
      }
    }
  }

  lemma {:induction false} SortedParts(a: seq<Entry>, b: seq<Entry>)
    requires Sorted(a + b)
    ensures Sorted(a) && Sorted(b)
  {
    forall i, j | 0 <= i < j < |a| ensures Less(a[i].key, a[j].key) { assert (a + b)[i] == a[i] && (a + b)[j] == a[j]; }
    forall i, j | 0 <= i < j < |b| ensures Less(b[i].key, b[j].key) {
      assert (a + b)[|a| + i] == b[i] && (a + b)[|a| + j] == b[j];
    }
  }

  /** A run that fits one table is written exactly if no internal key occurs in it twice. */
  lemma {:induction false} OnePieceIff(merged: seq<Entry>, estimate: seq<Entry> -> nat, target: nat)
    requires Ordered(merged) && Growing(merged, estimate, target)
    ensures AllSorted(Pieces(merged, estimate, target)) <==> UniqueKeys(multiset(merged))
  {
    hide Sorted, UniqueKeys, Cut;
    GrowingIsOnePiece(merged, 0, estimate, target);
    assert merged[..0] == [] && merged[0..] == merged;
    if UniqueKeys(multiset(merged)) {
      OrderedUniqueIsSorted(merged);
    }
    if AllSorted(Pieces(merged, estimate, target)) {
      if merged == [] { NoneSorted(merged); } else { assert Pieces(merged, estimate, target)[0] == merged; }
      SortedIsUnique(merged);
    }
  }

  lemma {:induction false} NoneSorted(es: seq<Entry>)
    requires es == []
    ensures Sorted(es)
  {
  }

  lemma {:induction false} GrowingIsOnePiece(merged: seq<Entry>, k: nat, estimate: seq<Entry> -> nat, target: nat)
    requires k <= |merged| && Growing(merged, estimate, target)
    ensures Cut(merged[k..], merged[..k], estimate, target) == if merged == [] then [] else [merged]
    decreases |merged| - k
  {
    if k == |merged| {
      assert merged[..k] == merged;
    } else {
      assert merged[..k] + [merged[k..][0]] == merged[..k + 1];
      assert merged[k..][1..] == merged[k + 1..];
      if k + 1 < |merged| {
        GrowingIsOnePiece(merged, k + 1, estimate, target);
      } else {
        assert merged[..k + 1] == merged;
        GrowingIsOnePiece(merged, k + 1, estimate, target);
      }
    }
  }

  lemma {:induction false} CutFlat(es: seq<Entry>, builder: seq<Entry>, estimate: seq<Entry> -> nat, target: nat)
    ensures Flatten(Cut(es, builder, estimate, target)) == builder + es
    decreases |es|
  {
    if es == [] {
      assert builder + es == builder && [builder][1..] == [];
    } else {
      var grown := builder + [es[0]];
      assert grown + es[1..] == builder + es && [] + es[1..] == es[1..];
      if estimate(grown) >= target {
        CutFlat(es[1..], [], estimate, target);
        FlattenConcat([grown], Cut(es[1..], [], estimate, target));
        assert [grown][1..] == [];
      } else {
        CutFlat(es[1..], grown, estimate, target);
      }
    }
  }

  /** What occurs twice in sorted pieces occurs in two of them. */
  lemma {:induction false} CopiesApart(pieces: seq<seq<Entry>>, e: Entry)
    requires AllSorted(pieces) && multiset(Flatten(pieces))[e] >= 2
    ensures exists i, j :: 0 <= i < j < |pieces| && e in pieces[i] && e in pieces[j]
  {
    hide Sorted;
    var rest := pieces[1..];
    SortedIsUnique(pieces[0]);
    assert multiset(pieces[0])[e] <= 1;
    assert AllSorted(rest);
    if e in pieces[0] {
      assert e in multiset(Flatten(rest));
      InFlatten(rest, e);
      var j :| 0 <= j < |rest| && e in rest[j];
      assert e in pieces[j + 1];
    } else {
      assert multiset(pieces[0])[e] == 0;
      CopiesApart(rest, e);
      var i, j :| 0 <= i < j < |rest| && e in rest[i] && e in rest[j];
      assert e in pieces[i + 1] && e in pieces[j + 1];
    }
  }

  lemma {:induction false} InFlatten(pieces: seq<seq<Entry>>, e: Entry)
    requires e in Flatten(pieces)
    ensures exists i :: 0 <= i < |pieces| && e in pieces[i]
  {
    if e !in pieces[0] {
      InFlatten(pieces[1..], e);
      var i :| 0 <= i < |pieces[1..]| && e in pieces[1..][i];
      assert e in pieces[i + 1];
    }
  }

  /** A run with two copies of a version is written only if a table ends between them. */
  lemma {:induction false} CopiesSeparated(merged: seq<Entry>, e: Entry, estimate: seq<Entry> -> nat, target: nat)
    requires AllSorted(Pieces(merged, estimate, target)) && multiset(merged)[e] >= 2
    ensures var pieces := Pieces(merged, estimate, target);
      exists i, j :: 0 <= i < j < |pieces| && e in pieces[i] && e in pieces[j]
  {
    hide AllSorted, Cut;
    CutFlat(merged, [], estimate, target);
    assert [] + merged == merged;
    CopiesApart(Pieces(merged, estimate, target), e);
  }

  /** An internal key may occur twice if a table happens to end between the two. */
  lemma {:induction false} SeparatedCopies(e: Entry, estimate: seq<Entry> -> nat, target: nat)
    requires estimate([e]) >= target
    ensures AllSorted(Pieces([e, e], estimate, target)) && !UniqueKeys(multiset([e, e]))
  {
    assert [] + [e] == [e] && [e, e][1..] == [e] && [e][1..] == [];
    assert Cut([], [], estimate, target) == [];
    assert Cut([e], [], estimate, target) == [[e]];
    assert Cut([e, e], [], estimate, target) == [[e], [e]];
    RepeatedElement([e, e], 0, 1);
    assert e in multiset([e, e]);
  }

  /** Building the filter of a piece does not panic. A piece is finished if it and all before it
      are sorted. */
  predicate FiltersFit(pieces: seq<seq<Entry>>) {
    forall i :: 0 <= i < |pieces| && AllSorted(pieces[..i + 1]) ==> BloomFits(|pieces[i]|)
  }

  /** The inputs of a task, merged. */
  ghost predicate Merges(run: seq<Entry>, task: Task) {
    Ordered(run) && multiset(run) == multiset(TablesFlat(task.inputs + task.overlapping))
  }

  /** No table can become too large: either all entries together are few enough, or tables are cut
      early enough, given that the size estimate counts every entry. */
  ghost predicate FewEnough(n: nat, estimate: seq<Entry> -> nat, target: nat) {
    || n * BITS_PER_KEY + 80 < U32
    || (target * BITS_PER_KEY + 90 < U32 && forall es :: estimate(es) >= |es|)
  }

  lemma {:induction false} FewFit(merged: seq<Entry>, estimate: seq<Entry> -> nat, target: nat)
    requires FewEnough(|merged|, estimate, target)
    ensures FiltersFit(Pieces(merged, estimate, target))
  {
    hide Cut, BloomFits, AllSorted;
    var pieces := Pieces(merged, estimate, target);
    StartRun(merged, estimate, target);
    CutFlat(merged, [], estimate, target);
    assert [] + merged == merged;
    forall i | 0 <= i < |pieces| ensures BloomFits(|pieces[i]|) {
      PieceLength(pieces, i);
      CutGrows(merged, [], estimate, target, i);
      var p := pieces[i];
      assert |p| <= |merged| && (|p| > 1 ==> estimate(p[..|p| - 1]) < target);
      SmallFits(|p|);
    }
  }

  lemma {:induction false} PieceLength(pieces: seq<seq<Entry>>, i: nat)
    requires i < |pieces|
    ensures |pieces[i]| <= |Flatten(pieces)|
  {
    if i > 0 { PieceLength(pieces[1..], i - 1); }
  }

  lemma {:induction false} CutGrows(es: seq<Entry>, builder: seq<Entry>, estimate: seq<Entry> -> nat, target: nat,
                                    i: nat)
    requires Growing(builder, estimate, target) && (builder != [] ==> estimate(builder) < target)
    requires i < |Cut(es, builder, estimate, target)|
    ensures Growing(Cut(es, builder, estimate, target)[i], estimate, target)
    decreases |es|
  {
    hide Growing;
    if es != [] {
      var grown := builder + [es[0]];
      GrowingExtends(builder, es[0], estimate, target);
      StartRun(es, estimate, target);
      if estimate(grown) < target {
        CutGrows(es[1..], grown, estimate, target, i);
      } else if i > 0 {
        CutGrows(es[1..], [], estimate, target, i - 1);
      }
    }
  }

  /** The merged run: every entry of the tables picked exactly once, in order, cut into tables.
      It fails exactly if a table would hold an internal key twice; it succeeds with a strictly
      sorted run whenever no internal key occurs twice at all. */
  method Execute(task: Task, hash: Bytes -> Word32, estimate: seq<Entry> -> nat, fileSize: seq<Entry> -> nat,
                 target: nat, lastId: nat)
    returns (newTables: Option<seq<Table>>, lastId': nat, ghost merged: seq<Entry>)
    requires TablesValid(task.inputs + task.overlapping, hash)
    requires forall run :: Merges(run, task) ==> FiltersFit(Pieces(run, estimate, target))
    ensures Merges(merged, task)
    ensures newTables.Some? <==> AllSorted(Pieces(merged, estimate, target))
    ensures newTables.Some? ==>
      && EntryLists(newTables.value) == Pieces(merged, estimate, target) && TablesFlat(newTables.value) == merged
      && TablesValid(newTables.value, hash) && CutAt(newTables.value, estimate, target)
      && Numbered(newTables.value, lastId) && lastId' == lastId + |newTables.value|
    ensures UniqueKeys(multiset(TablesFlat(task.inputs + task.overlapping))) ==>
      newTables.Some? && Sorted(TablesFlat(newTables.value))
  {
    hide Sorted, TablesFlat, CutAt, Cut, TableValid, UniqueKeys, FiltersFit;
    var run := MergeInputs(task, hash);
    merged := run;
    assert Merges(merged, task);
    if UniqueKeys(multiset(merged)) {
      OrderedUniqueIsSorted(merged);
      assert [] + merged == merged;
      CutSorted(merged, [], estimate, target);
    }
    newTables, lastId' := SplitRun(run, hash, estimate, fileSize, target, lastId);
  }

  method MergeInputs(task: Task, ghost hash: Bytes -> Word32) returns (merged: seq<Entry>)
    requires TablesValid(task.inputs + task.overlapping, hash)
    ensures Ordered(merged)
    ensures multiset(merged) == multiset(TablesFlat(task.inputs + task.overlapping))
  {
    hide Less, TablesFlat, Flatten, MayContain;
    var all := task.inputs + task.overlapping;
    FlattenEntryLists(all);
    forall i | 0 <= i < |all| ensures Ordered(EntryLists(all)[i]) {
      SortedIsOrdered(all[i].entries);
    }
    merged := MergeAll(EntryLists(all));
  }

  /** Consecutive ids behind the last one taken. */
  predicate Numbered(ts: seq<Table>, lastId: nat) {
    forall i :: 0 <= i < |ts| ==> ts[i].id == lastId + 1 + i
  }

  /** The builder takes a key only behind the one before it. */
  predicate Accepts(builder: seq<Entry>, e: Entry) {
    builder == [] || Less(builder[|builder| - 1].key, e.key)
  }

  lemma {:induction false} AcceptsIff(builder: seq<Entry>, e: Entry)
    requires Sorted(builder)
    ensures Accepts(builder, e) <==> Sorted(builder + [e])
  {
    hide Less;
    var grown := builder + [e];
    if Sorted(grown) && builder != [] {
      assert grown[|builder| - 1] == builder[|builder| - 1] && grown[|builder|] == e;
    }
    if Accepts(builder, e) {
      forall i, j | 0 <= i < j < |grown| ensures Less(grown[i].key, grown[j].key) {
        if j == |builder| && i < |builder| - 1 { LessTransitive(builder[i].key, builder[|builder| - 1].key, e.key); }
      }
    }
  }

  /** One entry more for the builder. */
  lemma {:induction false} CutNext(es: seq<Entry>, builder: seq<Entry>, estimate: seq<Entry> -> nat, target: nat)
    requires es != []
    ensures var grown := builder + [es[0]];
      && (estimate(grown) >= target ==>
            Cut(es, builder, estimate, target) == [grown] + Cut(es[1..], [], estimate, target))
      && (estimate(grown) < target ==> Cut(es, builder, estimate, target) == Cut(es[1..], grown, estimate, target))
  {
  }

  /** A piece that would hold grown is not sorted if grown is not. */
  lemma {:induction false} RefusedPiece(done: seq<seq<Entry>>, es: seq<Entry>, builder: seq<Entry>,
                                        estimate: seq<Entry> -> nat, target: nat)
    requires es != [] && !Sorted(builder + [es[0]])
    ensures !AllSorted(done + Cut(es, builder, estimate, target))
  {
    hide Sorted, Cut;
    var grown, all := builder + [es[0]], done + Cut(es, builder, estimate, target);
    CutNext(es, builder, estimate, target);
    if estimate(grown) < target { CutExtends(es[1..], grown, estimate, target); }
    var piece := Cut(es, builder, estimate, target)[0];
    assert all[|done|] == piece;
    if Sorted(piece) {
      assert piece == grown + piece[|grown|..];
      SortedParts(grown, piece[|grown|..]);
    }
  }

  /** i entries have been taken: the tables finished, and the builder for the next one. */
  ghost predicate Built(merged: seq<Entry>, i: nat, ts: seq<Table>, builder: seq<Entry>, estimate: seq<Entry> -> nat,
                        target: nat) {
    && i <= |merged| && |builder| <= i && TablesFlat(ts) + builder == merged[..i]
    && EntryLists(ts) + Cut(merged[i..], builder, estimate, target) == Pieces(merged, estimate, target)
    && AllCut(ts, estimate, target) && Growing(builder, estimate, target)
    && (builder != [] ==> estimate(builder) < target)
  }

  lemma {:induction false} BuiltNext(merged: seq<Entry>, i: nat, ts: seq<Table>, builder: seq<Entry>,
                                     estimate: seq<Entry> -> nat, target: nat)
    requires Built(merged, i, ts, builder, estimate, target) && i < |merged|
    ensures var grown := builder + [merged[i]];
      && TablesFlat(ts) + grown == merged[..i + 1] && Growing(grown, estimate, target)
      && (estimate(grown) < target ==> Built(merged, i + 1, ts, grown, estimate, target))
      && (estimate(grown) >= target ==>
            EntryLists(ts) + [grown] + Cut(merged[i + 1..], [], estimate, target) == Pieces(merged, estimate, target))
  {
    hide Growing, TablesFlat, Cut, EntryLists, Pieces, AllCut;
    assert merged[i..][0] == merged[i] && merged[i..][1..] == merged[i + 1..];
    GrowingExtends(builder, merged[i], estimate, target);
    CutNext(merged[i..], builder, estimate, target);
    assert merged[..i + 1] == merged[..i] + [merged[i]];
    assert TablesFlat(ts) + builder + [merged[i]] == TablesFlat(ts) + (builder + [merged[i]]);
    assert EntryLists(ts) + [builder + [merged[i]]] + Cut(merged[i + 1..], [], estimate, target)
        == EntryLists(ts) + ([builder + [merged[i]]] + Cut(merged[i + 1..], [], estimate, target));
  }

  /** A finished table more. */
  lemma {:induction false} BuiltCut(merged: seq<Entry>, i: nat, ts: seq<Table>, ts': seq<Table>, grown: seq<Entry>,
                                    estimate: seq<Entry> -> nat, target: nat)
    requires i <= |merged| && TablesFlat(ts) + grown == merged[..i] && AllCut(ts, estimate, target)
    requires Growing(grown, estimate, target) && estimate(grown) >= target
    requires EntryLists(ts) + [grown] + Cut(merged[i..], [], estimate, target) == Pieces(merged, estimate, target)
    requires |ts'| == |ts| + 1 && ts'[..|ts|] == ts && ts'[|ts|].entries == grown
    requires TablesFlat(ts') == TablesFlat(ts) + grown && EntryLists(ts') == EntryLists(ts) + [grown]
    ensures Built(merged, i, ts', [], estimate, target)
  {
    hide TablesFlat, Cut, EntryLists, Pieces;
    StartRun(merged, estimate, target);
    assert TablesFlat(ts') + [] == TablesFlat(ts');
    assert forall k :: 0 <= k < |ts| ==> ts'[k] == ts'[..|ts|][k] == ts[k];
  }

  method SplitRun(merged: seq<Entry>, hash: Bytes -> Word32, estimate: seq<Entry> -> nat, fileSize: seq<Entry> -> nat,
                  target: nat, lastId: nat) returns (r: Option<seq<Table>>, lastId': nat)
    requires FiltersFit(Pieces(merged, estimate, target))
    ensures r.Some? <==> AllSorted(Pieces(merged, estimate, target))
    ensures r.Some? ==>
      && EntryLists(r.value) == Pieces(merged, estimate, target) && TablesFlat(r.value) == merged
      && TablesValid(r.value, hash) && CutAt(r.value, estimate, target)
      && Numbered(r.value, lastId) && lastId' == lastId + |r.value|
  {
    hide Sorted, TablesValid, TablesFlat, Accepts, BloomFits, EntryLists, Built, AllSorted, Pieces, CutAt, FiltersFit;
    var newTables: seq<Table> := [];
    lastId' := lastId;
    var builder: seq<Entry> := [];
    StartBuilt(merged, hash, estimate, target);
    for i := 0 to |merged|
      invariant Built(merged, i, newTables, builder, estimate, target) && |builder| <= i
      invariant TablesValid(newTables, hash) && Sorted(builder)
      invariant Numbered(newTables, lastId) && lastId' == lastId + |newTables|
    {
      AcceptsIff(builder, merged[i]);
      if !Accepts(builder, merged[i]) {
        Refused(merged, i, newTables, builder, estimate, target);
        return None, lastId' + 1;
      }
      BuiltNext(merged, i, newTables, builder, estimate, target);
      ghost var before := newTables;
      builder := builder + [merged[i]];
      if estimate(builder) >= target {
        NextFits(merged, before, builder, Cut(merged[i + 1..], [], estimate, target), hash, estimate, target);
        newTables, lastId' := Finish(newTables, lastId', builder, hash, fileSize);
        StillCut(merged, i, before, builder[..|builder| - 1], estimate, target);
        BuiltCut(merged, i + 1, before, newTables, builder, estimate, target);
        builder := [];
        NoneSorted(builder);
      }
    }
    ghost var before := newTables;
    if builder != [] {
      LastFits(merged, before, builder, hash, estimate, target);
      newTables, lastId' := Finish(newTables, lastId', builder, hash, fileSize);
    }
    BuiltEnd(merged, before, newTables, builder, estimate, target);
    PiecesSorted(newTables, hash);
    r := Some(newTables);
  }

  /** The piece that is finished next. */
  lemma {:induction false} NextFits(merged: seq<Entry>, ts: seq<Table>, piece: seq<Entry>, rest: seq<seq<Entry>>,
                                    hash: Bytes -> Word32, estimate: seq<Entry> -> nat, target: nat)
    requires FiltersFit(Pieces(merged, estimate, target)) && TablesValid(ts, hash) && Sorted(piece)
    requires EntryLists(ts) + [piece] + rest == Pieces(merged, estimate, target)
    ensures BloomFits(|piece|)
  {
    hide Sorted, BloomFits, Pieces, TablesValid, EntryLists;
    var pieces, n := Pieces(merged, estimate, target), |EntryLists(ts)|;
    PiecesSorted(ts, hash);
    assert pieces[..n + 1] == EntryLists(ts) + [piece] && pieces[n] == piece;
  }

  lemma {:induction false} LastFits(merged: seq<Entry>, ts: seq<Table>, builder: seq<Entry>, hash: Bytes -> Word32,
                                    estimate: seq<Entry> -> nat, target: nat)
    requires FiltersFit(Pieces(merged, estimate, target)) && TablesValid(ts, hash) && Sorted(builder) && builder != []
    requires Built(merged, |merged|, ts, builder, estimate, target)
    ensures BloomFits(|builder|)
  {
    hide Sorted, BloomFits, Pieces, TablesValid, EntryLists, FiltersFit, TablesFlat, AllCut, Growing, Cut;
    assert merged[|merged|..] == [];
    CutEnd(builder, estimate, target);
    assert EntryLists(ts) + [builder] + [] == EntryLists(ts) + [builder];
    NextFits(merged, ts, builder, [], hash, estimate, target);
  }

  lemma {:induction false} StartBuilt(merged: seq<Entry>, hash: Bytes -> Word32, estimate: seq<Entry> -> nat,
                                      target: nat)
    ensures Built(merged, 0, [], [], estimate, target) && TablesValid([], hash) && Sorted([])
  {
    hide Cut;
    StartRun(merged, estimate, target);
  }

  lemma {:induction false} Refused(merged: seq<Entry>, i: nat, ts: seq<Table>, builder: seq<Entry>,
                                   estimate: seq<Entry> -> nat, target: nat)
    requires Built(merged, i, ts, builder, estimate, target) && i < |merged| && !Sorted(builder + [merged[i]])
    ensures !AllSorted(Pieces(merged, estimate, target))
  {
    hide Sorted, AllSorted, Cut, EntryLists, TablesFlat;
    RefusedPiece(EntryLists(ts), merged[i..], builder, estimate, target);
  }

  lemma {:induction false} StillCut(merged: seq<Entry>, i: nat, ts: seq<Table>, builder: seq<Entry>,
                                    estimate: seq<Entry> -> nat, target: nat)
    requires Built(merged, i, ts, builder, estimate, target)
    ensures AllCut(ts, estimate, target)
  {
  }

  lemma {:induction false} BuiltEnd(merged: seq<Entry>, ts: seq<Table>, ts': seq<Table>, builder: seq<Entry>,
                                    estimate: seq<Entry> -> nat, target: nat)
    requires Built(merged, |merged|, ts, builder, estimate, target)
    requires builder == [] ==> ts' == ts
    requires builder != [] ==>
      && |ts'| == |ts| + 1 && ts'[..|ts|] == ts && ts'[|ts|].entries == builder
      && TablesFlat(ts') == TablesFlat(ts) + builder && EntryLists(ts') == EntryLists(ts) + [builder]
    ensures EntryLists(ts') == Pieces(merged, estimate, target) && TablesFlat(ts') == merged
    ensures CutAt(ts', estimate, target)
  {
    hide TablesFlat, Cut, EntryLists, Pieces, Growing;
    assert merged[..|merged|] == merged && merged[|merged|..] == [];
    CutEnd(builder, estimate, target);
    if builder == [] {
      assert TablesFlat(ts) + builder == TablesFlat(ts) && EntryLists(ts) + [] == EntryLists(ts);
      if ts != [] { LastCut(ts, estimate, target); }
    }
  }

  lemma {:induction false} LastCut(ts: seq<Table>, estimate: seq<Entry> -> nat, target: nat)
    requires ts != [] && AllCut(ts, estimate, target)
    ensures CutAt(ts, estimate, target)
  {
    hide Growing;
  }

  lemma {:induction false} CutEnd(builder: seq<Entry>, estimate: seq<Entry> -> nat, target: nat)
    ensures Cut([], builder, estimate, target) == if builder == [] then [] else [builder]
  {
  }

  lemma {:induction false} PiecesSorted(ts: seq<Table>, hash: Bytes -> Word32)
    requires TablesValid(ts, hash)
    ensures AllSorted(EntryLists(ts))
  {
    hide Sorted;
    forall i | 0 <= i < |ts| ensures Sorted(EntryLists(ts)[i]) { assert ts[i] in ts; }
  }

  lemma {:induction false} StartRun(merged: seq<Entry>, estimate: seq<Entry> -> nat, target: nat)
    ensures Growing([], estimate, target) && Sorted([])
    ensures TablesFlat([]) + [] == merged[..0] && merged[0..] == merged && EntryLists([]) == []
  {
  }

  method Finish(done: seq<Table>, lastId: nat, builder: seq<Entry>, hash: Bytes -> Word32, fileSize: seq<Entry> -> nat)
    returns (done': seq<Table>, lastId': nat)
    requires builder != [] && Sorted(builder) && BloomFits(|builder|)
    requires TablesValid(done, hash)
    ensures lastId' == lastId + 1
    ensures |done'| == |done| + 1 && done'[..|done|] == done
    ensures done'[|done|].id == lastId' && done'[|done|].entries == builder
    ensures TablesFlat(done') == TablesFlat(done) + builder && EntryLists(done') == EntryLists(done) + [builder]
    ensures TablesValid(done', hash)
  {
    lastId' := lastId + 1;
    var t := FinishTable(lastId', builder, hash, fileSize);
    done' := done + [t];
    TablesFlatConcat(done, [t]);
    TablesFlatSingle(t);
  }
}
