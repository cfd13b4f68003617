/**
The DB object (db/db.go): its fields, and its operations as methods that change them. Each
method is tied to a step of module Engine; reads are tied to the search order.
*/
module Database {
  import opened Optional
  import opened Bytes
  import opened Keys
  import opened Versions
  import opened Bloom
  import opened Tables
  import opened Iterators
  import opened AgeOrder
  import opened Compaction
  import opened LevelMerge
  import opened Engine
  import opened EngineApply
  import opened EngineSteps
  import opened EngineRuns
  import B = Blocks
  import S = SSTable

  datatype Options = Options(memtableSize: int, maxImmutableCount: int, compaction: Config)

  const DEFAULT_IMMUTABLE_COUNT: int := 5

  function Defaulted(opts: Options): Options {
    if opts.maxImmutableCount <= 0 then opts.(maxImmutableCount := DEFAULT_IMMUTABLE_COUNT) else opts
  }

  /** A write is acknowledged, or refused by the log, or waits for room that the flusher cannot make. */
  datatype Outcome = Acknowledged | NotLogged | Waiting

  /** The table builder takes every entry of the memtable. */
  predicate Flushable(m: Memtable) {
    S.AllFit(m.entries)
  }

  /** All memtables too many, counting from the newest, can be flushed. */
  predicate CanMakeRoom(ms: seq<Memtable>, limit: int)
    requires limit >= 1
  {
    forall i :: limit - 1 <= i < |ms| ==> Flushable(ms[i])
  }

  // ----- reads -----

  /** Memtables, newest first; each answers as its contents do (class SkipLists.SkipList). */
  method SearchMemtables(ms: seq<Memtable>, key: Bytes, maxSeq: nat) returns (r: Option<Entry>)
    ensures r == FirstVisible(MemsFlat(ms), key, maxSeq)
  {
    assert ms[0..] == ms;
    for i := 0 to |ms|
      invariant FirstVisible(MemsFlat(ms[i..]), key, maxSeq) == FirstVisible(MemsFlat(ms), key, maxSeq)
    {
      hide FirstVisible;
      assert ms[i..][0] == ms[i] && ms[i..][1..] == ms[i + 1..];
      FirstVisibleConcat(ms[i].entries, MemsFlat(ms[i + 1..]), key, maxSeq);
      r := FirstVisible(ms[i].entries, key, maxSeq);
      if r.Some? {
        return;
      }
    }
    assert ms[|ms|..] == [];
    r := None;
  }

  lemma {:induction false} FilteredOut(t: Table, hash: Bytes -> Word32, key: Bytes, maxSeq: nat)
    requires TableValid(t, hash) && !MayContain(t.bloom, hash(key))
    ensures FirstVisible(t.entries, key, maxSeq) == None
  {
    hide MayContain, UserKey, Sorted, FirstVisible;
    assert forall e :: e in t.entries ==> UserKeyOf(e) != key;
  }

  /** Tables in search order; the filter is asked first, then the reader (module SSTable). */
  method SearchTables(ts: seq<Table>, hash: Bytes -> Word32, key: Bytes, maxSeq: nat) returns (r: Option<Entry>)
    requires TablesValid(ts, hash)
    ensures r == FirstVisible(TablesFlat(ts), key, maxSeq)
  {
    assert ts[0..] == ts;
    for i := 0 to |ts|
      invariant FirstVisible(TablesFlat(ts[i..]), key, maxSeq) == FirstVisible(TablesFlat(ts), key, maxSeq)
    {
      hide FirstVisible, MayContain, Sorted;
      var t := ts[i];
      assert ts[i..][0] == t && ts[i..][1..] == ts[i + 1..];
      FirstVisibleConcat(t.entries, TablesFlat(ts[i + 1..]), key, maxSeq);
      var maybe := BloomMayContain(t.bloom, hash(key));
      if !maybe {
        FilteredOut(t, hash, key, maxSeq);
        continue;
      }
      r := FirstVisible(t.entries, key, maxSeq);
      if r.Some? {
        return;
      }
    }
    assert ts[|ts|..] == [];
    r := None;
  }

  /** L1 and below, level by level. */
  method SearchLevels(levels: seq<seq<Table>>, hash: Bytes -> Word32, key: Bytes, maxSeq: nat)
    returns (r: Option<Entry>)
    requires TablesValid(Concat(levels), hash)
    ensures r == FirstVisible(TablesFlat(Concat(levels)), key, maxSeq)
  {
    assert levels[0..] == levels;
    for i := 0 to |levels|
      invariant TablesValid(Concat(levels[i..]), hash)
      invariant FirstVisible(TablesFlat(Concat(levels[i..])), key, maxSeq) ==
                FirstVisible(TablesFlat(Concat(levels)), key, maxSeq)
    {
      hide FirstVisible, TablesValid, TablesFlat, Concat;
      LevelThenRest(levels, i, hash, key, maxSeq);
      r := SearchTables(levels[i], hash, key, maxSeq);
      if r.Some? {
        return;
      }
    }
    assert levels[|levels|..] == [];
    NoLevels(key, maxSeq);
    r := None;
  }

  lemma {:induction false} NoLevels(key: Bytes, maxSeq: nat)
    ensures FirstVisible(TablesFlat(Concat([])), key, maxSeq) == None
  {
  }

  /** A read that finds nothing in a level goes on in the next. */
  lemma {:induction false} LevelThenRest(levels: seq<seq<Table>>, i: nat, hash: Bytes -> Word32, key: Bytes,
                                         maxSeq: nat)
    requires i < |levels| && TablesValid(Concat(levels[i..]), hash)
    ensures TablesValid(levels[i], hash) && TablesValid(Concat(levels[i + 1..]), hash)
    ensures FirstVisible(TablesFlat(Concat(levels[i..])), key, maxSeq) ==
      var hit := FirstVisible(TablesFlat(levels[i]), key, maxSeq);
      if hit.Some? then hit else FirstVisible(TablesFlat(Concat(levels[i + 1..])), key, maxSeq)
  {
    hide FirstVisible, TableValid, TablesFlat;
    var rest := Concat(levels[i + 1..]);
    assert levels[i..][0] == levels[i] && levels[i..][1..] == levels[i + 1..];
    ValidParts(levels[i], rest, hash);
    TablesFlatConcat(levels[i], rest);
    FirstVisibleConcat(TablesFlat(levels[i]), TablesFlat(rest), key, maxSeq);
  }

  lemma {:induction false} ValidParts(a: seq<Table>, b: seq<Table>, hash: Bytes -> Word32)
    requires TablesValid(a + b, hash)
    ensures TablesValid(a, hash) && TablesValid(b, hash)
  {
    hide TableValid;
    assert forall i :: 0 <= i < |a| ==> (a + b)[i] == a[i];
    assert forall i :: 0 <= i < |b| ==> (a + b)[|a| + i] == b[i];
  }

  lemma {:induction false} SearchParts(s: State, hash: Bytes -> Word32)
    requires TablesValid(Searched(s), hash)
    ensures TablesValid(s.l0, hash) && TablesValid(Concat(Deeper(s.levels)), hash)
    ensures Flat(s) == s.active.entries + (MemsFlat(s.immutables)
                       + (TablesFlat(s.l0) + TablesFlat(Concat(Deeper(s.levels)))))
  {
    hide TableValid, TablesFlat, MemsFlat, Concat;
    var a, b := s.l0, Concat(Deeper(s.levels));
    TablesFlatConcat(a, b);
    ValidParts(a, b, hash);
  }

  // ----- scans -----

  /** The same entries in the order of their internal keys. */
  predicate Sorting(merged: seq<Entry>, es: seq<Entry>) {
    Sorted(merged) && multiset(merged) == multiset(es)
  }

  /** One iterator per source, newest first, as rawScan collects them. */
  function Sources(s: State): seq<seq<Entry>> {
    [s.active.entries] + (MemLists(s.immutables) + EntryLists(Searched(s)))
  }

  lemma {:induction false} SourcesFlat(s: State)
    ensures Flatten(Sources(s)) == Flat(s)
  {
    hide Flatten, TablesFlat, MemsFlat, Searched;
    FlattenConcat([s.active.entries], MemLists(s.immutables) + EntryLists(Searched(s)));
    FlattenConcat(MemLists(s.immutables), EntryLists(Searched(s)));
    FlattenSingle(s.active.entries);
    FlattenMemLists(s.immutables);
    FlattenEntryLists(Searched(s));
  }

  lemma {:induction false} SourcesOrdered(s: State, hash: Bytes -> Word32)
    requires MemsOk(s) && LevelsOk(s, hash)
    ensures forall i :: 0 <= i < |Sources(s)| ==> Ordered(Sources(s)[i])
  {
    hide Less, Searched, Ordered, MayContain;
    var a, b, c := [s.active.entries], MemLists(s.immutables), EntryLists(Searched(s));
    forall i | 0 <= i < |Sources(s)| ensures Ordered(Sources(s)[i]) {
      if i == 0 {
        SortedIsOrdered(s.active.entries);
      } else if i <= |b| {
        assert Sources(s)[i] == s.immutables[i - 1].entries;
        assert s.immutables[i - 1] in s.immutables;
        SortedIsOrdered(s.immutables[i - 1].entries);
      } else {
        assert Sources(s)[i] == Searched(s)[i - 1 - |b|].entries;
        SortedIsOrdered(Searched(s)[i - 1 - |b|].entries);
      }
    }
  }

  /** A sorted permutation of an age-ordered store answers every point read alike. */
  lemma {:induction false} MergedReads(es: seq<Entry>, merged: seq<Entry>, keys: iset<Bytes>, u: Bytes, m: nat)
    requires multiset(merged) == multiset(es) && Sorted(merged)
    requires VersionsDescend(es) && AllInSpace(es, keys) && SeparableSpace(keys)
    ensures FirstVisible(merged, u, m) == FirstVisible(es, u, m)
    ensures InSpace(merged, keys)
  {
    hide Sorted, VersionsDescend, FirstVisible, SeparableSpace, UserKey, SeqNum;
    SameElements(merged, es);
    InSpaceIff(merged, keys);
    SortedDescends(merged, keys);
    ReadsAgree(merged, es, u, m);
  }

  // ----- compaction makes progress -----

  /** Entries weighted by how many levels they can still sink. */
  function Weight(levels: seq<seq<Table>>, i: nat): nat
    decreases |levels| - i
  {
    if i >= |levels| then 0 else |TablesFlat(levels[i])| * (|levels| - i) + Weight(levels, i + 1)
  }

  function Potential(s: State): nat {
    |TablesFlat(s.l0)| * |s.levels| + Weight(s.levels, 1)
  }

  lemma {:induction false} WeightUpdate(levels: seq<seq<Table>>, n: nat, ts: seq<Table>, i: nat)
    requires i <= n < |levels|
    ensures Weight(levels[n := ts], i) + |TablesFlat(levels[n])| * (|levels| - n)
            == Weight(levels, i) + |TablesFlat(ts)| * (|levels| - n)
    decreases n - i
  {
    if i == n {
      WeightSuffix(levels, levels[n := ts], n + 1);
    } else {
      WeightUpdate(levels, n, ts, i + 1);
    }
  }

  lemma {:induction false} WeightSuffix(a: seq<seq<Table>>, b: seq<seq<Table>>, i: nat)
    requires |a| == |b| && i <= |a| && forall k :: i <= k < |a| ==> a[k] == b[k]
    ensures Weight(a, i) == Weight(b, i)
    decreases |a| - i
  {
    if i < |a| { WeightSuffix(a, b, i + 1); }
  }

  lemma {:induction false} SameLength(a: seq<Entry>, b: seq<Entry>)
    requires multiset(a) == multiset(b)
    ensures |a| == |b|
  {
    assert |multiset(a)| == |a| && |multiset(b)| == |b|;
  }

  lemma {:induction false} MovedSome(ts: seq<Table>)
    requires ts != [] && forall t :: t in ts ==> t.entries != []
    ensures |TablesFlat(ts)| > 0
  {
    assert ts[0] in ts;
  }

  lemma {:induction false} MergedLength(c: Split, newTables: seq<Table>)
    requires multiset(TablesFlat(newTables)) == multiset(TablesFlat(c.moved + c.overlap))
    ensures |TablesFlat(c.left + (newTables + c.right))| ==
            |TablesFlat(c.left + (c.overlap + c.right))| + |TablesFlat(c.moved)|
  {
    hide TablesFlat;
    FlatThree(c.left, c.overlap, c.right);
    FlatThree(c.left, newTables, c.right);
    TablesFlatConcat(c.moved, c.overlap);
    SameLength(TablesFlat(newTables), TablesFlat(c.moved + c.overlap));
  }

  lemma {:induction false} L0Progress(m: nat, levels: nat, l0: nat, above: nat, old_: nat, new_: nat, w: nat, w': nat)
    requires m > 0 && levels >= 2 && l0 == above + m && new_ == old_ + m
    requires w' + old_ * (levels - 1) == w + new_ * (levels - 1)
    ensures above * levels + w' < l0 * levels + w
  {
    assert new_ * (levels - 1) == old_ * (levels - 1) + m * (levels - 1);
    assert l0 * levels == above * levels + m * levels;
    assert m * levels == m * (levels - 1) + m;
  }

  lemma {:induction false} LevelProgress(m: nat, k: nat, n0: nat, passed: nat, old_: nat, new_: nat, w: nat, w1: nat,
                                         w2: nat)
    requires m > 0 && k >= 1 && n0 == m + passed && new_ == old_ + m
    requires w1 + n0 * (k + 1) == w + passed * (k + 1)
    requires w2 + old_ * k == w1 + new_ * k
    ensures w2 < w
  {
    assert n0 * (k + 1) == m * (k + 1) + passed * (k + 1);
    assert new_ * k == old_ * k + m * k;
    assert m * (k + 1) == m * k + m;
  }

  /** Every applied compaction strictly lowers the potential. */
  lemma {:induction false} ApplyLowersPotential(s: State, keys: iset<Bytes>, hash: Bytes -> Word32)
    requires Wf(s, keys, hash) && s.inFlight.Some?
    ensures Potential(Applied(s)) < Potential(s)
  {
    hide Flat, Sorted, MayContain, UniqueKeys, SeqNum, UserKey, AllInSpace, MemsOk, Spans, Overlapping, Searched,
      SeparableSpace, TablesFlat, Concat, IdsOk, Applied, Before, After, Weight, TableValid;
    var r := s.inFlight.value;
    MovedNonEmpty(s, keys, hash);
    if r.task.inputLevel == 0 {
      var c := SplitL0(s, keys, hash);
      AppliedL0(s, c, keys, hash);
      MergedLength(c, r.newTables);
      TablesFlatConcat(c.above, c.moved);
      var new_ := c.left + (r.newTables + c.right);
      WeightUpdate(s.levels, 1, new_, 1);
      L0Progress(|TablesFlat(c.moved)|, |s.levels|, |TablesFlat(s.l0)|, |TablesFlat(c.above)|,
                 |TablesFlat(s.levels[1])|, |TablesFlat(new_)|, Weight(s.levels, 1), Weight(Applied(s).levels, 1));
    } else {
      var n := r.task.inputLevel;
      var c := SplitLevel(s, keys, hash);
      AppliedLevel(s, c, keys, hash);
      MergedLength(c, r.newTables);
      TablesFlatConcat(c.moved, c.passed);
      var new_ := c.left + (r.newTables + c.right);
      var thinned := s.levels[n := c.passed];
      WeightUpdate(s.levels, n, c.passed, 1);
      WeightUpdate(thinned, n + 1, new_, 1);
      LevelProgress(|TablesFlat(c.moved)|, |s.levels| - n - 1, |TablesFlat(s.levels[n])|, |TablesFlat(c.passed)|,
                    |TablesFlat(s.levels[n + 1])|, |TablesFlat(new_)|,
                    Weight(s.levels, 1), Weight(thinned, 1), Weight(Applied(s).levels, 1));
    }
  }

  lemma {:induction false} MovedNonEmpty(s: State, keys: iset<Bytes>, hash: Bytes -> Word32)
    requires Wf(s, keys, hash) && s.inFlight.Some?
    ensures |TablesFlat(s.inFlight.value.task.inputs)| > 0
  {
    hide Flat, Sorted, UniqueKeys, SeqNum, UserKey, AllInSpace, MemsOk, Spans, Overlapping, Searched,
      SeparableSpace, TablesFlat, Concat, IdsOk, Applied, Before, After, MayContain;
    var r := s.inFlight.value;
    var c := ApplySplit(s, keys, hash);
    assert r.task.inputs != [];
    forall t | t in r.task.inputs ensures t.entries != [] {
      assert t in Searched(s) by { MovedInBefore(c, t); }
    }
    MovedSome(r.task.inputs);
  }

  lemma {:induction false} MovedInBefore(c: Split, t: Table)
    requires t in c.moved
    ensures t in Before(c)
  {
  }

  // ----- what a picked task needs for execution -----

  lemma {:induction false} OverlappingSubBag(level: seq<Table>, minKey: Bytes, maxKey: Bytes)
    ensures multiset(TablesFlat(Overlapping(level, minKey, maxKey))) <= multiset(TablesFlat(level))
  {
    hide Overlaps;
    if level != [] {
      OverlappingSubBag(level[1..], minKey, maxKey);
      var rest := Overlapping(level[1..], minKey, maxKey);
      assert [] + rest == rest;
      TablesFlatConcat([level[0]], rest);
      TablesFlatSingle(level[0]);
    }
  }

  lemma {:induction false} UniqueSubBag(m: multiset<Entry>, m': multiset<Entry>)
    requires UniqueKeys(m) && m' <= m
    ensures UniqueKeys(m')
  {
    assert forall x :: x in m' ==> x in m;
  }

  /** The inputs and what they overlap are different tables of the state. */
  lemma {:induction false} TaskParts(s: State, task: Task)
    returns (above: seq<Table>, passed: seq<Table>, below: seq<Table>)
    requires task.outputLevel < |s.levels|
    requires L0Task(LevelState(s.l0, s.levels), task) || LevelTask(LevelState(s.l0, s.levels), task)
    ensures Searched(s) == above + (task.inputs + (passed + (s.levels[task.outputLevel] + below)))
    ensures task.overlapping == Overlapping(s.levels[task.outputLevel], task.minKey, task.maxKey)
  {
    hide Spans, Overlapping, Concat, Searched;
    if task.inputLevel == 0 {
      SearchedL0(s, 0);
      assert s.l0[0..] == s.l0 && s.l0[..0] == [];
      above, passed, below := [], [], Concat(s.levels[2..]);
    } else {
      var n := task.inputLevel;
      SearchedAtLevel(s, n);
      assert s.levels[n] == [s.levels[n][0]] + s.levels[n][1..];
      above, passed, below := s.l0 + Concat(s.levels[1..n]), s.levels[n][1..], Concat(s.levels[n + 2..]);
    }
  }

  lemma {:induction false} TablesValidSubset(ts: seq<Table>, us: seq<Table>, hash: Bytes -> Word32)
    requires TablesValid(ts, hash) && forall u :: u in us ==> u in ts
    ensures TablesValid(us, hash)
  {
    hide TableValid;
    forall i | 0 <= i < |us| ensures TableValid(us[i], hash) {
      assert us[i] in us;
    }
  }

  lemma {:induction false} TaskWithinState(s: State, task: Task, keys: iset<Bytes>, hash: Bytes -> Word32)
    requires Wf(s, keys, hash) && task.outputLevel < |s.levels|
    requires L0Task(LevelState(s.l0, s.levels), task) || LevelTask(LevelState(s.l0, s.levels), task)
    ensures TablesValid(task.inputs + task.overlapping, hash)
    ensures UniqueKeys(multiset(TablesFlat(task.inputs + task.overlapping)))
    ensures |TablesFlat(task.inputs + task.overlapping)| <= |Flat(s)|
  {
    hide UniqueKeys, SeqNum, UserKey, AllInSpace, MemsOk, Overlapping, Searched, MemsFlat, L0Task, LevelTask,
      SeparableSpace, TablesFlat, IdsOk, TableValid, Sorted, InFlightOk;
    var level := s.levels[task.outputLevel];
    var all := task.inputs + task.overlapping;
    var above, passed, below := TaskParts(s, task);
    OverlappingMembers(level, task.minKey, task.maxKey);
    TablesValidSubset(Searched(s), all, hash);
    OverlappingSubBag(level, task.minKey, task.maxKey);
    TablesFlatConcat(task.inputs, task.overlapping);
    PartsFlat(above, task.inputs, passed, level, below);
    assert multiset(TablesFlat(all)) <= multiset(Flat(s));
    UniqueSubBag(multiset(Flat(s)), multiset(TablesFlat(all)));
    SubBagLength(TablesFlat(all), Flat(s));
  }

  lemma {:induction false} PartsFlat(above: seq<Table>, moved: seq<Table>, passed: seq<Table>, level: seq<Table>,
                                     below: seq<Table>)
    ensures multiset(TablesFlat(moved)) + multiset(TablesFlat(level))
            <= multiset(TablesFlat(above + (moved + (passed + (level + below)))))
  {
    hide TablesFlat;
    TablesFlatConcat(above, moved + (passed + (level + below)));
    TablesFlatConcat(moved, passed + (level + below));
    TablesFlatConcat(passed, level + below);
    TablesFlatConcat(level, below);
  }

  lemma {:induction false} SubBagLength(a: seq<Entry>, b: seq<Entry>)
    requires multiset(a) <= multiset(b)
    ensures |a| <= |b|
  {
    assert multiset(b) == multiset(a) + (multiset(b) - multiset(a));
    assert |multiset(a)| == |a| && |multiset(b)| == |b|;
  }

  // ----- the store and its history -----

  /** The state holds exactly these versions, in age order. */
  ghost predicate Follows(s: State, history: iset<Entry>) {
    Elements(Flat(s)) == history && VersionsDescend(Flat(s))
  }

  /** A user key has versions both in what the compaction moves down and in what stays behind. */
  ghost predicate Tears(s: State) {
    s.inFlight.Some? && !NoSharedKey(TablesFlat(s.inFlight.value.task.inputs), TablesFlat(LeftBehind(s)))
  }

  lemma {:induction false} FollowsSame(s: State, s': State, history: iset<Entry>)
    requires Flat(s') == Flat(s)
    ensures Follows(s, history) <==> Follows(s', history)
  {
    hide Flat;
  }

  lemma {:induction false} FollowsWrite(s: State, ops: seq<Op>, keys: iset<Bytes>, hash: Bytes -> Word32,
                                        history: iset<Entry>)
    requires Wf(s, keys, hash) && s.nextSeq + |ops| <= MAX_SEQ && forall op :: op in ops ==> op.key in keys
    ensures Follows(s, history) ==> Follows(Written(s, ops), history + NewVersions(ops, s.nextSeq))
  {
    hide Wf, Flat, VersionsDescend, NewVersions, Elements, Written;
    if Follows(s, history) { WriteKeeps(s, ops, keys, hash); }
  }

  lemma {:induction false} FollowsApply(s: State, keys: iset<Bytes>, hash: Bytes -> Word32, history: iset<Entry>)
    requires Wf(s, keys, hash) && s.inFlight.Some?
    ensures Follows(s, history) ==> (Follows(Applied(s), history) <==> !Tears(s))
  {
    hide Wf, Flat, VersionsDescend, NoSharedKey, Applied, LeftBehind, TablesFlat, AllReadsNewest;
    if Follows(s, history) {
      ApplyReadsIff(s, keys, hash);
      ApplyKeepsVersions(s, keys, hash);
      SameElements(Flat(Applied(s)), Flat(s));
    }
  }

  lemma {:induction false} FollowsReads(s: State, history: iset<Entry>, key: Bytes, maxSeq: nat)
    ensures Follows(s, history) ==> ReadsNewest(history, key, maxSeq, FirstVisible(Flat(s), key, maxSeq))
    ensures Follows(s, history) ==> Answers(history, key, maxSeq, Found(FirstVisible(Flat(s), key, maxSeq)))
  {
    hide Flat, VersionsDescend, ReadsNewest, FirstVisible, Elements, Answers;
    if Follows(s, history) {
      FirstVisibleIsNewest(Flat(s), key, maxSeq);
      FoundAnswers(history, key, maxSeq, FirstVisible(Flat(s), key, maxSeq));
    }
  }

  /** A read of the key finds this value. */
  ghost predicate ReadsBack(es: seq<Entry>, key: Bytes, m: nat, value: Value) {
    exists e :: FirstVisible(es, key, m) == Some(e) && e.value == value
  }

  /** From a write on, reads of its key find it. */
  lemma {:induction false} OwnWrite(s: State, before: iset<Entry>, op: Op, s': State, after: iset<Entry>,
                                    keys: iset<Bytes>, hash: Bytes -> Word32, m: nat)
    requires Wf(s, keys, hash) && Follows(s, before) && Follows(s', after) && s.nextSeq < MAX_SEQ
    requires after == before + iset{VersionOf(op, s.nextSeq + 1)} && m >= s.nextSeq + 1
    ensures ReadsBack(Flat(s'), op.key, m, op.value)
  {
    hide Flat, VersionsDescend, FirstVisible, VersionOf, UserKey, SeqNum;
    var v := VersionOf(op, s.nextSeq + 1);
    VersionIs(op, s.nextSeq + 1);
    FollowsReads(s', after, op.key, m);
    OldNumbers(s, before, keys, hash);
    assert v in after && Visible(v, op.key, m);
    var e := FirstVisible(Flat(s'), op.key, m).value;
    assert e in after && SeqOf(e) >= SeqOf(v);
  }

  lemma {:induction false} OldNumbers(s: State, history: iset<Entry>, keys: iset<Bytes>, hash: Bytes -> Word32)
    requires Wf(s, keys, hash) && Follows(s, history)
    ensures forall e :: e in history ==> SeqOf(e) <= s.nextSeq
  {
    hide Flat, VersionsDescend, UniqueKeys, SeqNum, IdsOk, LevelsOk, MemsOk, InFlightOk, SeparableSpace;
  }

  lemma {:induction false} OneVersion(op: Op, lastSeq: nat)
    requires lastSeq < MAX_SEQ
    ensures NewVersions([op], lastSeq) == iset{VersionOf(op, lastSeq + 1)}
  {
    hide MakeInternalKey;
    assert [op][1..] == [];
  }

  /** Some of the oldest memtables have become tables, and nothing else has changed. */
  ghost predicate Drained(s: State, s': State) {
    && Flat(s') == Flat(s) && s'.active == s.active && s'.nextSeq == s.nextSeq && s'.levels == s.levels
    && s'.immutables <= s.immutables && s'.inFlight == s.inFlight && s'.nextMemID == s.nextMemID
    && |s'.l0| + |s'.immutables| == |s.l0| + |s.immutables|
  }

  lemma {:induction false} DrainedMore(s: State, mid: State, t: Table)
    requires Drained(s, mid) && mid.immutables != []
    requires t.id == mid.immutables[|mid.immutables| - 1].id
    requires t.entries == mid.immutables[|mid.immutables| - 1].entries
    ensures Drained(s, Flushed(mid, t))
  {
    hide Flat;
    FlushFlat(mid, t);
  }

  lemma {:induction false} DrainedSeq(s: State, s': State)
    requires Drained(s, s')
    ensures s'.nextSeq == s.nextSeq
  {
    hide Flat;
  }

  lemma {:induction false} DrainedNone(s: State)
    ensures Drained(s, s)
  {
  }

  /** The loop over the operations of a batch. */
  method InsertAll(m: Memtable, ops: seq<Op>, last: nat) returns (es: seq<Entry>, size: nat)
    requires last + |ops| <= MAX_SEQ
    ensures es == WriteOps(m.entries, ops, last) && size == m.size + OpsSize(ops)
    ensures ops != [] || m.entries != [] ==> es != []
  {
    hide Insert, MakeInternalKey;
    es, size := m.entries, m.size;
    assert ops[0..] == ops;
    for i := 0 to |ops|
      invariant WriteOps(es, ops[i..], last + i) == WriteOps(m.entries, ops, last)
      invariant size + OpsSize(ops[i..]) == m.size + OpsSize(ops)
      invariant i > 0 || m.entries != [] ==> es != []
    {
      assert ops[i..][0] == ops[i] && ops[i..][1..] == ops[i + 1..];
      es := Insert(es, VersionOf(ops[i], last + 1 + i));
      size := size + OpSize(ops[i]);
    }
    assert ops[|ops|..] == [];
  }

  class DB {
    const opts: Options
    const hash: Bytes -> Word32
    const estimate: seq<Entry> -> nat
    const fileSize: seq<Entry> -> nat
    ghost const keys: iset<Bytes>

    var active: Memtable
    var immutables: seq<Memtable>
    var l0: seq<Table>
    var levels: seq<seq<Table>>
    var nextMemID: nat
    var nextSeq: nat
    var inFlight: Option<Result>
    ghost var history: iset<Entry>     // the versions of the acknowledged writes

    /** A new store. */
    constructor (opts: Options, hash: Bytes -> Word32, estimate: seq<Entry> -> nat, fileSize: seq<Entry> -> nat,
                 ghost keys: iset<Bytes>)
      requires SeparableSpace(keys) && opts.compaction.maxLevels >= 0
      ensures Valid() && Tracks() && history == iset{} && Init(Abs(), opts.compaction.maxLevels)
      ensures this.opts == Defaulted(opts) && this.hash == hash && this.keys == keys
      ensures this.opts.maxImmutableCount == if opts.maxImmutableCount <= 0 then 5 else opts.maxImmutableCount
    {
      this.opts, this.hash, this.estimate, this.fileSize, this.keys := Defaulted(opts), hash, estimate, fileSize, keys;
      active, immutables, l0, levels := Memtable(1, [], 0), [], [], seq(opts.compaction.maxLevels, _ => []);
      nextMemID, nextSeq, inFlight, history := 1, 0, None, iset{};
      new;
      InitOk(Abs(), opts.compaction.maxLevels, keys, hash);
    }

    function Abs(): State
      reads this
    {
      State(active, immutables, l0, levels, nextMemID, nextSeq, inFlight)
    }

    ghost predicate Valid()
      reads this
    {
      Wf(Abs(), keys, hash) && |levels| == opts.compaction.maxLevels && opts.maxImmutableCount >= 1
    }

    /** The store holds exactly the acknowledged versions, and in age order: every read is right. */
    ghost predicate Tracks()
      reads this
    {
      Follows(Abs(), history)
    }

    /** The state after a logged write, rotated when the memtable has grown large enough. */
    function AfterWrite(s: State, ops: seq<Op>): State
      requires s.nextSeq + |ops| <= MAX_SEQ
    {
      var w := Written(s, ops);
      if w.active.size >= opts.memtableSize then Rotated(w) else w
    }

    /** Memtables were flushed until there was room, and then the operation was written. */
    ghost predicate WrittenAfter(s: State, op: Op, logged: bool, s': State) {
      exists mid ::
        && Drained(s, mid) && |mid.immutables| < opts.maxImmutableCount && mid.nextSeq < MAX_SEQ
        && s' == if logged then AfterWrite(mid, [op]) else Skipped(mid, 1)
    }

    /** Write the operations to the log as one record, then to the memtable; called once
        there is room for another immutable memtable. `logged` is the outcome of the log write. */
    method ApplyBatchLocked(ops: seq<Op>, logged: bool) returns (ok: bool)
      requires Valid() && nextSeq + |ops| <= MAX_SEQ && forall op :: op in ops ==> op.key in keys
      requires |immutables| < opts.maxImmutableCount
      requires ops != [] || active.entries != []
      modifies this
      ensures Valid() && ok == logged
      ensures Abs() == if logged then AfterWrite(old(Abs()), ops) else Skipped(old(Abs()), |ops|)
      ensures |immutables| <= opts.maxImmutableCount
      ensures logged ==>
        var size := old(active.size) + OpsSize(ops);
        if size >= opts.memtableSize then
          && |immutables| == old(|immutables|) + 1 && immutables[1..] == old(immutables)
          && immutables[0].id == old(active.id) && immutables[0].size == size && active == Memtable(nextMemID, [], 0)
        else immutables == old(immutables) && active.id == old(active.id) && active.size == size
      ensures history == old(history) + (if logged then NewVersions(ops, old(nextSeq)) else iset{})
      ensures old(Tracks()) ==> Tracks()
    {
      hide Wf, WriteOps, OpsSize, Follows, NewVersions, Flat;
      ghost var s := Abs();
      var last := nextSeq;
      nextSeq := nextSeq + |ops|;
      if !logged {
        SkipKeepsWf(s, |ops|, keys, hash);
        FollowsSame(s, Skipped(s, |ops|), history);
        assert history + iset{} == history;
        return false;
      }
      WriteKeepsWf(s, ops, keys, hash);
      FollowsWrite(s, ops, keys, hash, history);
      history := history + NewVersions(ops, last);
      var es, size := InsertAll(active, ops, last);
      active := Memtable(active.id, es, size);
      if active.size >= opts.memtableSize {
        RotateMemtable();
      }
      return true;
    }

    /** A writer waits until the flusher, which takes the oldest memtable first, has made room. It
        waits for ever exactly if one of the memtables that must go holds an entry too large. */
    method WaitForFlushSpace() returns (room: bool)
      requires Valid() && forall m :: m in immutables ==> BloomFits(|m.entries|)
      modifies this
      ensures Valid() && Drained(old(Abs()), Abs())
      ensures room <==> CanMakeRoom(old(immutables), opts.maxImmutableCount)
      ensures room <==> |immutables| < opts.maxImmutableCount
      ensures history == old(history) && (old(Tracks()) ==> Tracks())
      ensures old(|immutables|) < opts.maxImmutableCount ==> Abs() == old(Abs())
    {
      hide Wf, Flat, TableValid, Follows, Flushable, BloomFits;
      DrainedNone(Abs());
      while |immutables| >= opts.maxImmutableCount
        invariant Valid() && Drained(old(Abs()), Abs())
        invariant forall i :: |immutables| <= i < |old(immutables)| ==> Flushable(old(immutables)[i])
        invariant |immutables| >= opts.maxImmutableCount - 1 || Abs() == old(Abs())
        invariant history == old(history) && (old(Tracks()) ==> Tracks())
        invariant old(|immutables|) < opts.maxImmutableCount ==> Abs() == old(Abs())
        decreases |immutables|
      {
        ghost var s := Abs();
        assert immutables[|immutables| - 1] == old(immutables)[|immutables| - 1];
        var t := FlushMemtable();
        if t.None? {
          return false;
        }
        DrainedMore(old(Abs()), s, t.value);
      }
      return true;
    }

    /** Freeze the active memtable and start a new one. */
    method RotateMemtable()
      requires Valid() && active.entries != []
      modifies this
      ensures Valid() && Abs() == Rotated(old(Abs())) && history == old(history) && (old(Tracks()) ==> Tracks())
    {
      hide Wf, Follows;
      RotateKeepsWf(Abs(), keys, hash);
      RotateFlat(Abs());
      FollowsSame(Abs(), Rotated(Abs()), history);
      immutables := [active] + immutables;
      nextMemID := nextMemID + 1;
      active := Memtable(nextMemID, [], 0);
    }

    method Put(key: Bytes, value: Bytes, logged: bool) returns (r: Outcome)
      requires Valid() && nextSeq < MAX_SEQ && key in keys
      requires forall m :: m in immutables ==> BloomFits(|m.entries|)
      modifies this
      ensures Valid() && (r.Waiting? <==> !CanMakeRoom(old(immutables), opts.maxImmutableCount))
      ensures !r.Waiting? ==> (r.Acknowledged? <==> logged)
      ensures old(|immutables|) < opts.maxImmutableCount ==>
        Abs() == if logged then AfterWrite(old(Abs()), [Op(key, Data(value))]) else Skipped(old(Abs()), 1)
      ensures
        if r.Waiting? then Drained(old(Abs()), Abs()) else WrittenAfter(old(Abs()), Op(key, Data(value)), logged, Abs())
      ensures history == old(history) +
        (if r.Acknowledged? then iset{VersionOf(Op(key, Data(value)), old(nextSeq) + 1)} else iset{})
      ensures old(Tracks()) ==> Tracks()
      ensures old(Tracks()) && r.Acknowledged? ==> nextSeq == old(nextSeq) + 1
      ensures old(Tracks()) && r.Acknowledged? ==>
        forall m: nat :: m >= nextSeq ==> ReadsBack(Flat(Abs()), key, m, Data(value))
    {
      hide Wf, Follows, MakeInternalKey, CanMakeRoom, Drained, WrittenAfter, ReadsBack, Flat;
      r := Write(Op(key, Data(value)), logged);
    }

    method Delete(key: Bytes, logged: bool) returns (r: Outcome)
      requires Valid() && nextSeq < MAX_SEQ && key in keys
      requires forall m :: m in immutables ==> BloomFits(|m.entries|)
      modifies this
      ensures Valid() && (r.Waiting? <==> !CanMakeRoom(old(immutables), opts.maxImmutableCount))
      ensures !r.Waiting? ==> (r.Acknowledged? <==> logged)
      ensures old(|immutables|) < opts.maxImmutableCount ==>
        Abs() == if logged then AfterWrite(old(Abs()), [Op(key, Tombstone)]) else Skipped(old(Abs()), 1)
      ensures
        if r.Waiting? then Drained(old(Abs()), Abs()) else WrittenAfter(old(Abs()), Op(key, Tombstone), logged, Abs())
      ensures history == old(history) +
        (if r.Acknowledged? then iset{VersionOf(Op(key, Tombstone), old(nextSeq) + 1)} else iset{})
      ensures old(Tracks()) ==> Tracks()
      ensures old(Tracks()) && r.Acknowledged? ==> nextSeq == old(nextSeq) + 1
      ensures old(Tracks()) && r.Acknowledged? ==>
        forall m: nat :: m >= nextSeq ==> ReadsBack(Flat(Abs()), key, m, Tombstone)
    {
      hide Wf, Follows, MakeInternalKey, CanMakeRoom, Drained, WrittenAfter, ReadsBack, Flat;
      r := Write(Op(key, Tombstone), logged);
    }

    /** What Put and Delete have in common. */
    method Write(op: Op, logged: bool) returns (r: Outcome)
      requires Valid() && nextSeq < MAX_SEQ && op.key in keys
      requires forall m :: m in immutables ==> BloomFits(|m.entries|)
      modifies this
      ensures Valid() && (r.Waiting? <==> !CanMakeRoom(old(immutables), opts.maxImmutableCount))
      ensures !r.Waiting? ==> (r.Acknowledged? <==> logged)
      ensures old(|immutables|) < opts.maxImmutableCount ==>
        Abs() == if logged then AfterWrite(old(Abs()), [op]) else Skipped(old(Abs()), 1)
      ensures if r.Waiting? then Drained(old(Abs()), Abs()) else WrittenAfter(old(Abs()), op, logged, Abs())
      ensures history == old(history) + (if r.Acknowledged? then iset{VersionOf(op, old(nextSeq) + 1)} else iset{})
      ensures old(Tracks()) ==> Tracks()
      ensures old(Tracks()) && r.Acknowledged? ==> nextSeq == old(nextSeq) + 1
      ensures old(Tracks()) && r.Acknowledged? ==>
        forall m: nat :: m >= nextSeq ==> ReadsBack(Flat(Abs()), op.key, m, op.value)
    {
      hide Wf, Follows, MakeInternalKey, Flushable, Flat, Drained, ReadsBack;
      OneVersion(op, nextSeq);
      assert history + iset{} == history;
      var room := WaitForFlushSpace();
      if !room {
        return Waiting;
      }
      DrainedSeq(old(Abs()), Abs());
      ghost var s := Abs();
      var ok := ApplyBatchLocked([op], logged);
      assert Drained(old(Abs()), s);
      r := if ok then Acknowledged else NotLogged;
      if ok && old(Tracks()) {
        forall m: nat | m >= nextSeq ensures ReadsBack(Flat(Abs()), op.key, m, op.value) {
          OwnWrite(old(Abs()), old(history), op, Abs(), history, keys, hash, m);
        }
      }
    }

    /** The oldest immutable memtable becomes the newest L0 table, unless the table builder refuses
        one of its entries. */
    method FlushMemtable() returns (t: Option<Table>)
      requires Valid() && immutables != []
      requires BloomFits(|immutables[|immutables| - 1].entries|)
      modifies this
      ensures Valid() && (t.None? <==> !Flushable(old(immutables[|immutables| - 1])))
      ensures t.None? ==> Abs() == old(Abs())
      ensures t.Some? ==>
        && TableValid(t.value, hash) && t.value.id == old(immutables[|immutables| - 1].id)
        && t.value.entries == old(immutables[|immutables| - 1].entries) && Abs() == Flushed(old(Abs()), t.value)
      ensures history == old(history) && (old(Tracks()) ==> Tracks())
    {
      hide Wf, TableValid, Sorted, Follows, BloomFits;
      var mt := immutables[|immutables| - 1];
      if exists i :: 0 <= i < |mt.entries| && !B.EntryFits(mt.entries[i]) {
        return None;
      }
      OldestOk(Abs(), keys, hash);
      var table := FinishTable(mt.id, mt.entries, hash, fileSize);
      FlushKeepsWf(Abs(), table, keys, hash);
      FlushFlat(Abs(), table);
      FollowsSame(Abs(), Flushed(Abs(), table), history);
      l0 := [table] + l0;
      immutables := immutables[..|immutables| - 1];
      t := Some(table);
    }

    /** Flush, oldest first, until nothing is left or the oldest memtable cannot be flushed. */
    method FlushImmutables()
      requires Valid()
      requires forall m :: m in immutables ==> BloomFits(|m.entries|)
      modifies this
      ensures Valid() && immutables <= old(immutables)
      ensures forall i :: |immutables| <= i < |old(immutables)| ==> Flushable(old(immutables)[i])
      ensures immutables == [] || !Flushable(immutables[|immutables| - 1])
      ensures Flat(Abs()) == old(Flat(Abs()))
      ensures active == old(active) && levels == old(levels) && nextSeq == old(nextSeq) && inFlight == old(inFlight)
      ensures |l0| + |immutables| == old(|l0| + |immutables|)
      ensures history == old(history) && (old(Tracks()) ==> Tracks())
    {
      hide Wf, Flat, TableValid, Follows, Flushable, BloomFits;
      while immutables != []
        invariant Valid() && immutables <= old(immutables)
        invariant forall i :: |immutables| <= i < |old(immutables)| ==> Flushable(old(immutables)[i])
        invariant Flat(Abs()) == old(Flat(Abs()))
        invariant active == old(active) && levels == old(levels) && nextSeq == old(nextSeq) && inFlight == old(inFlight)
        invariant |l0| + |immutables| == old(|l0| + |immutables|)
        invariant history == old(history) && (old(Tracks()) ==> Tracks())
        decreases |immutables|
      {
        ghost var s := Abs();
        assert immutables[|immutables| - 1] == old(immutables)[|immutables| - 1];
        var t := FlushMemtable();
        if t.None? {
          return;
        }
        FlushFlat(s, t.value);
      }
    }

    /** getAt: active, immutables, L0, L1 and below; stop at the first hit. That is the newest
        acknowledged version the read may see. */
    method GetAt(key: Bytes, maxSeq: nat) returns (r: Option<Value>)
      requires Valid()
      ensures r == Found(FirstVisible(Flat(Abs()), key, maxSeq))
      ensures Tracks() ==> ReadsNewest(history, key, maxSeq, FirstVisible(Flat(Abs()), key, maxSeq))
      ensures Tracks() ==> Answers(history, key, maxSeq, r)
    {
      FollowsReads(Abs(), history, key, maxSeq);
      hide Follows, ReadsNewest, Answers;
      hide FirstVisible, TableValid, TablesFlat, MemsFlat, Concat, Searched, UniqueKeys, SeqNum, IdsOk, InFlightOk;
      ghost var s := Abs();
      ghost var mems, low, deep := MemsFlat(s.immutables), TablesFlat(s.l0), TablesFlat(Concat(Deeper(s.levels)));
      SearchParts(s, hash);
      FirstVisibleConcat(s.active.entries, mems + (low + deep), key, maxSeq);
      FirstVisibleConcat(mems, low + deep, key, maxSeq);
      FirstVisibleConcat(low, deep, key, maxSeq);
      var hit := FirstVisible(active.entries, key, maxSeq);
      if hit.Some? {
        return Some(hit.value.value);
      }
      hit := SearchMemtables(immutables, key, maxSeq);
      if hit.Some? {
        return Some(hit.value.value);
      }
      hit := SearchTables(l0, hash, key, maxSeq);
      if hit.Some? {
        return Some(hit.value.value);
      }
      hit := SearchLevels(Deeper(levels), hash, key, maxSeq);
      if hit.Some? {
        return Some(hit.value.value);
      }
      return None;
    }

    /** Scan at a snapshot: one entry per readable user key, in order, equal to what GetAt finds.
        It fails to be that exactly if the empty user key has more than one visible version. */
    method Scan(maxSeq: nat) returns (out: seq<Entry>)
      requires Valid() && Tracks()
      ensures AgreesWithReads(out, Flat(Abs()), maxSeq) <==> |VisibleVersions(Flat(Abs()), [], maxSeq)| <= 1
      ensures exists merged :: Sorting(merged, Flat(Abs())) && out == Emitted(merged, None, maxSeq)
    {
      hide FirstVisible, Sorted, Ordered, VersionsDescend, SeparableSpace, Sources, Flat, UserKeysAscend, UniqueKeys,
        SeqNum, IdsOk, InFlightOk, InSpace, Emitted, UserKey, VisibleVersions;
      ghost var s := Abs();
      SourcesOrdered(s, hash);
      SourcesFlat(s);
      var merged := MergeAll(Sources(Abs()));
      OrderedUniqueIsSorted(merged);
      forall u: Bytes ensures FirstVisible(merged, u, maxSeq) == FirstVisible(Flat(s), u, maxSeq) {
        MergedReads(Flat(s), merged, keys, u, maxSeq);
      }
      MergedReads(Flat(s), merged, keys, [], maxSeq);
      out := SnapshotScan(merged, maxSeq);
      assert Sorting(merged, Flat(s));
      ScanAgreesIff(merged, maxSeq, keys);
      VisibleCount(merged, Flat(s), [], maxSeq);
    }

    /** What the picker finds, and that it lies within the store. */
    method PickTask() returns (task: Option<Task>)
      requires Valid() && opts.compaction.maxLevels >= 2
      ensures Picked(LevelState(l0, levels), opts.compaction, task)
      ensures task.Some? <==> NeedsCompaction(LevelState(l0, levels), opts.compaction)
      ensures task.Some? ==>
        && task.value.outputLevel < |levels|
        && (L0Task(LevelState(l0, levels), task.value) || LevelTask(LevelState(l0, levels), task.value))
        && TablesValid(task.value.inputs + task.value.overlapping, hash)
        && UniqueKeys(multiset(TablesFlat(task.value.inputs + task.value.overlapping)))
    {
      hide Wf, L0Task, LevelTask, NeedsCompaction, Outgrown, TablesFlat, UniqueKeys, TableValid;
      task := PickCompaction(LevelState(l0, levels), opts.compaction);
      PickedIff(LevelState(l0, levels), opts.compaction, task);
      if task.Some? {
        PickedWithin(Abs(), opts.compaction, task.value);
        TaskWithinState(Abs(), task.value, keys, hash);
      }
    }

    /** Pick a compaction and execute it; the result waits to be applied. */
    method LaunchCompaction() returns (started: bool)
      requires Valid() && inFlight.None? && opts.compaction.maxLevels >= 2
      requires forall task, run :: Picked(LevelState(l0, levels), opts.compaction, Some(task)) && Merges(run, task) ==>
        FiltersFit(Pieces(run, estimate, TargetFileSize()))
      modifies this
      ensures Valid()
      ensures !started ==> Abs() == old(Abs())
      ensures started ==>
        && inFlight.Some? && Picked(LevelState(old(l0), old(levels)), opts.compaction, Some(inFlight.value.task))
        && CutFrom(inFlight.value, estimate, TargetFileSize())
        && var s := Reserved(old(Abs()), |inFlight.value.newTables|);
           Executed(s, inFlight.value, hash) && Abs() == Launched(s, inFlight.value)
      ensures started <==> NeedsCompaction(LevelState(old(l0), old(levels)), opts.compaction)
      ensures history == old(history) && (old(Tracks()) ==> Tracks())
    {
      hide Follows, Wf, Flat, Picked, NeedsCompaction, L0Task, LevelTask, Executed, UniqueKeys, TablesFlat, TableValid,
        Sorted, CutAt, FiltersFit, Pieces, IdsOk, AllSorted;
      ghost var s := Abs();
      var task := PickTask();
      if task.None? {
        return false;
      }
      var newTables, lastId, merged := Execute(task.value, hash, estimate, fileSize, TargetFileSize(), nextMemID);
      ghost var r := Result(task.value, newTables.value);
      WfParts(s, keys, hash);
      ExecutedAtOnce(s, r, hash);
      ReserveKeeps(s, |newTables.value|, keys, hash);
      LaunchKeeps(Reserved(s, |newTables.value|), r, keys, hash);
      FollowsSame(s, Launched(Reserved(s, |newTables.value|), r), history);
      inFlight := Some(Result(task.value, newTables.value));
      nextMemID := lastId;
      return true;
    }

    /** int64(LevelSizeBase) / 10, which truncates, as a uint64. */
    function TargetFileSize(): (size: nat)
      ensures opts.compaction.levelSizeBase >= 0 ==> 10 * size <= opts.compaction.levelSizeBase < 10 * size + 10
    {
      var base := opts.compaction.levelSizeBase;
      if base >= 0 then base / 10 else (-((-base) / 10)) % U64
    }

    /** Swap the obsolete tables for the new ones. Reads stay right exactly if no user key is torn
        between what moves down and what stays behind. */
    method ApplyCompactionResult()
      requires Valid() && inFlight.Some?
      modifies this
      ensures Valid() && Abs() == Applied(old(Abs())) && history == old(history)
      ensures old(Tracks()) ==> (Tracks() <==> !Tears(old(Abs())))
    {
      hide Wf, Flat, IdsOf, DropIds, SortTables, Follows;
      ghost var s := Abs();
      ApplyKeepsVersions(s, keys, hash);
      FollowsApply(s, keys, hash, history);
      var task, newTables := inFlight.value.task, inFlight.value.newTables;
      var obsolete := IdsOf(task.inputs + task.overlapping);
      if task.inputLevel == 0 {
        l0 := DropObsolete(l0, obsolete);
      } else if task.inputLevel < |levels| {
        var kept := DropObsolete(levels[task.inputLevel], obsolete);
        levels := levels[task.inputLevel := kept];
      }
      if task.outputLevel < |levels| {
        var kept := DropObsolete(levels[task.outputLevel], obsolete);
        levels := levels[task.outputLevel := SortTables(kept + newTables)];
      }
      inFlight := None;
    }

    /** One round of the loop: t is the state in which the result was applied. */
    method CompactOnce() returns (started: bool, ghost t: State)
      requires Valid() && inFlight.None? && opts.compaction.maxLevels >= 2
      requires FewEnough(|Flat(Abs())|, estimate, TargetFileSize())
      modifies this
      ensures Valid() && inFlight.None? && history == old(history)
      ensures active == old(active) && immutables == old(immutables) && nextSeq == old(nextSeq)
      ensures !started ==> Abs() == old(Abs()) && !NeedsCompaction(LevelState(l0, levels), opts.compaction)
      ensures started ==> t.inFlight.Some? && Launches(old(Abs()), t, hash) && Abs() == Applied(t)
      ensures started ==> Potential(Abs()) < old(Potential(Abs())) && (old(Tracks()) ==> (Tracks() <==> !Tears(t)))
      ensures multiset(Flat(Abs())) == old(multiset(Flat(Abs())))
    {
      hide Wf, Flat, Potential, Executed, NeedsCompaction, Follows, Tears, FewEnough, ApplyLevels;
      ghost var s := Abs();
      PickedFits(s, opts.compaction, keys, hash, estimate, TargetFileSize());
      started := LaunchCompaction();
      t := Abs();
      if !started {
        return;
      }
      LaunchedSame(s, |inFlight.value.newTables|, inFlight.value);
      ApplyKeepsVersions(t, keys, hash);
      ApplyLowersPotential(t, keys, hash);
      ApplyCompactionResult();
    }

    /** Compact until nothing needs compaction. Terminates, keeps every stored version, and leaves
        no level that the picker would take. ts are the states in which results were applied, one
        after the other: up to the first that tears a key reads stay right, and no further. */
    method RunCompaction() returns (ghost ts: seq<State>)
      requires Valid() && inFlight.None? && opts.compaction.maxLevels >= 2
      requires FewEnough(|Flat(Abs())|, estimate, TargetFileSize())
      modifies this
      ensures Valid() && inFlight.None? && Compacts(old(Abs()), ts, Abs(), hash)
      ensures multiset(Flat(Abs())) == old(multiset(Flat(Abs())))
      ensures !NeedsCompaction(LevelState(l0, levels), opts.compaction)
      ensures active == old(active) && immutables == old(immutables) && nextSeq == old(nextSeq)
      ensures history == old(history) && (old(Tracks()) ==> RightUntilTorn(Tracks(), ts))
    {
      hide Wf, Flat, Potential, NeedsCompaction, Follows, Tears, FewEnough, Launches, Applied, Compacts, RightUntilTorn;
      ts := [];
      NoCompactions(Abs(), hash, Tracks());
      while true
        invariant Valid() && inFlight.None? && Compacts(old(Abs()), ts, Abs(), hash)
        invariant multiset(Flat(Abs())) == old(multiset(Flat(Abs())))
        invariant active == old(active) && immutables == old(immutables) && nextSeq == old(nextSeq)
        invariant history == old(history) && (old(Tracks()) ==> RightUntilTorn(Tracks(), ts))
        decreases Potential(Abs())
      {
        ghost var s, tracked := Abs(), Tracks();
        SameLength(Flat(s), old(Flat(Abs())));
        var started, t := CompactOnce();
        if !started {
          return;
        }
        CompactsNext(old(Abs()), ts, s, t, hash);
        if old(Tracks()) { RightNext(tracked, Tracks(), ts, t); }
        ts := ts + [t];
      }
    }
  }

  /** Reads are right as long as no compaction tore a key, and are not once the last one did. */
  ghost predicate RightUntilTorn(right: bool, ts: seq<State>) {
    (forall i :: 0 <= i < |ts| - 1 ==> !Tears(ts[i])) ==> (right <==> ts == [] || !Tears(ts[|ts| - 1]))
  }

  lemma {:induction false} RightNext(before: bool, after: bool, ts: seq<State>, t: State)
    requires RightUntilTorn(before, ts) && (before ==> (after <==> !Tears(t)))
    ensures RightUntilTorn(after, ts + [t])
  {
    hide Tears;
    var us := ts + [t];
    assert forall i :: 0 <= i < |ts| ==> us[i] == ts[i];
    if forall i :: 0 <= i < |us| - 1 ==> !Tears(us[i]) {
      assert forall i :: 0 <= i < |ts| ==> !Tears(ts[i]);
    }
  }

  lemma {:induction false} NoCompactions(s: State, hash: Bytes -> Word32, right: bool)
    ensures Compacts(s, [], s, hash) && (right ==> RightUntilTorn(right, []))
  {
  }

  lemma {:induction false} WfParts(s: State, keys: iset<Bytes>, hash: Bytes -> Word32)
    requires Wf(s, keys, hash)
    ensures IdsOk(s)
  {
    hide IdsOk, UniqueKeys, LevelsOk, MemsOk, InFlightOk, SeparableSpace;
  }

  /** The new tables are the merged inputs, each cut as soon as it reaches the target size. */
  ghost predicate CutFrom(r: Result, estimate: seq<Entry> -> nat, target: nat) {
    exists merged :: Merges(merged, r.task) && EntryLists(r.newTables) == Pieces(merged, estimate, target)
  }

  /** A compaction picked and executed in s, waiting to be applied in t. */
  ghost predicate Launches(s: State, t: State, hash: Bytes -> Word32) {
    && t.inFlight.Some?
    && var s' := Reserved(s, |t.inFlight.value.newTables|);
       Executed(s', t.inFlight.value, hash) && t == Launched(s', t.inFlight.value)
  }

  /** The state after the first n results were applied. */
  function AppliedUpTo(s: State, ts: seq<State>, n: nat): State
    requires n <= |ts| && forall i :: 0 <= i < |ts| ==> ts[i].inFlight.Some?
  {
    if n == 0 then s else Applied(ts[n - 1])
  }

  /** From one state to another by compactions launched and applied one after the other. */
  ghost predicate Compacts(s: State, ts: seq<State>, s': State, hash: Bytes -> Word32) {
    && (forall i :: 0 <= i < |ts| ==> ts[i].inFlight.Some?)
    && (forall i :: 0 <= i < |ts| ==> Launches(AppliedUpTo(s, ts, i), ts[i], hash))
    && s' == AppliedUpTo(s, ts, |ts|)
  }

  lemma {:induction false} CompactsNext(s: State, ts: seq<State>, s': State, t: State, hash: Bytes -> Word32)
    requires Compacts(s, ts, s', hash) && t.inFlight.Some? && Launches(s', t, hash)
    ensures Compacts(s, ts + [t], Applied(t), hash)
  {
    hide Launches, Applied;
    var us := ts + [t];
    assert forall i :: 0 <= i < |us| ==> us[i] == if i < |ts| then ts[i] else t;
    forall i | 0 <= i < |us| ensures Launches(AppliedUpTo(s, us, i), us[i], hash) {
      assert AppliedUpTo(s, us, i) == AppliedUpTo(s, ts, i);
    }
  }

  /** In a small store, or with small tables, no filter is too large. */
  lemma {:induction false} PickedFits(s: State, cfg: Config, keys: iset<Bytes>, hash: Bytes -> Word32,
                                      estimate: seq<Entry> -> nat, target: nat)
    requires Wf(s, keys, hash) && |s.levels| == cfg.maxLevels && cfg.maxLevels >= 2
    requires FewEnough(|Flat(s)|, estimate, target)
    ensures forall task, run :: Picked(LevelState(s.l0, s.levels), cfg, Some(task)) && Merges(run, task) ==>
      FiltersFit(Pieces(run, estimate, target))
  {
    hide Wf, Flat, L0Task, LevelTask, FiltersFit, Pieces, TablesFlat;
    forall task, run | Picked(LevelState(s.l0, s.levels), cfg, Some(task)) && Merges(run, task)
      ensures FiltersFit(Pieces(run, estimate, target))
    {
      PickedWithin(s, cfg, task);
      TaskWithinState(s, task, keys, hash);
      SameLength(run, TablesFlat(task.inputs + task.overlapping));
      FewFit(run, estimate, target);
    }
  }

  lemma {:induction false} PickedWithin(s: State, cfg: Config, task: Task)
    requires Picked(LevelState(s.l0, s.levels), cfg, Some(task)) && |s.levels| == cfg.maxLevels && cfg.maxLevels >= 2
    ensures task.outputLevel < |s.levels|
    ensures L0Task(LevelState(s.l0, s.levels), task) || LevelTask(LevelState(s.l0, s.levels), task)
  {
    hide Spans, Overlapping, Overfull;
  }

  lemma {:induction false} OldestOk(s: State, keys: iset<Bytes>, hash: Bytes -> Word32)
    requires Wf(s, keys, hash) && s.immutables != []
    ensures var m := s.immutables[|s.immutables| - 1]; m.entries != [] && Sorted(m.entries)
  {
    assert s.immutables[|s.immutables| - 1] in s.immutables;
  }

  lemma {:induction false} LaunchedSame(s: State, n: nat, r: Result)
    ensures var s' := Launched(Reserved(s, n), r); Flat(s') == Flat(s) && Potential(s') == Potential(s)
  {
    SameSearched(s, Launched(Reserved(s, n), r));
  }

  /** Some level, L0 first, has outgrown its limit and can be compacted. */
  ghost predicate NeedsCompaction(state: LevelState, cfg: Config) {
    if |state.l0| >= cfg.l0Trigger then state.l0 != []
    else exists n :: UnfinishedRun(state, cfg, n)
  }

  /** The shallowest overfull level has a table to move. */
  ghost predicate UnfinishedRun(state: LevelState, cfg: Config, n: nat) {
    FirstOverfull(state, cfg, n) && n < |state.levels| && state.levels[n] != []
  }

  /** Compaction is needed exactly if L0 is at its trigger, or else a level holds tables with more
      bytes in all than base * multiplier^(level - 1) and no shallower one does. */
  lemma {:induction false} NeedsCompactionIff(state: LevelState, cfg: Config)
    requires |state.levels| == cfg.maxLevels
    ensures NeedsCompaction(state, cfg) <==>
      if |state.l0| >= cfg.l0Trigger then state.l0 != []
      else exists n :: 1 <= n < cfg.maxLevels - 1 && ShallowestOutgrown(state, cfg, n) && state.levels[n] != []
  {
    hide Overfull, Outgrown;
    forall n: nat | 1 <= n < |state.levels|
      ensures Overfull(state, cfg, n) <==> Outgrown(cfg, state.levels[n], n)
    {
      OverfullIs(state, cfg, n);
    }
    forall n: nat | 1 <= n < cfg.maxLevels - 1 && state.levels[n] != []
      ensures UnfinishedRun(state, cfg, n) <==> ShallowestOutgrown(state, cfg, n)
    {
    }
    if n: nat :| UnfinishedRun(state, cfg, n) {
      assert ShallowestOutgrown(state, cfg, n);
    }
  }

  ghost predicate ShallowestOutgrown(state: LevelState, cfg: Config, n: nat) {
    && 1 <= n < |state.levels| && Outgrown(cfg, state.levels[n], n)
    && forall m :: 1 <= m < n ==> !Outgrown(cfg, state.levels[m], m)
  }

  lemma {:induction false} PickedIff(state: LevelState, cfg: Config, task: Option<Task>)
    requires Picked(state, cfg, task)
    ensures task.Some? <==> NeedsCompaction(state, cfg)
  {
    hide FirstOverfull, Overlapping;
    if |state.l0| < cfg.l0Trigger && task.Some? {
      assert UnfinishedRun(state, cfg, task.value.inputLevel);
    }
  }
}
