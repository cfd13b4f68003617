/**
Every step of the engine keeps a well-formed, age-ordered state and acts on the stored
versions as the abstract history says.
*/
module EngineSteps {
  import opened Bytes
  import opened Keys
  import opened Versions
  import opened Tables
  import opened Iterators
  import opened AgeOrder
  import opened Compaction
  import opened LevelMerge
  import opened Engine
  import opened EngineApply

  /** Well-formed and age-ordered: first-hit reads are right. */
  ghost predicate Inv(s: State, keys: iset<Bytes>, hash: Bytes -> Word32) {
    Wf(s, keys, hash) && VersionsDescend(Flat(s))
  }

  // ----- identifiers as bags -----

  ghost predicate AtMostOnce(bag: multiset<nat>) {
    forall x :: bag[x] <= 1
  }

  lemma {:induction false} OneEachBag(ids: seq<nat>)
    requires OneEach(ids)
    ensures AtMostOnce(multiset(ids))
  {
    if ids != [] {
      assert ids == [ids[0]] + ids[1..];
      OneEachBag(ids[1..]);
      assert ids[0] !in ids[1..];
      assert multiset(ids[1..])[ids[0]] == 0;
    }
  }

  lemma {:induction false} BagOneEach(ids: seq<nat>)
    requires AtMostOnce(multiset(ids))
    ensures OneEach(ids)
  {
    forall i, j | 0 <= i < j < |ids| ensures ids[i] != ids[j] {
      if ids[i] == ids[j] { RepeatedElement(ids, i, j); }
    }
  }

  ghost function Bag(ts: seq<Table>): multiset<nat> {
    multiset(TableIds(ts))
  }

  lemma {:induction false} BagConcat(a: seq<Table>, b: seq<Table>)
    ensures Bag(a + b) == Bag(a) + Bag(b)
  {
    TableIdsConcat(a, b);
  }

  lemma {:induction false} SplitBags(c: Split, newTables: seq<Table>)
    ensures Bag(After(c, newTables)) <= Bag(Before(c)) + Bag(newTables)
  {
    hide Bag;
    var old_, new_ := c.left + (c.overlap + c.right), c.left + (newTables + c.right);
    BagConcat(c.above, c.moved + (c.passed + (old_ + c.below)));
    BagConcat(c.moved, c.passed + (old_ + c.below));
    BagConcat(c.passed, old_ + c.below);
    BagConcat(old_, c.below);
    BagConcat(c.left, c.overlap + c.right);
    BagConcat(c.overlap, c.right);
    BagConcat(c.above, c.passed + (new_ + c.below));
    BagConcat(c.passed, new_ + c.below);
    BagConcat(new_, c.below);
    BagConcat(c.left, newTables + c.right);
    BagConcat(newTables, c.right);
  }

  lemma {:induction false} AllIdsBag(s: State)
    ensures multiset(AllIds(s)) ==
            multiset([s.active.id]) + multiset(MemIds(s.immutables)) + Bag(Searched(s)) + Bag(NewTables(s))
  {
    hide MemIds, TableIds, Searched;
  }

  lemma {:induction false} SubBagOk(s: State, s': State)
    requires IdsOk(s) && multiset(AllIds(s')) <= multiset(AllIds(s)) && s'.nextMemID >= s.nextMemID
    ensures IdsOk(s')
  {
    hide AllIds, OneEach;
    OneEachBag(AllIds(s));
    BagOneEach(AllIds(s'));
    forall id | id in AllIds(s') ensures id <= s'.nextMemID {
      assert id in multiset(AllIds(s'));
      assert id in multiset(AllIds(s));
      assert id in AllIds(s);
    }
  }

  lemma {:induction false} ApplyKeepsIds(s: State, c: Split)
    requires IdsOk(s) && s.inFlight.Some?
    requires Searched(s) == Before(c) && Searched(Applied(s)) == After(c, s.inFlight.value.newTables)
    ensures IdsOk(Applied(s))
  {
    hide Searched, Before, After, AllIds, Bag, MemIds, IdsOk;
    var s' := Applied(s);
    SplitBags(c, s.inFlight.value.newTables);
    AllIdsBag(s);
    AllIdsBag(s');
    EmptyBag();
    SubBagOk(s, s');
  }

  lemma {:induction false} EmptyBag()
    ensures Bag([]) == multiset{}
  {
  }

  // ----- applying a compaction -----

  /** A compaction keeps exactly the stored versions, and a well-formed state. */
  lemma {:induction false} ApplyKeepsVersions(s: State, keys: iset<Bytes>, hash: Bytes -> Word32)
    requires Wf(s, keys, hash) && s.inFlight.Some?
    ensures multiset(Flat(Applied(s))) == multiset(Flat(s))
    ensures Wf(Applied(s), keys, hash)
  {
    hide Sorted, UniqueKeys, SeqNum, UserKey, KeyInSpace, MemsOk, Spans, Overlapping, Searched,
      SeparableSpace, TablesFlat, IdsOk, TableValid, Before, After;
    var s' := Applied(s);
    var new_ := s.inFlight.value.newTables;
    var c := ApplySplit(s, keys, hash);
    SplitKeepsEntries(c, new_);
    assert multiset(Flat(s')) == multiset(Flat(s));
    SameElements(Flat(s'), Flat(s));
    NonEmptyParts(s, c, new_, hash);
    ApplyKeepsIds(s, c);
    MemsOkSame(s, s');
  }

  lemma {:induction false} MemsOkSame(s: State, s': State)
    requires MemsOk(s) && s'.active == s.active && s'.immutables == s.immutables
    ensures MemsOk(s')
  {
  }

  /** After a compaction, first-hit reads are still right for all keys and snapshots exactly when
      no user key has versions both in what moved down and in what stayed behind. */
  lemma {:induction false} ApplyReadsIff(s: State, keys: iset<Bytes>, hash: Bytes -> Word32)
    requires Inv(s, keys, hash) && s.inFlight.Some?
    ensures AllReadsNewest(Flat(Applied(s)))
            <==> NoSharedKey(TablesFlat(s.inFlight.value.task.inputs), TablesFlat(LeftBehind(s)))
    ensures VersionsDescend(Flat(Applied(s))) <==> AllReadsNewest(Flat(Applied(s)))
  {
    hide Sorted, UniqueKeys, SeqNum, UserKey, Spans, Overlapping, Searched,
      SeparableSpace, TablesFlat, TableValid, Before, After, VersionsDescend, AllReadsNewest, NoSharedKey, MemsFlat,
      InFlightOk, LevelsOk, IdsOk, MemsOk, LeftBehind;
    var s' := Applied(s);
    var new_ := s.inFlight.value.newTables;
    var c := ApplySplit(s, keys, hash);
    ApplyKeepsVersions(s, keys, hash);
    var mems := s.active.entries + MemsFlat(s.immutables);
    assert Flat(s) == mems + TablesFlat(Before(c));
    assert Flat(s') == mems + TablesFlat(After(c, new_));
    assert forall e :: e in TablesFlat(After(c, new_)) ==> e in Flat(s');
    assert multiset(TablesFlat(new_)) == multiset(TablesFlat(c.moved + c.overlap)) by { InFlightEntries(s, hash); }
    SplitAgeOrder(mems, c, new_, keys);
    ReadsNewestIffDescend(Flat(s'));
  }

  lemma {:induction false} InFlightEntries(s: State, hash: Bytes -> Word32)
    requires s.inFlight.Some? && InFlightOk(s, s.inFlight.value, hash)
    ensures var r := s.inFlight.value;
            multiset(TablesFlat(r.newTables)) == multiset(TablesFlat(r.task.inputs + r.task.overlapping))
  {
  }

  /** Two age-ordered stores with the same visible versions of a key give the same answer. */
  lemma {:induction false} ReadsAgree(es: seq<Entry>, fs: seq<Entry>, u: Bytes, m: nat)
    requires VersionsDescend(es) && VersionsDescend(fs)
    requires forall e :: Visible(e, u, m) ==> (e in es <==> e in fs)
    requires forall e :: e in es || e in fs ==> |e.key| >= SEQ_SIZE
    ensures FirstVisible(es, u, m) == FirstVisible(fs, u, m)
  {
    hide UserKey, SeqNum, FirstVisible, VersionsDescend;
    FirstVisibleIsNewest(es, u, m);
    FirstVisibleIsNewest(fs, u, m);
    var a, b := FirstVisible(es, u, m), FirstVisible(fs, u, m);
    if a.Some? && b.Some? {
      assert a.value in fs && b.value in es;
      assert a.value in Elements(fs) && b.value in Elements(es);
      SameVersion(a.value, b.value);
      DescendUnique(es);
      assert a.value in multiset(es) && b.value in multiset(es);
    }
  }

  /** Applying a compaction that tears no key changes no read at any snapshot. */
  lemma {:induction false} ApplyKeepsReads(s: State, keys: iset<Bytes>, hash: Bytes -> Word32, u: Bytes, m: nat)
    requires Inv(s, keys, hash) && s.inFlight.Some?
    requires NoSharedKey(TablesFlat(s.inFlight.value.task.inputs), TablesFlat(LeftBehind(s)))
    ensures Inv(Applied(s), keys, hash)
    ensures FirstVisible(Flat(Applied(s)), u, m) == FirstVisible(Flat(s), u, m)
  {
    hide VersionsDescend, AllReadsNewest, NoSharedKey, Flat, UniqueKeys, SeqNum, UserKey, FirstVisible, LevelsOk,
      InFlightOk, IdsOk, MemsOk, LeftBehind, SeparableSpace;
    ApplyKeepsVersions(s, keys, hash);
    ApplyReadsIff(s, keys, hash);
    SameElements(Flat(Applied(s)), Flat(s));
    ReadsAgree(Flat(Applied(s)), Flat(s), u, m);
  }

  /** From L0 nothing stays behind, so the condition always holds. */
  lemma {:induction false} L0AlwaysSafe(s: State)
    requires s.inFlight.Some? && s.inFlight.value.task.inputLevel == 0
    ensures NoSharedKey(TablesFlat(s.inFlight.value.task.inputs), TablesFlat(LeftBehind(s)))
  {
  }

  /** Compacting L0 preserves meaning: exactly the stored versions are kept, every level stays
      sorted with disjoint tables, and no read changes, for any key and snapshot. */
  lemma {:induction false} L0Preserves(s: State, keys: iset<Bytes>, hash: Bytes -> Word32, u: Bytes, m: nat)
    requires Inv(s, keys, hash) && s.inFlight.Some? && s.inFlight.value.task.inputLevel == 0
    ensures multiset(Flat(Applied(s))) == multiset(Flat(s))
    ensures forall n :: 1 <= n < |Applied(s).levels| ==>
      Sorted(TablesFlat(Applied(s).levels[n])) && StrictlyByFirstKey(Applied(s).levels[n])
    ensures FirstVisible(Flat(Applied(s)), u, m) == FirstVisible(Flat(s), u, m)
  {
    hide VersionsDescend, NoSharedKey, Flat, UniqueKeys, FirstVisible, InFlightOk, IdsOk, MemsOk, LeftBehind,
      SeparableSpace, AllInSpace, Sorted, TablesFlat, Applied, LevelsOk, StrictlyByFirstKey;
    L0AlwaysSafe(s);
    ApplyKeepsVersions(s, keys, hash);
    ApplyKeepsReads(s, keys, hash, u, m);
    forall n | 1 <= n < |Applied(s).levels|
      ensures Sorted(TablesFlat(Applied(s).levels[n])) && StrictlyByFirstKey(Applied(s).levels[n])
    {
      LevelDisjoint(Applied(s), hash, n);
    }
  }

  lemma {:induction false} LevelDisjoint(s: State, hash: Bytes -> Word32, n: nat)
    requires LevelsOk(s, hash) && 1 <= n < |s.levels|
    ensures Sorted(TablesFlat(s.levels[n])) && StrictlyByFirstKey(s.levels[n])
  {
    hide Sorted, TablesFlat, StrictlyByFirstKey, Concat;
    ConcatAt(Deeper(s.levels), n - 1);
    forall t | t in s.levels[n] ensures t.entries != [] {
      assert t in Concat(Deeper(s.levels));
      assert t in Searched(s);
    }
    SortedLevelByFirstKey(s.levels[n]);
  }

  // ----- writing -----

  /** The versions a batch adds: one per operation, numbered consecutively. */
  ghost function NewVersions(ops: seq<Op>, lastSeq: nat): iset<Entry>
    requires lastSeq + |ops| <= MAX_SEQ
    decreases ops
  {
    if ops == [] then iset{}
    else iset{VersionOf(ops[0], lastSeq + 1)} + NewVersions(ops[1..], lastSeq + 1)
  }

  lemma {:induction false} NewVersionsSeqs(ops: seq<Op>, lastSeq: nat)
    requires lastSeq + |ops| <= MAX_SEQ
    ensures forall e :: e in NewVersions(ops, lastSeq) ==> lastSeq < SeqOf(e) <= lastSeq + |ops|
    decreases ops
  {
    hide SeqNum;
    if ops != [] {
      SplitOfMake(ops[0].key, lastSeq + 1);
      NewVersionsSeqs(ops[1..], lastSeq + 1);
    }
  }

  lemma {:induction false} WriteOpKeepsWf(es: seq<Entry>, rest: seq<Entry>, op: Op, lastSeq: nat, keys: iset<Bytes>)
    requires lastSeq < MAX_SEQ && op.key in keys
    requires UniqueKeys(multiset(es + rest)) && Sorted(es) && AllInSpace(es + rest, keys)
    requires forall e :: e in es + rest ==> SeqOf(e) <= lastSeq
    ensures var es' := Insert(es, VersionOf(op, lastSeq + 1));
      && Sorted(es') && UniqueKeys(multiset(es' + rest)) && AllInSpace(es' + rest, keys)
      && (forall e :: e in es' + rest ==> SeqOf(e) <= lastSeq + 1)
      && (forall e :: e in es' + rest <==> e in es + rest || e == VersionOf(op, lastSeq + 1))
  {
    hide UserKey, SeqNum, Less, Insert, MakeInternalKey, UniqueKeys;
    var v := VersionOf(op, lastSeq + 1);
    SplitOfMake(op.key, lastSeq + 1);
    forall e | e in es + rest ensures e.key != v.key {
      assert SeqOf(e) != SeqOf(v);
    }
    forall i | 0 <= i < |es| ensures es[i].key != v.key {
      assert es[i] in es + rest;
    }
    InsertKeepsSorted(es, v);
    InsertedInto(es, rest, v);
    UniqueWith(multiset(es + rest), v);
  }

  lemma {:induction false} InsertedInto(es: seq<Entry>, rest: seq<Entry>, v: Entry)
    ensures multiset(Insert(es, v) + rest) == multiset(es + rest) + multiset{v}
    ensures forall e :: e in Insert(es, v) + rest <==> e in es + rest || e == v
    ensures forall e :: e in multiset(es + rest) <==> e in es + rest
  {
    hide Insert;
    InsertKeepsElements(es, v);
    forall e ensures e in Insert(es, v) + rest <==> e in es + rest || e == v {
      assert e in multiset(Insert(es, v) + rest) <==> e in multiset(es + rest) + multiset{v};
    }
  }

  lemma {:induction false} UniqueWith(m: multiset<Entry>, v: Entry)
    requires UniqueKeys(m) && forall x :: x in m ==> x.key != v.key
    ensures UniqueKeys(m + multiset{v})
  {
    assert v !in m;
  }

  lemma {:induction false} WriteOpsKeepWf(es: seq<Entry>, rest: seq<Entry>, ops: seq<Op>, lastSeq: nat,
                                          keys: iset<Bytes>)
    requires lastSeq + |ops| <= MAX_SEQ && forall op :: op in ops ==> op.key in keys
    requires UniqueKeys(multiset(es + rest)) && Sorted(es) && AllInSpace(es + rest, keys)
    requires forall e :: e in es + rest ==> SeqOf(e) <= lastSeq
    ensures var es' := WriteOps(es, ops, lastSeq);
      && Sorted(es') && UniqueKeys(multiset(es' + rest)) && AllInSpace(es' + rest, keys)
      && (forall e :: e in es' + rest ==> SeqOf(e) <= lastSeq + |ops|)
      && Elements(es' + rest) == Elements(es + rest) + NewVersions(ops, lastSeq)
    decreases ops
  {
    hide SeqNum, Sorted, UniqueKeys, Insert, AllInSpace, VersionOf;
    if ops != [] {
      WriteOpKeepsWf(es, rest, ops[0], lastSeq, keys);
      WriteOpsKeepWf(Insert(es, VersionOf(ops[0], lastSeq + 1)), rest, ops[1..], lastSeq + 1, keys);
    }
  }

  /** The newest versions of all keep the age order. */
  lemma {:induction false} WriteOpDescends(es: seq<Entry>, rest: seq<Entry>, op: Op, lastSeq: nat, keys: iset<Bytes>)
    requires lastSeq < MAX_SEQ && op.key in keys && SeparableSpace(keys)
    requires VersionsDescend(es + rest) && Sorted(es) && AllInSpace(es + rest, keys)
    requires forall e :: e in es + rest ==> SeqOf(e) <= lastSeq
    ensures VersionsDescend(Insert(es, VersionOf(op, lastSeq + 1)) + rest)
  {
    hide UserKey, SeqNum, Sorted, VersionsDescend, SeparableSpace, Insert, MakeInternalKey;
    var v := VersionOf(op, lastSeq + 1);
    SplitOfMake(op.key, lastSeq + 1);
    assert forall e :: e in es ==> e in es + rest;
    InSpaceIff(es, keys);
    InSpaceIff([v], keys);
    InsertNewest(es, rest, v, keys);
  }

  lemma {:induction false} WriteOpsDescend(es: seq<Entry>, rest: seq<Entry>, ops: seq<Op>, lastSeq: nat,
                                           keys: iset<Bytes>)
    requires lastSeq + |ops| <= MAX_SEQ && SeparableSpace(keys) && forall op :: op in ops ==> op.key in keys
    requires VersionsDescend(es + rest) && Sorted(es) && AllInSpace(es + rest, keys)
    requires forall e :: e in es + rest ==> SeqOf(e) <= lastSeq
    ensures VersionsDescend(WriteOps(es, ops, lastSeq) + rest)
    decreases ops
  {
    hide SeqNum, Sorted, VersionsDescend, SeparableSpace, Insert, AllInSpace, VersionOf, UniqueKeys;
    if ops != [] {
      DescendUnique(es + rest);
      WriteOpKeepsWf(es, rest, ops[0], lastSeq, keys);
      WriteOpDescends(es, rest, ops[0], lastSeq, keys);
      WriteOpsDescend(Insert(es, VersionOf(ops[0], lastSeq + 1)), rest, ops[1..], lastSeq + 1, keys);
    }
  }

  /** Tables, identifiers and a compaction in flight do not notice a change of the active memtable's
      contents or of the sequence counter. */
  lemma {:induction false} SameTables(s: State, s': State, hash: Bytes -> Word32)
    requires s'.l0 == s.l0 && s'.levels == s.levels && s'.inFlight == s.inFlight
    ensures Searched(s') == Searched(s)
    ensures LevelsOk(s, hash) ==> LevelsOk(s', hash)
    ensures s.inFlight.Some? && InFlightOk(s, s.inFlight.value, hash) ==> InFlightOk(s', s.inFlight.value, hash)
    ensures s.inFlight.Some? ==> LeftBehind(s') == LeftBehind(s)
  {
    hide TablesFlat, Sorted, TablesValid, L0Task, LevelTask;
  }

  lemma {:induction false} WriteKeepsWf(s: State, ops: seq<Op>, keys: iset<Bytes>, hash: Bytes -> Word32)
    requires Wf(s, keys, hash) && s.nextSeq + |ops| <= MAX_SEQ && forall op :: op in ops ==> op.key in keys
    ensures Wf(Written(s, ops), keys, hash)
    ensures Elements(Flat(Written(s, ops))) == Elements(Flat(s)) + NewVersions(ops, s.nextSeq)
  {
    hide SeqNum, Sorted, SeparableSpace, AllInSpace, UniqueKeys, LevelsOk, InFlightOk, Searched,
      TablesFlat, WriteOps, NewVersions, MemsFlat, OneEach;
    var s' := Written(s, ops);
    WriteOpsKeepWf(s.active.entries, MemsFlat(s.immutables) + TablesFlat(Searched(s)), ops, s.nextSeq, keys);
    SameTables(s, s', hash);
    assert AllIds(s') == AllIds(s);
  }

  lemma {:induction false} WriteKeeps(s: State, ops: seq<Op>, keys: iset<Bytes>, hash: Bytes -> Word32)
    requires Inv(s, keys, hash) && s.nextSeq + |ops| <= MAX_SEQ
    requires forall op :: op in ops ==> op.key in keys
    ensures Inv(Written(s, ops), keys, hash)
    ensures Elements(Flat(Written(s, ops))) == Elements(Flat(s)) + NewVersions(ops, s.nextSeq)
  {
    hide SeqNum, Sorted, VersionsDescend, SeparableSpace, AllInSpace, UniqueKeys, LevelsOk, InFlightOk, Searched,
      TablesFlat, WriteOps, NewVersions, MemsFlat, OneEach;
    WriteKeepsWf(s, ops, keys, hash);
    WriteOpsDescend(s.active.entries, MemsFlat(s.immutables) + TablesFlat(Searched(s)), ops, s.nextSeq, keys);
    SameSearched(s, Written(s, ops));
  }

  lemma {:induction false} SkipKeepsWf(s: State, n: nat, keys: iset<Bytes>, hash: Bytes -> Word32)
    requires Wf(s, keys, hash) && s.nextSeq + n <= MAX_SEQ
    ensures Wf(Skipped(s, n), keys, hash) && Flat(Skipped(s, n)) == Flat(s)
  {
    hide SeqNum, Sorted, SeparableSpace, AllInSpace, UniqueKeys, LevelsOk, InFlightOk, OneEach;
    SameTables(s, Skipped(s, n), hash);
    assert AllIds(Skipped(s, n)) == AllIds(s);
  }

  lemma {:induction false} SkipKeeps(s: State, n: nat, keys: iset<Bytes>, hash: Bytes -> Word32)
    requires Inv(s, keys, hash) && s.nextSeq + n <= MAX_SEQ
    ensures Inv(Skipped(s, n), keys, hash) && Flat(Skipped(s, n)) == Flat(s)
  {
    hide Wf, Flat, VersionsDescend;
    SkipKeepsWf(s, n, keys, hash);
  }

  // ----- rotation and flush: the search order does not change at all -----

  lemma {:induction false} RotateFlat(s: State)
    ensures Flat(Rotated(s)) == Flat(s)
  {
    hide TablesFlat, Searched;
    MemsFlatConcat([s.active], s.immutables);
    assert MemsFlat([s.active]) == s.active.entries by { assert [s.active][1..] == []; }
    assert Searched(Rotated(s)) == Searched(s) by { SameSearched(s, Rotated(s)); }
  }

  lemma {:induction false} RotateIds(s: State)
    ensures AllIds(Rotated(s)) == [s.nextMemID + 1] + AllIds(s)
  {
    hide TableIds, MemIds, Searched;
    MemIdsConcat([s.active], s.immutables);
    assert MemIds([s.active]) == [s.active.id];
    assert Searched(Rotated(s)) == Searched(s) by { SameSearched(s, Rotated(s)); }
  }

  lemma {:induction false} SameSearched(s: State, s': State)
    requires s'.l0 == s.l0 && s'.levels == s.levels
    ensures Searched(s') == Searched(s)
  {
  }

  lemma {:induction false} RotateKeepsWf(s: State, keys: iset<Bytes>, hash: Bytes -> Word32)
    requires Wf(s, keys, hash) && s.active.entries != []
    ensures Wf(Rotated(s), keys, hash)
  {
    hide SeqNum, SeparableSpace, AllInSpace, UniqueKeys, LevelsOk, InFlightOk, Flat, AllIds, Less;
    RotateFlat(s);
    RotateIds(s);
    SameTables(s, Rotated(s), hash);
    OneEachJoin([s.nextMemID + 1], AllIds(s));
  }

  lemma {:induction false} RotateKeeps(s: State, keys: iset<Bytes>, hash: Bytes -> Word32)
    requires Inv(s, keys, hash) && s.active.entries != []
    ensures Inv(Rotated(s), keys, hash) && Flat(Rotated(s)) == Flat(s)
  {
    hide Wf, Flat, VersionsDescend;
    RotateFlat(s);
    RotateKeepsWf(s, keys, hash);
  }

  lemma {:induction false} FlushFlat(s: State, t: Table)
    requires s.immutables != []
    requires t.id == s.immutables[|s.immutables| - 1].id && t.entries == s.immutables[|s.immutables| - 1].entries
    ensures Flat(Flushed(s, t)) == Flat(s)
    ensures AllIds(Flushed(s, t)) == AllIds(s)
    ensures Searched(Flushed(s, t)) == [t] + Searched(s)
  {
    hide Concat, TablesFlat, MemsFlat;
    var n := |s.immutables| - 1;
    var init, last := s.immutables[..n], s.immutables[n];
    assert s.immutables == init + [last];
    MemsFlatConcat(init, [last]);
    assert MemsFlat([last]) == last.entries by { OneMem(last); }
    assert Searched(Flushed(s, t)) == [t] + Searched(s);
    TablesFlatConcat([t], Searched(s));
    TablesFlatSingle(t);
    MemIdsConcat(init, [last]);
    TableIdsConcat([t], Searched(s));
    assert MemIds([last]) == [last.id] && TableIds([t]) == [t.id];
  }

  lemma {:induction false} OneMem(m: Memtable)
    ensures MemsFlat([m]) == m.entries
  {
    assert [m][1..] == [];
  }

  lemma {:induction false} FlushKeepsInFlight(s: State, t: Table, hash: Bytes -> Word32)
    requires s.immutables != [] && s.inFlight.Some? && InFlightOk(s, s.inFlight.value, hash)
    ensures InFlightOk(Flushed(s, t), s.inFlight.value, hash)
    ensures LeftBehind(Flushed(s, t)) == LeftBehind(s)
  {
    hide Sorted, TablesFlat, TablesValid, Spans, Overlapping;
    var s', task := Flushed(s, t), s.inFlight.value.task;
    if task.inputLevel == 0 {
      assert PickedL0(s', task) == PickedL0(s, task);
    }
  }

  lemma {:induction false} FlushKeepsWf(s: State, t: Table, keys: iset<Bytes>, hash: Bytes -> Word32)
    requires Wf(s, keys, hash) && s.immutables != [] && TableValid(t, hash)
    requires t.id == s.immutables[|s.immutables| - 1].id && t.entries == s.immutables[|s.immutables| - 1].entries
    ensures Wf(Flushed(s, t), keys, hash)
  {
    hide SeqNum, SeparableSpace, AllInSpace, UniqueKeys, InFlightOk, Flat, AllIds, OneEach, Sorted,
      TableValid, Searched, TablesFlat;
    FlushFlat(s, t);
    if s.inFlight.Some? { FlushKeepsInFlight(s, t, hash); }
    assert forall m :: m in Flushed(s, t).immutables ==> m in s.immutables;
  }

  lemma {:induction false} FlushKeeps(s: State, t: Table, keys: iset<Bytes>, hash: Bytes -> Word32)
    requires Inv(s, keys, hash) && s.immutables != [] && TableValid(t, hash)
    requires t.id == s.immutables[|s.immutables| - 1].id && t.entries == s.immutables[|s.immutables| - 1].entries
    ensures Inv(Flushed(s, t), keys, hash) && Flat(Flushed(s, t)) == Flat(s)
  {
    hide Wf, Flat, VersionsDescend, TableValid;
    FlushFlat(s, t);
    FlushKeepsWf(s, t, keys, hash);
  }

  // ----- launching a compaction -----

  /** The tables have identifiers of their own, taken before. */
  ghost predicate Numbering(s: State, ts: seq<Table>) {
    OneEach(TableIds(ts)) && forall id :: id in TableIds(ts) ==> id <= s.nextMemID && id !in AllIds(s)
  }

  /** A result that the picker and the executor can have produced: the inputs were picked from
      this state or from one before some flushes, and the identifiers were taken one by one
      while memtables may have taken others. */
  ghost predicate Executed(s: State, r: Result, hash: Bytes -> Word32) {
    InFlightOk(s, r, hash) && Numbering(s, r.newTables)
  }

  lemma {:induction false} ReserveKeeps(s: State, n: nat, keys: iset<Bytes>, hash: Bytes -> Word32)
    requires Wf(s, keys, hash)
    ensures Wf(Reserved(s, n), keys, hash) && Flat(Reserved(s, n)) == Flat(s)
  {
    hide SeqNum, SeparableSpace, AllInSpace, UniqueKeys, Sorted, TablesValid, TablesFlat, MemsFlat;
    var s' := Reserved(s, n);
    SameTables(s, s', hash);
    assert AllIds(s') == AllIds(s);
  }

  lemma {:induction false} LaunchKeeps(s: State, r: Result, keys: iset<Bytes>, hash: Bytes -> Word32)
    requires Wf(s, keys, hash) && s.inFlight.None? && Executed(s, r, hash)
    ensures Wf(Launched(s, r), keys, hash) && Flat(Launched(s, r)) == Flat(s)
  {
    hide SeqNum, SeparableSpace, AllInSpace, UniqueKeys, Sorted, TableValid, TablesFlat, Spans, Overlapping, MemsFlat;
    var s' := Launched(s, r);
    SameSearched(s, s');
    LaunchIds(s, r);
  }

  lemma {:induction false} LaunchIds(s: State, r: Result)
    requires IdsOk(s) && s.inFlight.None? && Numbering(s, r.newTables)
    ensures IdsOk(Launched(s, r))
  {
    hide Searched, OneEach, MemIds;
    var s' := Launched(s, r);
    SameSearched(s, s');
    assert TableIds([]) == [];
    assert AllIds(s') == AllIds(s) + TableIds(r.newTables);
    OneEachJoin(AllIds(s), TableIds(r.newTables));
  }

  /** A task picked here and executed at once, with consecutive identifiers. */
  lemma {:induction false} ExecutedAtOnce(s: State, r: Result, hash: Bytes -> Word32)
    requires IdsOk(s) && r.task.outputLevel < |s.levels|
    requires L0Task(LevelState(s.l0, s.levels), r.task) || LevelTask(LevelState(s.l0, s.levels), r.task)
    requires TablesValid(r.newTables, hash) && Sorted(TablesFlat(r.newTables)) && Numbered(r.newTables, s.nextMemID)
    requires multiset(TablesFlat(r.newTables)) == multiset(TablesFlat(r.task.inputs + r.task.overlapping))
    ensures Executed(Reserved(s, |r.newTables|), r, hash)
  {
    hide Sorted, TablesFlat, TablesValid, Spans, Overlapping, OneEach, Searched;
    var s' := Reserved(s, |r.newTables|);
    assert s.l0[0..] == s.l0;
    FreshIds(r.newTables, s.nextMemID);
    SameSearched(s, s');
    assert AllIds(s') == AllIds(s);
  }

  lemma {:induction false} FreshIds(ts: seq<Table>, last: nat)
    requires Numbered(ts, last)
    ensures OneEach(TableIds(ts)) && forall id :: id in TableIds(ts) ==> last < id <= last + |ts|
  {
  }
}
