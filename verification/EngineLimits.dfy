/**
Where the engine falls short of its promise, exactly: a user key torn between two tables of a
level (db/compact.go, compaction/executor.go, compaction/picker.go), and a configuration
without a level to compact into.
*/
module EngineLimits {
  import opened Bytes
  import opened Keys
  import opened Versions
  import opened Bloom
  import opened Tables
  import opened Iterators
  import opened AgeOrder
  import opened Compaction
  import opened LevelMerge
  import opened Engine
  import opened EngineApply
  import opened EngineSteps

  // ----- torn keys -----

  /** Whenever the table moved down shares a user key with a sibling left behind, some read that
      was right before the compaction is wrong after it. */
  lemma {:induction false} TornKeyMisreads(s: State, keys: iset<Bytes>, hash: Bytes -> Word32)
    requires Inv(s, keys, hash) && s.inFlight.Some?
    requires !NoSharedKey(TablesFlat(s.inFlight.value.task.inputs), TablesFlat(LeftBehind(s)))
    ensures exists u: Bytes, m: nat :: FirstVisible(Flat(Applied(s)), u, m) != FirstVisible(Flat(s), u, m)
  {
    hide Wf, Flat, VersionsDescend, NoSharedKey, ReadsNewest, FirstVisible, TablesFlat, LeftBehind, Applied;
    ApplyReadsIff(s, keys, hash);
    ApplyKeepsVersions(s, keys, hash);
    FlatFacts(s, keys, hash);
    ReadsNewestIffDescend(Flat(s));
    var a, b := Flat(s), Flat(Applied(s));
    SameElements(b, a);
    assert Elements(b) == Elements(a);
    var u: Bytes, m: nat :| !ReadsNewest(Elements(b), u, m, FirstVisible(b, u, m));
    assert ReadsNewest(Elements(a), u, m, FirstVisible(a, u, m));
    assert FirstVisible(b, u, m) != FirstVisible(a, u, m);
  }

  lemma {:induction false} FlatFacts(s: State, keys: iset<Bytes>, hash: Bytes -> Word32)
    requires Wf(s, keys, hash)
    ensures UniqueKeys(multiset(Flat(s))) && forall e :: e in Flat(s) ==> |e.key| >= SEQ_SIZE
  {
    hide Flat, UniqueKeys, LevelsOk, MemsOk, IdsOk, InFlightOk, UserKey, SeparableSpace;
  }

  // ----- no level to compact into -----

  /** Compacting L0 keeps every version exactly if there is an L1 to compact into; with a single
      level (MaxLevels 1) all of L0 is dropped and nothing takes its place. */
  lemma {:induction false} L0KeptIff(s: State, r: Result, keys: iset<Bytes>, hash: Bytes -> Word32)
    requires Wf(s, keys, hash) && s.inFlight.None? && L0Task(LevelState(s.l0, s.levels), r.task)
    requires TablesValid(r.newTables, hash) && Sorted(TablesFlat(r.newTables))
    requires multiset(TablesFlat(r.newTables)) == multiset(TablesFlat(r.task.inputs + r.task.overlapping))
    requires Numbering(s, r.newTables)
    ensures multiset(Flat(Applied(Launched(s, r)))) == multiset(Flat(s)) <==> |s.levels| > 1
  {
    hide Wf, Flat, TablesFlat, TablesValid, Sorted, L0Task, Applied;
    if |s.levels| > 1 {
      assert r.task.outputLevel == 1 by { L0Shape(s, r.task); }
      assert s.l0[0..] == s.l0;
      assert Executed(s, r, hash) by { L0Shape(s, r.task); }
      LaunchKeeps(s, r, keys, hash);
      ApplyKeepsVersions(Launched(s, r), keys, hash);
    } else {
      L0Lost(s, r, keys, hash);
    }
  }

  lemma {:induction false} L0Shape(s: State, task: Task)
    requires L0Task(LevelState(s.l0, s.levels), task)
    ensures task.inputLevel == 0 && task.outputLevel == 1 && task.inputs == s.l0 && s.l0 != []
    ensures |s.levels| <= 1 ==> task.overlapping == []
  {
  }

  lemma {:induction false} L0Lost(s: State, r: Result, keys: iset<Bytes>, hash: Bytes -> Word32)
    requires Wf(s, keys, hash) && s.inFlight.None? && L0Task(LevelState(s.l0, s.levels), r.task) && |s.levels| <= 1
    ensures |Flat(Applied(Launched(s, r)))| < |Flat(s)|
    ensures multiset(Flat(Applied(Launched(s, r)))) != multiset(Flat(s))
  {
    hide Wf, TablesFlat, L0Task, MemsFlat;
    L0Shape(s, r.task);
    var s' := Applied(Launched(s, r));
    assert r.task.inputs + r.task.overlapping == s.l0;
    DropIdsAll(s.l0, IdsOf(s.l0));
    assert Deeper(s.levels) == [] && Concat(Deeper(s.levels)) == [];
    assert s'.l0 == [] && s'.levels == s.levels && Searched(s') == [] && Searched(s) == s.l0;
    L0NotEmpty(s, keys, hash);
    assert TablesFlat([]) == [] by { NoTables(); }
    assert |Flat(s')| == |multiset(Flat(s'))| && |Flat(s)| == |multiset(Flat(s))|;
  }

  lemma {:induction false} NoTables()
    ensures TablesFlat([]) == []
  {
  }

  lemma {:induction false} L0NotEmpty(s: State, keys: iset<Bytes>, hash: Bytes -> Word32)
    requires Wf(s, keys, hash) && s.l0 != []
    ensures |TablesFlat(s.l0)| > 0
  {
    hide Sorted, MayContain, UniqueKeys, IdsOk, MemsOk, AllInSpace, SeparableSpace;
    assert Searched(s)[0] == s.l0[0];
    assert TableValid(Searched(s)[0], hash);
  }
}
