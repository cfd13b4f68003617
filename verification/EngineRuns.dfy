/**
Whole runs of the engine: any interleaving of writes, rotations, flushes, compaction picks
and compaction applies reads like the abstract history of the writes alone.
*/
module EngineRuns {
  import opened Optional
  import opened Bytes
  import opened Keys
  import opened Versions
  import opened Tables
  import opened Iterators
  import opened AgeOrder
  import opened LevelMerge
  import opened Engine
  import opened EngineApply
  import opened EngineSteps

  datatype Event =
    | Wrote(ops: seq<Op>, logged: bool)
    | RotatedMemtable
    | FlushedMemtable(table: Table)
    | ReservedIds(n: nat)
    | LaunchedCompaction(result: Result)
    | AppliedCompaction
    | FailedCompaction

  /** The picked table of a deeper level shares no user key with the rest of its level. */
  ghost predicate Untorn(s: State)
    requires s.inFlight.Some?
  {
    NoSharedKey(TablesFlat(s.inFlight.value.task.inputs), TablesFlat(LeftBehind(s)))
  }

  ghost predicate Move(s: State, ev: Event, s': State, keys: iset<Bytes>, hash: Bytes -> Word32) {
    match ev
    case Wrote(ops, logged) =>
      && s.nextSeq + |ops| <= MAX_SEQ
      && (forall op :: op in ops ==> op.key in keys)
      && s' == if logged then Written(s, ops) else Skipped(s, |ops|)
    case RotatedMemtable =>
      s.active.entries != [] && s' == Rotated(s)
    case FlushedMemtable(t) =>
      && s.immutables != [] && TableValid(t, hash)
      && t.id == s.immutables[|s.immutables| - 1].id && t.entries == s.immutables[|s.immutables| - 1].entries
      && s' == Flushed(s, t)
    case ReservedIds(n) =>
      s' == Reserved(s, n)
    case LaunchedCompaction(r) =>
      s.inFlight.None? && Executed(s, r, hash) && s' == Launched(s, r)
    case AppliedCompaction =>
      s.inFlight.Some? && s' == Applied(s)
    case FailedCompaction =>
      s.inFlight.Some? && s' == s.(inFlight := None)
  }

  /** A step that tears no user key between what moves down a level and what stays. */
  ghost predicate Step(s: State, ev: Event, s': State, keys: iset<Bytes>, hash: Bytes -> Word32) {
    Move(s, ev, s', keys, hash) && (ev.LaunchedCompaction? ==> Untorn(s'))
  }

  ghost predicate RunInv(s: State, keys: iset<Bytes>, hash: Bytes -> Word32) {
    Inv(s, keys, hash) && (s.inFlight.Some? ==> Untorn(s))
  }

  predicate Init(s: State, maxLevels: nat) {
    s == State(Memtable(1, [], 0), [], [], seq(maxLevels, _ => []), 1, 0, None)
  }

  // ----- the abstract history -----

  /** The last sequence number handed out and every version ever written. */
  datatype History = History(lastSeq: nat, versions: iset<Entry>)

  ghost function Record(h: History, ev: Event): History {
    match ev
    case Wrote(ops, logged) =>
      if h.lastSeq + |ops| > MAX_SEQ then h
      else History(h.lastSeq + |ops|, if logged then h.versions + NewVersions(ops, h.lastSeq) else h.versions)
    case _ => h
  }

  ghost function HistoryOf(events: seq<Event>): History {
    if events == [] then History(0, iset{})
    else Record(HistoryOf(events[..|events| - 1]), events[|events| - 1])
  }

  ghost function View(s: State): History {
    History(s.nextSeq, Elements(Flat(s)))
  }

  // ----- one step -----

  lemma {:induction false} InitOk(s: State, maxLevels: nat, keys: iset<Bytes>, hash: Bytes -> Word32)
    requires Init(s, maxLevels) && SeparableSpace(keys)
    ensures RunInv(s, keys, hash) && View(s) == History(0, iset{})
  {
    hide SeparableSpace;
    EmptyLevels(Deeper(s.levels));
    assert Searched(s) == [] && Flat(s) == [];
    assert Elements(Flat(s)) == iset{};
    assert forall n :: 1 <= n < |s.levels| ==> TablesFlat(s.levels[n]) == [];
  }

  lemma {:induction false} EmptyLevels(levels: seq<seq<Table>>)
    requires forall i :: 0 <= i < |levels| ==> levels[i] == []
    ensures Concat(levels) == []
  {
    if levels != [] { EmptyLevels(levels[1..]); }
  }

  lemma {:induction false} UntornSame(s: State, s': State)
    requires s.inFlight.Some? && s'.inFlight == s.inFlight && s'.levels == s.levels && Untorn(s)
    ensures Untorn(s')
  {
  }

  lemma {:induction false} LevelsOkSame(s: State, s': State, hash: Bytes -> Word32)
    requires LevelsOk(s, hash) && s'.l0 == s.l0 && s'.levels == s.levels
    ensures LevelsOk(s', hash) && Searched(s') == Searched(s)
  {
  }

  lemma {:induction false} ForgetKeeps(s: State, keys: iset<Bytes>, hash: Bytes -> Word32)
    requires Inv(s, keys, hash)
    ensures Inv(s.(inFlight := None), keys, hash) && Flat(s.(inFlight := None)) == Flat(s)
  {
    hide VersionsDescend, SeparableSpace, AllInSpace, UniqueKeys, LevelsOk, InFlightOk, SeqNum, Bag, IdsOk, AllIds,
      Searched, TablesFlat, MemsFlat, MemIds;
    var s' := s.(inFlight := None);
    LevelsOkSame(s, s', hash);
    MemsOkSame(s, s');
    AllIdsBag(s);
    AllIdsBag(s');
    EmptyBag();
    SubBagOk(s, s');
  }

  /** Every step keeps the invariant and does to the stored versions what the history records. */
  lemma {:induction false} StepKeeps(s: State, ev: Event, s': State, keys: iset<Bytes>, hash: Bytes -> Word32)
    requires RunInv(s, keys, hash) && Step(s, ev, s', keys, hash)
    ensures RunInv(s', keys, hash)
    ensures View(s') == Record(View(s), ev)
  {
    hide Inv, Wf, Flat, Written, TableValid, Executed, Untorn, Applied, Elements, NewVersions;
    match ev
    case Wrote(ops, logged) =>
      if logged { WriteStep(s, ops, keys, hash); } else { SkipStep(s, |ops|, keys, hash); }
    case RotatedMemtable => RotateStep(s, keys, hash);
    case FlushedMemtable(t) => FlushStep(s, t, keys, hash);
    case ReservedIds(n) => ReserveStep(s, n, keys, hash);
    case LaunchedCompaction(r) => LaunchStep(s, r, keys, hash);
    case AppliedCompaction => ApplyStep(s, keys, hash);
    case FailedCompaction => ForgetKeeps(s, keys, hash);
  }

  lemma {:induction false} WriteStep(s: State, ops: seq<Op>, keys: iset<Bytes>, hash: Bytes -> Word32)
    requires RunInv(s, keys, hash) && s.nextSeq + |ops| <= MAX_SEQ && forall op :: op in ops ==> op.key in keys
    ensures RunInv(Written(s, ops), keys, hash)
    ensures View(Written(s, ops)) == History(s.nextSeq + |ops|, Elements(Flat(s)) + NewVersions(ops, s.nextSeq))
  {
    hide Inv, Flat, Untorn, Elements, NewVersions;
    WriteKeeps(s, ops, keys, hash);
    if s.inFlight.Some? { UntornSame(s, Written(s, ops)); }
  }

  lemma {:induction false} SkipStep(s: State, n: nat, keys: iset<Bytes>, hash: Bytes -> Word32)
    requires RunInv(s, keys, hash) && s.nextSeq + n <= MAX_SEQ
    ensures RunInv(Skipped(s, n), keys, hash)
    ensures View(Skipped(s, n)) == History(s.nextSeq + n, Elements(Flat(s)))
  {
    hide Inv, Flat, Untorn, Elements;
    SkipKeeps(s, n, keys, hash);
    if s.inFlight.Some? { UntornSame(s, Skipped(s, n)); }
  }

  lemma {:induction false} RotateStep(s: State, keys: iset<Bytes>, hash: Bytes -> Word32)
    requires RunInv(s, keys, hash) && s.active.entries != []
    ensures RunInv(Rotated(s), keys, hash) && View(Rotated(s)) == View(s)
  {
    hide Inv, Flat, Untorn, Elements;
    RotateKeeps(s, keys, hash);
    if s.inFlight.Some? { UntornSame(s, Rotated(s)); }
  }

  lemma {:induction false} FlushStep(s: State, t: Table, keys: iset<Bytes>, hash: Bytes -> Word32)
    requires RunInv(s, keys, hash) && s.immutables != [] && TableValid(t, hash)
    requires t.id == s.immutables[|s.immutables| - 1].id && t.entries == s.immutables[|s.immutables| - 1].entries
    ensures RunInv(Flushed(s, t), keys, hash) && View(Flushed(s, t)) == View(s)
  {
    hide Inv, Flat, Untorn, Elements, TableValid;
    FlushKeeps(s, t, keys, hash);
    if s.inFlight.Some? { UntornSame(s, Flushed(s, t)); }
  }

  lemma {:induction false} ReserveStep(s: State, n: nat, keys: iset<Bytes>, hash: Bytes -> Word32)
    requires RunInv(s, keys, hash)
    ensures RunInv(Reserved(s, n), keys, hash) && View(Reserved(s, n)) == View(s)
  {
    hide Wf, Flat, Untorn, Elements, VersionsDescend;
    ReserveKeeps(s, n, keys, hash);
    if s.inFlight.Some? { UntornSame(s, Reserved(s, n)); }
  }

  lemma {:induction false} LaunchStep(s: State, r: Result, keys: iset<Bytes>, hash: Bytes -> Word32)
    requires RunInv(s, keys, hash) && s.inFlight.None? && Executed(s, r, hash) && Untorn(Launched(s, r))
    ensures RunInv(Launched(s, r), keys, hash) && View(Launched(s, r)) == View(s)
  {
    hide Wf, Flat, Untorn, Elements, Executed, VersionsDescend;
    LaunchKeeps(s, r, keys, hash);
  }

  lemma {:induction false} ApplyStep(s: State, keys: iset<Bytes>, hash: Bytes -> Word32)
    requires RunInv(s, keys, hash) && s.inFlight.Some?
    ensures RunInv(Applied(s), keys, hash) && View(Applied(s)) == View(s)
  {
    hide Wf, Flat, VersionsDescend, NoSharedKey, AllReadsNewest;
    ApplyKeepsVersions(s, keys, hash);
    ApplyReadsIff(s, keys, hash);
    SameElements(Flat(Applied(s)), Flat(s));
    assert Elements(Flat(Applied(s))) == Elements(Flat(s));
  }

  // ----- runs -----

  ghost predicate IsRun(states: seq<State>, events: seq<Event>, maxLevels: nat, keys: iset<Bytes>,
                        hash: Bytes -> Word32) {
    && |states| == |events| + 1
    && Init(states[0], maxLevels)
    && forall i :: 0 <= i < |events| ==> Step(states[i], events[i], states[i + 1], keys, hash)
  }

  lemma {:induction false} RunState(states: seq<State>, events: seq<Event>, maxLevels: nat, keys: iset<Bytes>,
                                    hash: Bytes -> Word32, i: nat)
    requires IsRun(states, events, maxLevels, keys, hash) && SeparableSpace(keys) && i <= |events|
    ensures RunInv(states[i], keys, hash)
    ensures View(states[i]) == HistoryOf(events[..i])
  {
    hide RunInv, View, Step, SeparableSpace, Record;
    if i == 0 {
      InitOk(states[0], maxLevels, keys, hash);
    } else {
      RunState(states, events, maxLevels, keys, hash, i - 1);
      assert Step(states[i - 1], events[i - 1], states[i], keys, hash);
      StepKeeps(states[i - 1], events[i - 1], states[i], keys, hash);
      assert events[..i][..i - 1] == events[..i - 1] && events[..i][i - 1] == events[i - 1];
    }
  }

  /** In every run, a read at any snapshot returns exactly the newest visible version in the
      history of the writes, however they have been rotated, flushed and compacted since. */
  lemma {:induction false} RunReadsHistory(states: seq<State>, events: seq<Event>, maxLevels: nat, keys: iset<Bytes>,
                                           hash: Bytes -> Word32, i: nat, u: Bytes, m: nat)
    requires IsRun(states, events, maxLevels, keys, hash) && SeparableSpace(keys) && i <= |events|
    ensures ReadsNewest(HistoryOf(events[..i]).versions, u, m, FirstVisible(Flat(states[i]), u, m))
  {
    hide Wf, VersionsDescend, FirstVisible, HistoryOf, SeparableSpace, ReadsNewest, Elements, Flat, Untorn, Step, Init;
    RunState(states, events, maxLevels, keys, hash, i);
    FirstVisibleIsNewest(Flat(states[i]), u, m);
  }

  /** A step never changes a read at a snapshot taken before it. */
  lemma {:induction false} StepKeepsSnapshot(s: State, ev: Event, s': State, keys: iset<Bytes>, hash: Bytes -> Word32,
                                             u: Bytes, m: nat)
    requires RunInv(s, keys, hash) && Step(s, ev, s', keys, hash) && m <= s.nextSeq
    ensures FirstVisible(Flat(s'), u, m) == FirstVisible(Flat(s), u, m)
    ensures s.nextSeq <= s'.nextSeq
  {
    hide Flat, FirstVisible, VersionsDescend, SeqNum, UserKey, NewVersions, Step;
    StepKeeps(s, ev, s', keys, hash);
    if ev.Wrote? && s.nextSeq + |ev.ops| <= MAX_SEQ { NewVersionsSeqs(ev.ops, s.nextSeq); }
    forall e | Visible(e, u, m) ensures e in Flat(s) <==> e in Flat(s') {
      assert e in Flat(s') <==> e in View(s').versions;
      assert e in Flat(s) <==> e in View(s).versions;
    }
    LongKeys(s, keys, hash);
    LongKeys(s', keys, hash);
    ReadsAgree(Flat(s'), Flat(s), u, m);
  }

  lemma {:induction false} LongKeys(s: State, keys: iset<Bytes>, hash: Bytes -> Word32)
    requires Wf(s, keys, hash)
    ensures forall e :: e in Flat(s) ==> |e.key| >= SEQ_SIZE
  {
  }

  /** In every run, what a snapshot reads never changes afterwards. */
  lemma {:induction false} SnapshotStable(states: seq<State>, events: seq<Event>, maxLevels: nat, keys: iset<Bytes>,
                                          hash: Bytes -> Word32, i: nat, j: nat, u: Bytes, m: nat)
    requires IsRun(states, events, maxLevels, keys, hash) && SeparableSpace(keys)
    requires i <= j <= |events| && m <= states[i].nextSeq
    ensures FirstVisible(Flat(states[j]), u, m) == FirstVisible(Flat(states[i]), u, m)
    ensures states[i].nextSeq <= states[j].nextSeq
    decreases j
  {
    hide Step, RunInv, FirstVisible, Flat, SeparableSpace, HistoryOf, View;
    if i < j {
      SnapshotStable(states, events, maxLevels, keys, hash, i, j - 1, u, m);
      RunState(states, events, maxLevels, keys, hash, j - 1);
      assert Step(states[j - 1], events[j - 1], states[j], keys, hash);
      StepKeepsSnapshot(states[j - 1], events[j - 1], states[j], keys, hash, u, m);
    }
  }

  /** A snapshot taken between steps sees all operations of a batch or none. */
  lemma {:induction false} BatchAllOrNothing(states: seq<State>, events: seq<Event>, maxLevels: nat, keys: iset<Bytes>,
                                             hash: Bytes -> Word32, k: nat, i: nat)
    requires IsRun(states, events, maxLevels, keys, hash) && SeparableSpace(keys)
    requires k < |events| && events[k].Wrote? && events[k].logged && i <= |events|
    ensures states[k].nextSeq + |events[k].ops| <= MAX_SEQ
    ensures var added := NewVersions(events[k].ops, states[k].nextSeq);
      if i <= k then forall e :: e in added ==> SeqOf(e) > states[i].nextSeq
      else (forall e :: e in added ==> SeqOf(e) <= states[i].nextSeq && e in HistoryOf(events[..i]).versions)
  {
    hide RunInv, Flat, SeparableSpace, SeqNum, NewVersions, Init;
    var ops, before := events[k].ops, states[k].nextSeq;
    assert Step(states[k], events[k], states[k + 1], keys, hash);
    NewVersionsSeqs(ops, before);
    if i <= k {
      SnapshotStable(states, events, maxLevels, keys, hash, i, k, [], 0);
    } else {
      SnapshotStable(states, events, maxLevels, keys, hash, k + 1, i, [], 0);
      RunState(states, events, maxLevels, keys, hash, k);
      assert events[..k + 1][..k] == events[..k] && events[..k + 1][k] == events[k];
      HistoryGrows(events, k + 1, i);
    }
  }

  lemma {:induction false} HistoryGrows(events: seq<Event>, i: nat, j: nat)
    requires i <= j <= |events|
    ensures HistoryOf(events[..i]).versions <= HistoryOf(events[..j]).versions
  {
    if i < j {
      HistoryGrows(events, i, j - 1);
      assert events[..j][..j - 1] == events[..j - 1];
    }
  }
}
