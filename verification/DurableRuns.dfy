/**
Runs with crashes: writes, rotations, flushes, compactions and reopenings of the directory, in
any order, read like the history of the writes (db/db.go, db/batch.go, db/flush.go). A process
may die between two steps, while it appends a batch to the log, and while it builds tables or
appends to the manifest, as long as nothing new is listed yet.
*/
module DurableRuns {
  import opened Bytes
  import opened Keys
  import opened Versions
  import opened Tables
  import opened Engine
  import opened EngineSteps
  import opened EngineRuns
  import opened Recovery
  import opened Durability
  import opened DurableSteps
  import W = Wal
  import M = Manifest
  import F = ManifestFormat

  /** What a step of the engine leaves on disk. */
  ghost predicate Writes(s: State, ev: Event, d: Disk, d': Disk, crc: Bytes -> Word32) {
    match ev
    case Wrote(ops, logged) =>
      && s.nextSeq + |ops| <= MAX_SEQ && s.active.id in d.logs
      && (logged ==> W.Fits(LoggedOps(ops, s.nextSeq)) && Clean(d.logs[s.active.id], crc))
      && d' == if logged then Appended(d, s.active.id, W.RecordBytes(LoggedOps(ops, s.nextSeq), crc)) else d
    case RotatedMemtable =>
      d' == d.(logs := d.logs[s.nextMemID + 1 := []])
    case FlushedMemtable(t) =>
      && t.id < U64 && d'.tables == d.tables[t.id := t] && d'.logs == d.logs - {t.id}
      && Recorded(d', TablesIn(d, crc)[t.id := InfoOf(t, 0)], s, crc)
    case ReservedIds(n) =>
      d' == d
    case LaunchedCompaction(r) =>
      && d'.manifest == d.manifest && d'.logs == d.logs
      && (forall t :: t in r.newTables ==> t.id in d'.tables && d'.tables[t.id] == t)
      && (forall id :: id in d.tables && id !in IdsOf(r.newTables) ==> id in d'.tables && d'.tables[id] == d.tables[id])
    case AppliedCompaction =>
      && s.inFlight.Some? && SmallIds(s.inFlight.value.newTables) && s.inFlight.value.task.outputLevel < 256
      && d'.logs == d.logs && Recorded(d', Relisted(TablesIn(d, crc), s.inFlight.value), s, crc)
      && (forall id :: id in TablesIn(d', crc) && id in d.tables ==> id in d'.tables && d'.tables[id] == d.tables[id])
    case FailedCompaction =>
      d' == d
  }

  function Appended(d: Disk, id: nat, bytes: Bytes): Disk
    requires id in d.logs
  {
    d.(logs := d.logs[id := d.logs[id] + bytes])
  }

  datatype Happening =
    | Ran(event: Event)
    | Crashed                                    // between two steps
    | CrashedWriting(ops: seq<Op>, n: nat)       // with n bytes of the batch in the log
    | CrashedBuilding                            // with new tables written but not listed

  ghost predicate Happens(s: State, d: Disk, h: Happening, s': State, d': Disk, keys: iset<Bytes>,
                          hash: Bytes -> Word32, crc: Bytes -> Word32) {
    match h
    case Ran(ev) => Step(s, ev, s', keys, hash) && Writes(s, ev, d, d', crc)
    case Crashed => Rebuilt(d, |s.levels|, crc, s') && d' == d
    case CrashedWriting(ops, n) => Interrupted(s, d, ops, n, d', keys, crc) && Rebuilt(d', |s.levels|, crc, s')
    case CrashedBuilding => SameListed(d, d', crc) && Rebuilt(d', |s.levels|, crc, s')
  }

  /** n bytes of the batch are in the log, which was clean. */
  ghost predicate Interrupted(s: State, d: Disk, ops: seq<Op>, n: nat, d': Disk, keys: iset<Bytes>,
                              crc: Bytes -> Word32) {
    && s.nextSeq + |ops| <= MAX_SEQ && (forall op :: op in ops ==> op.key in keys) && W.Fits(LoggedOps(ops, s.nextSeq))
    && s.active.id in d.logs && Clean(d.logs[s.active.id], crc)
    && var record := W.RecordBytes(LoggedOps(ops, s.nextSeq), crc);
       n <= |record| && d' == Appended(d, s.active.id, record[..n])
  }

  /** The batch is in the log with its whole record. */
  ghost predicate Complete(s: State, ops: seq<Op>, n: nat, crc: Bytes -> Word32) {
    s.nextSeq + |ops| <= MAX_SEQ && n == |W.RecordBytes(LoggedOps(ops, s.nextSeq), crc)|
  }

  /** The same logs, a manifest that replays the same, and the files it lists untouched. */
  ghost predicate SameListed(d: Disk, d': Disk, crc: Bytes -> Word32) {
    && d'.logs == d.logs && M.Replayed(d'.manifest, M.EMPTY, crc) == M.Replayed(d.manifest, M.EMPTY, crc)
    && forall id :: id in TablesIn(d, crc) && id in d.tables ==> id in d'.tables && d'.tables[id] == d.tables[id]
  }

  ghost predicate DurableInv(s: State, d: Disk, keys: iset<Bytes>, hash: Bytes -> Word32, crc: Bytes -> Word32) {
    RunInv(s, keys, hash) && Durable(s, d, crc) && Staged(s, d)
  }

  /** A new database: an empty log for the first memtable and a manifest without tables. */
  ghost predicate InitDisk(d: Disk, crc: Bytes -> Word32) {
    d.logs == map[1 := []] && M.Replayed(d.manifest, M.EMPTY, crc) == F.Ok(M.State(map[], 0, 0, map[]))
  }

  lemma {:induction false} InitDurable(s: State, d: Disk, maxLevels: nat, keys: iset<Bytes>, hash: Bytes -> Word32,
                                       crc: Bytes -> Word32)
    requires Init(s, maxLevels) && InitDisk(d, crc) && SeparableSpace(keys)
    ensures DurableInv(s, d, keys, hash, crc)
  {
    hide RunInv, SeparableSpace, M.Replayed, Journals;
    InitOk(s, maxLevels, keys, hash);
    EmptyJournal(1, crc);
    assert forall n: nat :: LevelOf(s, n) == [];
    assert s.active in MemsOf(s);
    assert forall m :: m in MemsOf(s) ==> m == s.active;
  }

  /** A crash while a batch is being logged: the batch is there with all its operations, if its
      record was complete, or not at all; everything acknowledged before is there. */
  lemma {:induction false} CrashInWrite(s: State, d: Disk, ops: seq<Op>, n: nat, s': State, d': Disk, keys: iset<Bytes>,
                                        hash: Bytes -> Word32, crc: Bytes -> Word32)
    requires RunInv(s, keys, hash) && Durable(s, d, crc)
    requires Interrupted(s, d, ops, n, d', keys, crc) && Rebuilt(d', |s.levels|, crc, s')
    ensures Inv(s', keys, hash) && s'.inFlight.None? && Durable(s', d', crc)
    ensures Flat(s') == if Complete(s, ops, n, crc) then Flat(Written(s, ops)) else Flat(s)
  {
    hide Wf, VersionsDescend, Untorn, Durable, Flat, W.RecordBytes, W.Fits, LoggedOps, Rebuilt, WriteOps, OpsSize,
      Clean, NewVersions;
    var record := W.RecordBytes(LoggedOps(ops, s.nextSeq), crc);
    if Complete(s, ops, n, crc) {
      assert record[..n] == record;
      WriteStep(s, ops, keys, hash);
      WriteDurable(s, ops, d, d', crc);
      RecoverRestores(Written(s, ops), d', crc, keys, hash, s');
    } else {
      TornDurable(s, d, LoggedOps(ops, s.nextSeq), n, crc);
      RecoverRestores(s, d', crc, keys, hash, s');
    }
  }

  lemma {:induction false} TornDurable(s: State, d: Disk, es: seq<W.Logged>, n: nat, crc: Bytes -> Word32)
    requires Durable(s, d, crc) && s.active.id in d.logs && Clean(d.logs[s.active.id], crc)
    requires W.Fits(es) && n < |W.RecordBytes(es, crc)|
    ensures Durable(s, Appended(d, s.active.id, W.RecordBytes(es, crc)[..n]), crc)
  {
    hide Journals, Clean, Durable, W.RecordBytes, W.Fits;
    ActiveJournaled(s, d, crc);
    TornJournal(d.logs[s.active.id], s.active, es, n, crc);
    JournalInstead(s, d, d.logs[s.active.id] + W.RecordBytes(es, crc)[..n], crc);
  }

  lemma {:induction false} ActiveJournaled(s: State, d: Disk, crc: Bytes -> Word32)
    requires Durable(s, d, crc) && s.active.id in d.logs
    ensures Journals(d.logs[s.active.id], s.active, crc)
  {
    hide Journals, Births, Falling, Catalogued, Counted, Stored, M.Replayed;
    assert s.active in MemsOf(s);
  }

  /** Why a write needs a clean log: one that is acknowledged behind a torn tail, and does not
      pass for the torn record, is gone after the next crash. */
  lemma {:induction false} WrittenBehindTear(s: State, d: Disk, bs: seq<seq<W.Logged>>, tail: Bytes, ops: seq<Op>,
                                             s': State, keys: iset<Bytes>, hash: Bytes -> Word32,
                                             crc: Bytes -> Word32)
    requires RunInv(s, keys, hash) && Durable(s, d, crc) && s.nextSeq + |ops| <= MAX_SEQ && s.active.id in d.logs
    requires W.AllFit(bs) && d.logs[s.active.id] == W.Log(bs, crc) + tail && !W.Checks(tail, crc)
    requires !W.Checks(tail + W.RecordBytes(LoggedOps(ops, s.nextSeq), crc), crc)
    requires Rebuilt(Appended(d, s.active.id, W.RecordBytes(LoggedOps(ops, s.nextSeq), crc)), |s.levels|, crc, s')
    ensures Flat(s') == Flat(s)
  {
    hide Wf, VersionsDescend, Untorn, Durable, Flat, W.RecordBytes, W.Fits, W.Log, W.Batched, LoadedMem, LoggedOps,
      Rebuilt, W.Checks, W.Recovered;
    var record, log := W.RecordBytes(LoggedOps(ops, s.nextSeq), crc), d.logs[s.active.id];
    ActiveJournaled(s, d, crc);
    JournalRecovers(log, s.active, crc);
    W.UncheckedStops(bs, tail, crc);
    assert log + record == W.Log(bs, crc) + (tail + record);
    JournalInstead(s, d, log + record, crc);
    RecoverRestores(s, Appended(d, s.active.id, record), crc, keys, hash, s');
  }

  /** A crash before anything new is listed. */
  lemma {:induction false} ListedDurable(s: State, d: Disk, d': Disk, crc: Bytes -> Word32)
    requires Durable(s, d, crc) && SameListed(d, d', crc)
    ensures Durable(s, d', crc)
  {
    hide Journaled, Counted, Falling, Births, M.Replayed, Describes, LevelOf;
  }

  /** Every step keeps engine and directory in line, and so does a crash. */
  lemma {:induction false} HappensKeeps(s: State, d: Disk, h: Happening, s': State, d': Disk, keys: iset<Bytes>,
                                        hash: Bytes -> Word32, crc: Bytes -> Word32)
    requires DurableInv(s, d, keys, hash, crc) && Happens(s, d, h, s', d', keys, hash, crc)
    ensures DurableInv(s', d', keys, hash, crc)
  {
    hide Step, Writes, Wf, VersionsDescend, Flat, Untorn, Durable, Staged, Rebuilt, Interrupted, SameListed;
    match h
    case Ran(ev) =>
      StepKeeps(s, ev, s', keys, hash);
      StepDurable(s, d, ev, s', d', keys, hash, crc);
    case Crashed =>
      RecoverRestores(s, d, crc, keys, hash, s');
      NothingStaged(s', d);
    case CrashedWriting(ops, n) =>
      CrashInWrite(s, d, ops, n, s', d', keys, hash, crc);
      NothingStaged(s', d');
    case CrashedBuilding =>
      ListedDurable(s, d, d', crc);
      RecoverRestores(s, d', crc, keys, hash, s');
      NothingStaged(s', d');
  }

  lemma {:induction false} NothingStaged(s: State, d: Disk)
    requires s.inFlight.None?
    ensures Staged(s, d)
  {
  }

  lemma {:induction false} StagedSame(s: State, s': State, d: Disk, d': Disk)
    requires Staged(s, d) && s'.inFlight == s.inFlight && d'.tables == d.tables
    ensures Staged(s', d')
  {
  }

  /** Each step writes enough. */
  lemma {:induction false} StepDurable(s: State, d: Disk, ev: Event, s': State, d': Disk, keys: iset<Bytes>,
                                       hash: Bytes -> Word32, crc: Bytes -> Word32)
    requires RunInv(s, keys, hash) && RunInv(s', keys, hash) && Durable(s, d, crc) && Staged(s, d)
    requires Step(s, ev, s', keys, hash) && Writes(s, ev, d, d', crc)
    ensures Durable(s', d', crc) && Staged(s', d')
  {
    hide Wf, VersionsDescend, Untorn, Durable, Staged, Flat, Recorded, Executed, LoggedOps, WriteOps, OpsSize,
      W.RecordBytes, W.Fits, TablesIn, InfoOf, Relisted, IdsOf, ApplyLevels, TableValid, IdsOk, LevelsOk, InFlightOk;
    WfParts(s, keys, hash);
    match ev
    case Wrote(ops, logged) =>
      if logged { WriteDurable(s, ops, d, d', crc); } else { CountersDurable(s, s', d, crc); }
      StagedSame(s, s', d, d');
    case RotatedMemtable =>
      RotateDurable(s, d, d', crc);
      StagedSame(s, s', d, d');
    case FlushedMemtable(t) =>
      FlushDurable(s, t, d, d', keys, hash, crc);
      FlushStaged(s, t, d, d');
    case ReservedIds(n) =>
      CountersDurable(s, s', d, crc);
      StagedSame(s, s', d, d');
    case LaunchedCompaction(r) =>
      LaunchDurable(s, r, d, d', keys, hash, crc);
    case AppliedCompaction =>
      ApplyDurable(s, d, d', keys, hash, crc);
      NothingStaged(s', d');
    case FailedCompaction =>
      CountersDurable(s, s', d, crc);
      NothingStaged(s', d');
  }

  lemma {:induction false} CountersDurable(s: State, s': State, d: Disk, crc: Bytes -> Word32)
    requires Durable(s, d, crc)
    requires s' == s.(nextSeq := s'.nextSeq, nextMemID := s'.nextMemID, inFlight := s'.inFlight)
    requires s'.nextSeq >= s.nextSeq && s'.nextMemID >= s.nextMemID
    ensures Durable(s', d, crc)
  {
    hide Durable;
    NotAhead(s, d, crc);
    DurableSame(s, s', d, crc);
  }

  lemma {:induction false} FlushStaged(s: State, t: Table, d: Disk, d': Disk)
    requires IdsOk(s) && Staged(s, d) && s.immutables != [] && t.id == s.immutables[|s.immutables| - 1].id
    requires d'.tables == d.tables[t.id := t]
    ensures Staged(Flushed(s, t), d')
  {
    hide IdsOk, Searched, TableIds, OneEach;
    IdsApart(s);
    assert s.immutables[|s.immutables| - 1] in MemsOf(s);
  }

  // ----- runs -----

  ghost predicate IsDurableRun(states: seq<State>, disks: seq<Disk>, hs: seq<Happening>, maxLevels: nat,
                               keys: iset<Bytes>, hash: Bytes -> Word32, crc: Bytes -> Word32) {
    && |states| == |disks| == |hs| + 1
    && Init(states[0], maxLevels) && InitDisk(disks[0], crc)
    && forall i :: 0 <= i < |hs| ==> Happens(states[i], disks[i], hs[i], states[i + 1], disks[i + 1], keys, hash, crc)
  }

  /** The versions of the writes among the first i happenings: those acknowledged, and those
      whose record was complete when the process died. */
  ghost function Committed(states: seq<State>, hs: seq<Happening>, i: nat, crc: Bytes -> Word32): iset<Entry>
    requires i <= |hs| < |states|
  {
    if i == 0 then iset{}
    else Committed(states, hs, i - 1, crc) + AddedBy(states[i - 1], hs[i - 1], crc)
  }

  ghost function AddedBy(s: State, h: Happening, crc: Bytes -> Word32): iset<Entry> {
    if h.Ran? && h.event.Wrote? && h.event.logged && s.nextSeq + |h.event.ops| <= MAX_SEQ then
      NewVersions(h.event.ops, s.nextSeq)
    else if h.CrashedWriting? && Complete(s, h.ops, h.n, crc) then
      NewVersions(h.ops, s.nextSeq)
    else
      iset{}
  }

  lemma {:induction false} HappensAdds(s: State, d: Disk, h: Happening, s': State, d': Disk, keys: iset<Bytes>,
                                       hash: Bytes -> Word32, crc: Bytes -> Word32)
    requires DurableInv(s, d, keys, hash, crc) && Happens(s, d, h, s', d', keys, hash, crc)
    ensures Elements(Flat(s')) == Elements(Flat(s)) + AddedBy(s, h, crc)
  {
    hide Writes, Wf, VersionsDescend, Flat, Untorn, Durable, Staged, Rebuilt, NewVersions, Elements, Executed,
      TableValid, Written, Applied, Interrupted, SameListed, Complete;
    match h
    case Ran(ev) => StepKeeps(s, ev, s', keys, hash);
    case Crashed => RecoverRestores(s, d, crc, keys, hash, s');
    case CrashedWriting(ops, n) =>
      CrashInWrite(s, d, ops, n, s', d', keys, hash, crc);
      if Complete(s, ops, n, crc) { InterruptedAdds(s, d, ops, n, d', keys, hash, crc); }
    case CrashedBuilding =>
      ListedDurable(s, d, d', crc);
      RecoverRestores(s, d', crc, keys, hash, s');
  }

  lemma {:induction false} InterruptedAdds(s: State, d: Disk, ops: seq<Op>, n: nat, d': Disk, keys: iset<Bytes>,
                                           hash: Bytes -> Word32, crc: Bytes -> Word32)
    requires RunInv(s, keys, hash) && Interrupted(s, d, ops, n, d', keys, crc)
    ensures Elements(Flat(Written(s, ops))) == Elements(Flat(s)) + NewVersions(ops, s.nextSeq)
  {
    hide Inv, Flat, Untorn, Elements, NewVersions, Written, W.RecordBytes, W.Fits, LoggedOps, Clean;
    WriteStep(s, ops, keys, hash);
    assert View(Written(s, ops)).versions == Elements(Flat(Written(s, ops)));
  }

  /** In every run with crashes, the engine agrees with its files and holds exactly the
      committed versions. */
  lemma {:induction false} DurableState(states: seq<State>, disks: seq<Disk>, hs: seq<Happening>, maxLevels: nat,
                                        keys: iset<Bytes>, hash: Bytes -> Word32, crc: Bytes -> Word32, i: nat)
    requires IsDurableRun(states, disks, hs, maxLevels, keys, hash, crc) && SeparableSpace(keys) && i <= |hs|
    ensures DurableInv(states[i], disks[i], keys, hash, crc)
    ensures Elements(Flat(states[i])) == Committed(states, hs, i, crc)
  {
    hide DurableInv, Happens, InitDisk, SeparableSpace, Elements, Flat, AddedBy;
    if i == 0 {
      InitDurable(states[0], disks[0], maxLevels, keys, hash, crc);
      InitOk(states[0], maxLevels, keys, hash);
      assert Elements(Flat(states[0])) == View(states[0]).versions;
    } else {
      DurableState(states, disks, hs, maxLevels, keys, hash, crc, i - 1);
      assert Happens(states[i - 1], disks[i - 1], hs[i - 1], states[i], disks[i], keys, hash, crc);
      HappensKeeps(states[i - 1], disks[i - 1], hs[i - 1], states[i], disks[i], keys, hash, crc);
      HappensAdds(states[i - 1], disks[i - 1], hs[i - 1], states[i], disks[i], keys, hash, crc);
    }
  }

  /** In every run with crashes, every read returns the newest committed version it may see. */
  lemma {:induction false} DurableReads(states: seq<State>, disks: seq<Disk>, hs: seq<Happening>, maxLevels: nat,
                                        keys: iset<Bytes>, hash: Bytes -> Word32, crc: Bytes -> Word32, i: nat,
                                        u: Bytes, m: nat)
    requires IsDurableRun(states, disks, hs, maxLevels, keys, hash, crc) && SeparableSpace(keys) && i <= |hs|
    ensures ReadsNewest(Committed(states, hs, i, crc), u, m, FirstVisible(Flat(states[i]), u, m))
  {
    hide Happens, Init, InitDisk, Wf, VersionsDescend, Untorn, Durable, Staged, Elements, Flat, SeparableSpace,
      Committed, ReadsNewest, FirstVisible;
    DurableState(states, disks, hs, maxLevels, keys, hash, crc, i);
    FirstVisibleIsNewest(Flat(states[i]), u, m);
  }

  /** At every point of such a run the directory can be opened, and whatever it opens to reads
      the same, for every key and snapshot. */
  lemma {:induction false} CrashKeepsReads(states: seq<State>, disks: seq<Disk>, hs: seq<Happening>, maxLevels: nat,
                                           keys: iset<Bytes>, hash: Bytes -> Word32, crc: Bytes -> Word32, i: nat,
                                           s': State, u: Bytes, m: nat)
    requires IsDurableRun(states, disks, hs, maxLevels, keys, hash, crc) && SeparableSpace(keys) && i <= |hs|
    ensures Readable(disks[i], |states[i].levels|, crc)
    ensures Rebuilt(disks[i], |states[i].levels|, crc, s') ==>
              FirstVisible(Flat(s'), u, m) == FirstVisible(Flat(states[i]), u, m)
  {
    hide Happens, Init, InitDisk, Wf, VersionsDescend, Untorn, Durable, Staged, Flat, SeparableSpace, Committed,
      FirstVisible, Rebuilt, Readable;
    DurableState(states, disks, hs, maxLevels, keys, hash, crc, i);
    CanRecover(states[i], disks[i], crc);
    if Rebuilt(disks[i], |states[i].levels|, crc, s') {
      RecoverRestores(states[i], disks[i], crc, keys, hash, s');
    }
  }
}
