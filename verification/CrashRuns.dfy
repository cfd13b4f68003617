/**
Runs in which the process may also die inside a flush, after the manifest lists the new table
and before the log of its memtable is gone (db/flush.go:90-117). Such a state holds versions
twice, so it is followed by a clean one that reads the same: with the memtable but without the
table while both are there, and with one of the two tables once the memtable has been flushed
again. The next reopening makes the state clean.
*/
module CrashRuns {
  import opened Optional
  import opened Bytes
  import opened Keys
  import opened Versions
  import opened Tables
  import opened Engine
  import opened EngineApply
  import opened EngineSteps
  import opened EngineRuns
  import opened Compaction
  import opened Recovery
  import opened Durability
  import opened DurableSteps
  import opened DurableRuns
  import opened CrashPoints
  import W = Wal
  import M = Manifest

  // ----- what can happen -----

  /** The table of the oldest memtable is written and listed; its log is still there. */
  ghost predicate Listed(s: State, d: Disk, t: Table, d': Disk, hash: Bytes -> Word32, crc: Bytes -> Word32) {
    && s.immutables != [] && t.id == s.immutables[|s.immutables| - 1].id
    && t.entries == s.immutables[|s.immutables| - 1].entries
    && TableValid(t, hash) && t.id < U64 && d'.tables == d.tables[t.id := t] && d'.logs == d.logs
    && TablesIn(d', crc) == TablesIn(d, crc)[t.id := InfoOf(t, 0)] && NotBehind(d, d', crc)
  }

  /** The counters in the manifest have not fallen. */
  ghost predicate NotBehind(d: Disk, d': Disk, crc: Bytes -> Word32) {
    var m, m' := M.Replayed(d.manifest, M.EMPTY, crc), M.Replayed(d'.manifest, M.EMPTY, crc);
    m.Ok? && m'.Ok? && m.value.nextMemID <= m'.value.nextMemID && m.value.nextSeq <= m'.value.nextSeq
  }

  /** No memtable has been flushed to a table of L0 already, and L0 itself is only compacted if
      it does not hold a table twice. A compaction is started after a flush only, and the oldest
      memtable is flushed first; see CompactionStuck for L0. */
  ghost predicate MayLaunch(s: State, r: Result) {
    && (forall m :: m in MemsOf(s) ==> m.id !in TableIds(s.l0))
    && (r.task.inputLevel == 0 ==> OneEach(TableIds(s.l0)))
  }

  datatype Incident = Usual(happening: Happening) | CrashedListing(table: Table)

  ghost predicate Occurs(s: State, d: Disk, i: Incident, s': State, d': Disk, keys: iset<Bytes>, hash: Bytes -> Word32,
                         crc: Bytes -> Word32) {
    match i
    case Usual(h) =>
      && Happens(s, d, h, s', d', keys, hash, crc)
      && (h.Ran? && h.event.LaunchedCompaction? ==> MayLaunch(s, h.event.result))
    case CrashedListing(t) =>
      Listed(s, d, t, d', hash, crc) && Rebuilt(d', |s.levels|, crc, s')
  }

  // ----- the clean state behind -----

  /** The table is in L0 although its memtable is still there. */
  ghost predicate Twin(s: State, d: Disk, c: State, e: Disk, t: Table, hash: Bytes -> Word32, crc: Bytes -> Word32) {
    Listed(c, e, t, d, hash, crc) && c.inFlight.None? && s == Doubled(c, t)
  }

  /** A table of L0 has a copy behind it that is not on disk. */
  ghost predicate Leftover(s: State, c: State, t: Table, k: nat) {
    && k < |c.l0| && c.l0[k].id == t.id && c.l0[k].entries == t.entries
    && s == c.(l0 := c.l0[..k + 1] + ([t] + c.l0[k + 1..]))
    && (c.inFlight.Some? ==> c.inFlight.value.task.inputLevel > 0)
  }

  ghost predicate Like(s: State, d: Disk, c: State, e: Disk, hash: Bytes -> Word32, crc: Bytes -> Word32) {
    || (s == c && d == e)
    || (exists t :: Twin(s, d, c, e, t, hash, crc))
    || (d == e && exists t, k: nat :: Leftover(s, c, t, k))
  }

  lemma {:induction false} LeftoverFlat(s: State, c: State, t: Table, k: nat)
    requires Leftover(s, c, t, k)
    ensures exists above, below ::
      Flat(c) == above + (t.entries + below) && Flat(s) == above + (t.entries + (t.entries + below))
  {
    hide TablesFlat, MemsFlat, Concat, Deeper;
    var a, b := c.l0[..k], c.l0[k + 1..] + Concat(Deeper(c.levels));
    assert Searched(c) == a + ([c.l0[k]] + b) && Searched(s) == a + ([c.l0[k]] + ([t] + b));
    TablesFlatConcat(a, [c.l0[k]] + b);
    TablesFlatConcat([c.l0[k]], b);
    TablesFlatConcat(a, [c.l0[k]] + ([t] + b));
    TablesFlatConcat([c.l0[k]], [t] + b);
    TablesFlatConcat([t], b);
    TablesFlatSingle(c.l0[k]);
    TablesFlatSingle(t);
    var mems, below := c.active.entries + MemsFlat(c.immutables), TablesFlat(b);
    assert Flat(c) == (mems + TablesFlat(a)) + (t.entries + below);
    assert Flat(s) == (mems + TablesFlat(a)) + (t.entries + (t.entries + below));
  }

  /** It reads the same, for every key and snapshot. */
  lemma {:induction false} LikeReads(s: State, d: Disk, c: State, e: Disk, hash: Bytes -> Word32, crc: Bytes -> Word32,
                                     u: Bytes, m: nat)
    requires Like(s, d, c, e, hash, crc)
    ensures FirstVisible(Flat(s), u, m) == FirstVisible(Flat(c), u, m)
  {
    hide Flat, FirstVisible, TableValid, TablesIn, InfoOf, NotBehind, TablesFlat, MemsFlat, Searched, Leftover;
    if t :| Twin(s, d, c, e, t, hash, crc) {
      DoubledFlat(c, t);
      var k := |c.immutables| - 1;
      ReadTwice(c.active.entries + MemsFlat(c.immutables[..k]), t.entries, TablesFlat(Searched(c)), u, m);
    } else if !(s == c && d == e) {
      var t, k: nat :| Leftover(s, c, t, k);
      LeftoverFlat(s, c, t, k);
      var above, below :|
        Flat(c) == above + (t.entries + below) && Flat(s) == above + (t.entries + (t.entries + below));
      ReadTwice(above, t.entries, below, u, m);
    }
  }

  // ----- reopening while the table and its memtable are both there -----

  /** What the files then open to. */
  lemma {:induction false} ListedReopens(c: State, e: Disk, t: Table, d: Disk, s: State, keys: iset<Bytes>,
                                         hash: Bytes -> Word32, crc: Bytes -> Word32) returns (c': State)
    requires RunInv(c, keys, hash) && Durable(c, e, crc) && Listed(c, e, t, d, hash, crc)
    requires Rebuilt(d, |c.levels|, crc, s)
    ensures DurableInv(c', e, keys, hash, crc) && Flat(c') == Flat(c)
    ensures Twin(s, d, c', e, t, hash, crc)
  {
    hide Wf, VersionsDescend, Untorn, Durable, Rebuilt, Flat, TablesIn, InfoOf, LevelsOk, TableValid, M.Replayed,
      Flushed, IdsOk, InFlightOk, Staged;
    FlushKeeps(c, t, keys, hash);
    WfParts(Flushed(c, t), keys, hash);
    DoubledTables(c, e, t, d, s, keys, hash, crc);
    DoubledMems(c, e, d, s, crc);
    c' := c.(inFlight := None, nextMemID := s.nextMemID, nextSeq := s.nextSeq);
    ListedCounters(c, e, t, d, s, c', hash, crc);
    Reopened(c, e, M.Replayed(e.manifest, M.EMPTY, crc).value, crc, keys, hash, c');
    NothingStaged(c', e);
    RebuiltIdle(d, |c.levels|, crc, s);
  }

  lemma {:induction false} RebuiltIdle(d: Disk, maxLevels: nat, crc: Bytes -> Word32, s: State)
    requires Rebuilt(d, maxLevels, crc, s)
    ensures s.inFlight == None
  {
  }

  lemma {:induction false} ListedCounters(c: State, e: Disk, t: Table, d: Disk, s: State, c': State,
                                          hash: Bytes -> Word32, crc: Bytes -> Word32)
    requires Durable(c, e, crc) && Listed(c, e, t, d, hash, crc) && Rebuilt(d, |c.levels|, crc, s)
    requires c' == c.(inFlight := None, nextMemID := s.nextMemID, nextSeq := s.nextSeq)
    ensures var m := M.Replayed(e.manifest, M.EMPTY, crc).value;
      m.nextMemID <= c'.nextMemID && m.nextSeq <= c'.nextSeq <= MAX_SEQ && CoversMems(c')
  {
    hide Catalogued, Stored, Counted, Journaled, M.Replayed, LevelRebuilt, LevelsRebuilt, Births, Falling, MemIds,
      TableIds, TableValid, LastId, LastSeq, TablesIn, InfoOf, CoversMems;
    var m := M.Replayed(d.manifest, M.EMPTY, crc).value;
    var ids :| MemsFrom(d, m, ids, s, crc);
    FallingMems(c);
    MemsRestored(c, d, m, ids, crc, s);
    CountersRestored(c, d, m, ids, crc, s);
    CoversSame(s, c');
  }

  lemma {:induction false} CoversSame(s: State, c: State)
    requires CoversMems(s) && MemsOf(s) == MemsOf(c) && s.nextMemID == c.nextMemID && s.nextSeq == c.nextSeq
    ensures CoversMems(c)
  {
    hide MemsOf, SeqNum;
  }

  // ----- every happening has its clean counterpart -----

  ghost function Adds(s: State, i: Incident, crc: Bytes -> Word32): iset<Entry> {
    if i.Usual? then AddedBy(s, i.happening, crc) else iset{}
  }

  lemma {:induction false} CleanOccurs(s: State, d: Disk, i: Incident, s': State, d': Disk, keys: iset<Bytes>,
                                       hash: Bytes -> Word32, crc: Bytes -> Word32) returns (c': State, e': Disk)
    requires DurableInv(s, d, keys, hash, crc) && Occurs(s, d, i, s', d', keys, hash, crc)
    ensures DurableInv(c', e', keys, hash, crc) && Like(s', d', c', e', hash, crc)
    ensures Elements(Flat(c')) == Elements(Flat(s)) + Adds(s, i, crc)
  {
    hide Happens, Listed, Rebuilt, RunInv, Durable, Staged, Flat, Elements, AddedBy, MayLaunch, Leftover;
    match i
    case Usual(h) =>
      HappensKeeps(s, d, h, s', d', keys, hash, crc);
      HappensAdds(s, d, h, s', d', keys, hash, crc);
      c', e' := s', d';
    case CrashedListing(t) =>
      c' := ListedReopens(s, d, t, d', s', keys, hash, crc);
      e' := d;
      assert Elements(Flat(s)) + iset{} == Elements(Flat(s));
  }

  /** Nothing lists the table while its memtable has not been flushed. */
  lemma {:induction false} NotListed(c: State, e: Disk, t: Table, keys: iset<Bytes>, hash: Bytes -> Word32,
                                     crc: Bytes -> Word32)
    requires RunInv(c, keys, hash) && Durable(c, e, crc) && c.immutables != []
    requires t.id == c.immutables[|c.immutables| - 1].id
    ensures t.id !in TablesIn(e, crc)
  {
    hide Wf, VersionsDescend, Untorn, Counted, Stored, Journaled, Falling, Births, M.Replayed, LevelOf, IdsOk,
      LevelsOk, InFlightOk;
    WfParts(c, keys, hash);
    var tables := TablesIn(e, crc);
    if t.id in tables {
      var u :| u in LevelOf(c, tables[t.id].level) && Describes(tables[t.id], u);
      FlushedApart(c, t, tables[t.id].level, u);
    }
  }

  /** Twin disks: only what the listing changes differs. */
  lemma {:induction false} ListedAgain(c: State, e: Disk, t: Table, d: Disk, s: State, t': Table, d': Disk,
                                       hash: Bytes -> Word32, crc: Bytes -> Word32)
    requires Listed(c, e, t, d, hash, crc) && s == Doubled(c, t) && Listed(s, d, t', d', hash, crc)
    ensures Listed(c, e, t', d', hash, crc)
  {
    hide TableValid, TablesIn, InfoOf, M.Replayed;
    assert e.tables[t.id := t][t.id := t'] == e.tables[t.id := t'];
    assert TablesIn(e, crc)[t.id := InfoOf(t, 0)][t.id := InfoOf(t', 0)] == TablesIn(e, crc)[t.id := InfoOf(t', 0)];
  }

  /** Logs may grow, and memtables may be added. */
  lemma {:induction false} ListedSame(c: State, e: Disk, t: Table, d: Disk, c': State, e': Disk, d': Disk,
                                      hash: Bytes -> Word32, crc: Bytes -> Word32)
    requires Listed(c, e, t, d, hash, crc) && c'.immutables != []
    requires c'.immutables[|c'.immutables| - 1] == c.immutables[|c.immutables| - 1]
    requires e'.manifest == e.manifest && d'.manifest == d.manifest && d'.logs == e'.logs
    requires e'.tables == e.tables && d'.tables == d.tables
    ensures Listed(c', e', t, d', hash, crc)
  {
    hide TableValid, InfoOf, M.Replayed;
  }

  lemma {:induction false} TwinWrote(s: State, d: Disk, c: State, e: Disk, t: Table, ops: seq<Op>, logged: bool,
                                     s': State, d': Disk, keys: iset<Bytes>, hash: Bytes -> Word32,
                                     crc: Bytes -> Word32) returns (c': State, e': Disk)
    requires Twin(s, d, c, e, t, hash, crc) && Step(s, Wrote(ops, logged), s', keys, hash)
    requires Writes(s, Wrote(ops, logged), d, d', crc)
    ensures Happens(c, e, Ran(Wrote(ops, logged)), c', e', keys, hash, crc) && Twin(s', d', c', e', t, hash, crc)
  {
    hide LoggedOps, W.RecordBytes, W.Fits, Clean, WriteOps, OpsSize, TableValid, TablesIn, InfoOf, NotBehind;
    c' := if logged then Written(c, ops) else Skipped(c, |ops|);
    e' := if logged then Appended(e, c.active.id, W.RecordBytes(LoggedOps(ops, c.nextSeq), crc)) else e;
    ListedSame(c, e, t, d, c', e', d', hash, crc);
  }

  lemma {:induction false} TwinRotated(s: State, d: Disk, c: State, e: Disk, t: Table, s': State, d': Disk,
                                       keys: iset<Bytes>, hash: Bytes -> Word32, crc: Bytes -> Word32)
    returns (c': State, e': Disk)
    requires Twin(s, d, c, e, t, hash, crc) && Step(s, RotatedMemtable, s', keys, hash)
    requires Writes(s, RotatedMemtable, d, d', crc)
    ensures Happens(c, e, Ran(RotatedMemtable), c', e', keys, hash, crc) && Twin(s', d', c', e', t, hash, crc)
  {
    hide TableValid, TablesIn, InfoOf, NotBehind;
    c', e' := Rotated(c), e.(logs := e.logs[c.nextMemID + 1 := []]);
    ListedSame(c, e, t, d, c', e', d', hash, crc);
  }

  /** Flushing the memtable again leaves the first table behind in L0 only. */
  lemma {:induction false} TwinFlushed(s: State, d: Disk, c: State, e: Disk, t: Table, t': Table, s': State, d': Disk,
                                       keys: iset<Bytes>, hash: Bytes -> Word32, crc: Bytes -> Word32)
    returns (c': State)
    requires Twin(s, d, c, e, t, hash, crc)
    requires Step(s, FlushedMemtable(t'), s', keys, hash) && Writes(s, FlushedMemtable(t'), d, d', crc)
    ensures Happens(c, e, Ran(FlushedMemtable(t')), c', d', keys, hash, crc) && Leftover(s', c', t, 0)
  {
    hide TableValid, TablesIn, InfoOf, NotBehind, M.Replayed;
    c' := Flushed(c, t');
    assert e.tables[t.id := t][t.id := t'] == e.tables[t.id := t'];
    assert TablesIn(e, crc)[t.id := InfoOf(t, 0)][t.id := InfoOf(t', 0)] == TablesIn(e, crc)[t.id := InfoOf(t', 0)];
    assert c'.l0[..1] == [t'] && c'.l0[1..] == c.l0;
    assert s'.l0 == [t'] + ([t] + c.l0);
  }

  /** A step of the engine while the table and its memtable are both there. */
  lemma {:induction false} TwinRan(s: State, d: Disk, c: State, e: Disk, t: Table, ev: Event, s': State, d': Disk,
                                   keys: iset<Bytes>, hash: Bytes -> Word32, crc: Bytes -> Word32)
    returns (c': State, e': Disk)
    requires Twin(s, d, c, e, t, hash, crc) && Step(s, ev, s', keys, hash) && Writes(s, ev, d, d', crc)
    requires ev.LaunchedCompaction? ==> MayLaunch(s, ev.result)
    ensures Happens(c, e, Ran(ev), c', e', keys, hash, crc) && Like(s', d', c', e', hash, crc)
  {
    hide Happens, Listed, Leftover, Written, Writes, Executed, Untorn, Applied, TableValid, Flushed;
    match ev
    case Wrote(ops, logged) =>
      c', e' := TwinWrote(s, d, c, e, t, ops, logged, s', d', keys, hash, crc);
    case RotatedMemtable =>
      c', e' := TwinRotated(s, d, c, e, t, s', d', keys, hash, crc);
    case FlushedMemtable(t') =>
      c' := TwinFlushed(s, d, c, e, t, t', s', d', keys, hash, crc);
      e' := d';
    case ReservedIds(n) =>
      c', e' := TwinReserved(s, d, c, e, t, n, s', d', keys, hash, crc);
    case LaunchedCompaction(r) =>
      TwinIdle(s, d, c, e, t, r, hash, crc);
      assert false;
    case AppliedCompaction =>
      assert false;
    case FailedCompaction =>
      assert false;
  }

  lemma {:induction false} TwinReserved(s: State, d: Disk, c: State, e: Disk, t: Table, n: nat, s': State, d': Disk,
                                        keys: iset<Bytes>, hash: Bytes -> Word32, crc: Bytes -> Word32)
    returns (c': State, e': Disk)
    requires Twin(s, d, c, e, t, hash, crc) && Step(s, ReservedIds(n), s', keys, hash)
    requires Writes(s, ReservedIds(n), d, d', crc)
    ensures Happens(c, e, Ran(ReservedIds(n)), c', e', keys, hash, crc) && Twin(s', d', c', e', t, hash, crc)
  {
    hide TableValid, TablesIn, InfoOf, NotBehind;
    c', e' := Reserved(c, n), e;
    ListedSame(c, e, t, d, c', e', d', hash, crc);
  }

  lemma {:induction false} TwinIdle(s: State, d: Disk, c: State, e: Disk, t: Table, r: Result, hash: Bytes -> Word32,
                                    crc: Bytes -> Word32)
    requires Twin(s, d, c, e, t, hash, crc)
    ensures !MayLaunch(s, r)
  {
    hide TableValid, TablesIn, InfoOf, NotBehind;
    var m := s.immutables[|s.immutables| - 1];
    assert m in MemsOf(s) && TableIds(s.l0)[0] == m.id;
  }

  /** A crash while a batch is being logged. */
  lemma {:induction false} TwinInterrupted(s: State, d: Disk, c: State, e: Disk, t: Table, ops: seq<Op>, n: nat,
                                           s': State, d': Disk, keys: iset<Bytes>, hash: Bytes -> Word32,
                                           crc: Bytes -> Word32)
    returns (c': State, e': Disk)
    requires DurableInv(c, e, keys, hash, crc) && Twin(s, d, c, e, t, hash, crc)
    requires Interrupted(s, d, ops, n, d', keys, crc) && Rebuilt(d', |s.levels|, crc, s')
    ensures DurableInv(c', e', keys, hash, crc) && Twin(s', d', c', e', t, hash, crc)
    ensures Elements(Flat(c')) == Elements(Flat(c)) + AddedBy(s, CrashedWriting(ops, n), crc)
  {
    hide Wf, VersionsDescend, Untorn, Durable, Flat, Elements, W.RecordBytes, W.Fits, LoggedOps, Rebuilt, WriteOps,
      OpsSize, Clean, NewVersions, Listed, Staged;
    TwinLogs(s, d, c, e, t, hash, crc);
    var record := W.RecordBytes(LoggedOps(ops, c.nextSeq), crc);
    e' := Appended(e, c.active.id, record[..n]);
    assert Interrupted(c, e, ops, n, e', keys, crc);
    var base := if Complete(c, ops, n, crc) then Written(c, ops) else c;
    if Complete(c, ops, n, crc) {
      assert record[..n] == record;
      WriteStep(c, ops, keys, hash);
      WriteDurable(c, ops, e, e', crc);
      InterruptedAdds(c, e, ops, n, e', keys, hash, crc);
    } else {
      TornDurable(c, e, LoggedOps(ops, c.nextSeq), n, crc);
      assert Elements(Flat(c)) + iset{} == Elements(Flat(c));
    }
    ListedSame(c, e, t, d, base, e', d', hash, crc);
    c' := ListedReopens(base, e', t, d', s', keys, hash, crc);
  }

  lemma {:induction false} TwinLogs(s: State, d: Disk, c: State, e: Disk, t: Table, hash: Bytes -> Word32,
                                    crc: Bytes -> Word32)
    requires Twin(s, d, c, e, t, hash, crc)
    ensures d.logs == e.logs && s.active == c.active && s.nextSeq == c.nextSeq && s.levels == c.levels
    ensures s.immutables == c.immutables != []
  {
    hide TableValid, TablesIn, InfoOf, NotBehind;
  }

  /** A crash before anything more is listed. */
  lemma {:induction false} TwinBuilding(s: State, d: Disk, c: State, e: Disk, t: Table, s': State, d': Disk,
                                        keys: iset<Bytes>, hash: Bytes -> Word32, crc: Bytes -> Word32)
    returns (c': State, e': Disk)
    requires DurableInv(c, e, keys, hash, crc) && Twin(s, d, c, e, t, hash, crc)
    requires SameListed(d, d', crc) && Rebuilt(d', |s.levels|, crc, s')
    ensures DurableInv(c', e', keys, hash, crc) && Twin(s', d', c', e', t, hash, crc) && Flat(c') == Flat(c)
  {
    hide Wf, VersionsDescend, Untorn, Durable, Flat, Rebuilt, Staged, TableValid, InfoOf, M.Replayed, NotBehind;
    TwinLogs(s, d, c, e, t, hash, crc);
    NotListed(c, e, t, keys, hash, crc);
    e' := e.(tables := d'.tables);
    BuildingFiles(c, e, t, d, d', e', hash, crc);
    ListedDurable(c, e, e', crc);
    c' := ListedReopens(c, e', t, d', s', keys, hash, crc);
  }

  lemma {:induction false} BuildingFiles(c: State, e: Disk, t: Table, d: Disk, d': Disk, e': Disk,
                                         hash: Bytes -> Word32, crc: Bytes -> Word32)
    requires Listed(c, e, t, d, hash, crc) && SameListed(d, d', crc) && t.id !in TablesIn(e, crc)
    requires e' == e.(tables := d'.tables)
    ensures SameListed(e, e', crc) && Listed(c, e', t, d', hash, crc)
  {
    hide TableValid, InfoOf, M.Replayed;
    assert t.id in TablesIn(d, crc) && t.id in d.tables;
    assert d'.tables == d'.tables[t.id := t];
    forall id | id in TablesIn(e, crc) && id in e.tables ensures id in e'.tables && e'.tables[id] == e.tables[id] {
      assert id in TablesIn(d, crc) && id in d.tables && d.tables[id] == e.tables[id];
    }
  }

  lemma {:induction false} TwinOccurs(s: State, d: Disk, c: State, e: Disk, t: Table, i: Incident, s': State,
                                      d': Disk, keys: iset<Bytes>, hash: Bytes -> Word32, crc: Bytes -> Word32)
    returns (c': State, e': Disk)
    requires DurableInv(c, e, keys, hash, crc) && Twin(s, d, c, e, t, hash, crc)
    requires Occurs(s, d, i, s', d', keys, hash, crc)
    ensures DurableInv(c', e', keys, hash, crc) && Like(s', d', c', e', hash, crc)
    ensures Elements(Flat(c')) == Elements(Flat(c)) + Adds(s, i, crc)
  {
    hide Step, Writes, Listed, Rebuilt, RunInv, Durable, Staged, Flat, Elements, Leftover, Interrupted, SameListed,
      NewVersions, Complete, MayLaunch;
    TwinLogs(s, d, c, e, t, hash, crc);
    assert Elements(Flat(c)) + iset{} == Elements(Flat(c));
    match i
    case CrashedListing(t') =>
      ListedAgain(c, e, t, d, s, t', d', hash, crc);
      c' := ListedReopens(c, e, t', d', s', keys, hash, crc);
      e' := e;
    case Usual(Ran(ev)) =>
      c', e' := TwinRan(s, d, c, e, t, ev, s', d', keys, hash, crc);
      HappensKeeps(c, e, Ran(ev), c', e', keys, hash, crc);
      HappensAdds(c, e, Ran(ev), c', e', keys, hash, crc);
    case Usual(Crashed) =>
      c' := ListedReopens(c, e, t, d, s', keys, hash, crc);
      e' := e;
    case Usual(CrashedWriting(ops, n)) =>
      c', e' := TwinInterrupted(s, d, c, e, t, ops, n, s', d', keys, hash, crc);
    case Usual(CrashedBuilding) =>
      c', e' := TwinBuilding(s, d, c, e, t, s', d', keys, hash, crc);
  }

  // ----- with a copy left in L0 -----

  lemma {:induction false} LeftoverLaunched(s: State, c: State, t: Table, k: nat, r: Result, hash: Bytes -> Word32)
    requires Leftover(s, c, t, k) && Executed(s, r, hash) && MayLaunch(s, r)
    ensures Executed(c, r, hash) && r.task.inputLevel > 0
  {
    hide Spans, Overlapping, TablesFlat, TablesValid, Sorted, OneEach, MemsOf;
    var ids := TableIds(s.l0);
    assert s.l0[k] == c.l0[k] && s.l0[k + 1] == t;
    assert ids[k] == ids[k + 1] == t.id;
    assert !OneEach(ids) by { NotOneEach(ids, k, k + 1); }
    assert r.task.inputLevel > 0;
    forall id | id in AllIds(c) ensures id in AllIds(s) { LeftoverIds(s, c, t, k, id); }
  }

  lemma {:induction false} NotOneEach(ids: seq<nat>, i: nat, j: nat)
    requires i < j < |ids| && ids[i] == ids[j]
    ensures !OneEach(ids)
  {
  }

  lemma {:induction false} LeftoverIds(s: State, c: State, t: Table, k: nat, id: nat)
    requires Leftover(s, c, t, k) && id in AllIds(c)
    ensures id in AllIds(s)
  {
    hide Concat, Deeper, MemIds;
    if id in TableIds(Searched(c)) {
      var i :| 0 <= i < |Searched(c)| && Searched(c)[i].id == id;
      var j := if i <= k then i else i + 1;
      assert Searched(s)[j] == Searched(c)[i];
      assert TableIds(Searched(s))[j] == id;
    }
  }

  /** What is written to disk does not depend on L0. */
  lemma {:induction false} LeftoverWrites(s: State, c: State, t: Table, k: nat, ev: Event, d: Disk, d': Disk,
                                          crc: Bytes -> Word32)
    requires Leftover(s, c, t, k) && Writes(s, ev, d, d', crc)
    ensures Writes(c, ev, d, d', crc)
  {
    hide TablesIn, InfoOf, M.Replayed, LoggedOps, W.RecordBytes, W.Fits, Clean, Relisted, IdsOf;
  }

  lemma {:induction false} LeftoverRan(s: State, c: State, d: Disk, t: Table, k: nat, ev: Event, s': State, d': Disk,
                                       keys: iset<Bytes>, hash: Bytes -> Word32, crc: Bytes -> Word32)
    returns (c': State)
    requires Leftover(s, c, t, k) && Step(s, ev, s', keys, hash) && Writes(s, ev, d, d', crc)
    requires ev.LaunchedCompaction? ==> MayLaunch(s, ev.result)
    ensures Happens(c, d, Ran(ev), c', d', keys, hash, crc) && exists j: nat :: Leftover(s', c', t, j)
  {
    hide TableValid, WriteOps, OpsSize, Executed,
      ApplyLevels, Writes, MayLaunch, TablesFlat, LeftBehind;
    LeftoverWrites(s, c, t, k, ev, d, d', crc);
    match ev
    case Wrote(ops, logged) =>
      c' := if logged then Written(c, ops) else Skipped(c, |ops|);
      assert Leftover(s', c', t, k);
    case RotatedMemtable =>
      c' := Rotated(c);
      assert Leftover(s', c', t, k);
    case FlushedMemtable(t') =>
      c' := Flushed(c, t');
      assert c'.l0[..k + 2] == [t'] + c.l0[..k + 1] && c'.l0[k + 2..] == c.l0[k + 1..] && c'.l0[k + 1] == c.l0[k];
      assert Leftover(s', c', t, k + 1);
    case ReservedIds(n) =>
      c' := Reserved(c, n);
      assert Leftover(s', c', t, k);
    case LaunchedCompaction(r) =>
      c' := Launched(c, r);
      LeftoverLaunched(s, c, t, k, r, hash);
      assert LeftBehind(c') == LeftBehind(s') by { SameLevels(s', c'); }
      assert Leftover(s', c', t, k);
    case AppliedCompaction =>
      c' := Applied(c);
      assert Leftover(s', c', t, k);
    case FailedCompaction =>
      c' := c.(inFlight := None);
      assert Leftover(s', c', t, k);
  }

  /** Why L0 is not compacted then: the executor refuses, unless a table happens to end between
      the two copies of every version. */
  lemma {:induction false} LeftoverStuck(s: State, c: State, t: Table, k: nat, task: Task, merged: seq<Entry>,
                                         estimate: seq<Entry> -> nat, target: nat)
    requires Leftover(s, c, t, k) && t.entries != [] && L0Task(LevelState(s.l0, s.levels), task) && Ordered(merged)
    requires multiset(merged) == multiset(TablesFlat(task.inputs + task.overlapping))
    requires AllSorted(Pieces(merged, estimate, target))
    ensures !Growing(merged, estimate, target)
    ensures forall e :: e in t.entries ==>
      var pieces := Pieces(merged, estimate, target);
      exists p, q :: 0 <= p < q < |pieces| && e in pieces[p] && e in pieces[q]
  {
    hide Ordered, AllSorted, Pieces, Growing, TablesFlat, L0Task;
    assert s.l0[k] == c.l0[k] && s.l0[k + 1] == t;
    CompactionStuck(LevelState(s.l0, s.levels), k, k + 1, task, merged, estimate, target);
  }

  lemma {:induction false} SameLevels(s: State, c: State)
    requires s.inFlight.Some? && s.inFlight == c.inFlight && s.levels == c.levels
    ensures LeftBehind(s) == LeftBehind(c)
  {
  }

  lemma {:induction false} LeftoverOccurs(s: State, c: State, d: Disk, t: Table, k: nat, i: Incident, s': State,
                                          d': Disk, keys: iset<Bytes>, hash: Bytes -> Word32, crc: Bytes -> Word32)
    returns (c': State, e': Disk)
    requires DurableInv(c, d, keys, hash, crc) && Leftover(s, c, t, k) && Occurs(s, d, i, s', d', keys, hash, crc)
    ensures DurableInv(c', e', keys, hash, crc) && Like(s', d', c', e', hash, crc)
    ensures Elements(Flat(c')) == Elements(Flat(c)) + Adds(s, i, crc)
  {
    hide Step, Writes, Rebuilt, RunInv, Durable, Staged, Flat, Elements, SameListed, NewVersions, MayLaunch, TableValid,
      TablesIn, InfoOf, NotBehind, W.RecordBytes, LoggedOps, W.Fits, Clean;
    match i
    case CrashedListing(t') =>
      assert Elements(Flat(c)) + iset{} == Elements(Flat(c));
      assert Listed(c, d, t', d', hash, crc);
      c' := ListedReopens(c, d, t', d', s', keys, hash, crc);
      e' := d;
    case Usual(Ran(ev)) =>
      c' := LeftoverRan(s, c, d, t, k, ev, s', d', keys, hash, crc);
      e' := d';
      HappensKeeps(c, d, Ran(ev), c', e', keys, hash, crc);
      HappensAdds(c, d, Ran(ev), c', e', keys, hash, crc);
    case Usual(h) =>
      assert Happens(c, d, h, s', d', keys, hash, crc);
      c', e' := s', d';
      HappensKeeps(c, d, h, c', e', keys, hash, crc);
      HappensAdds(c, d, h, c', e', keys, hash, crc);
  }

  // ----- runs -----

  lemma {:induction false} LikeOccurs(s: State, d: Disk, c: State, e: Disk, i: Incident, s': State, d': Disk,
                                      keys: iset<Bytes>, hash: Bytes -> Word32, crc: Bytes -> Word32)
    returns (c': State, e': Disk)
    requires DurableInv(c, e, keys, hash, crc) && Like(s, d, c, e, hash, crc)
    requires Occurs(s, d, i, s', d', keys, hash, crc)
    ensures DurableInv(c', e', keys, hash, crc) && Like(s', d', c', e', hash, crc)
    ensures Elements(Flat(c')) == Elements(Flat(c)) + Adds(s, i, crc)
  {
    hide DurableInv, Occurs, Twin, Leftover, Elements, Flat, Adds;
    if s == c && d == e {
      c', e' := CleanOccurs(s, d, i, s', d', keys, hash, crc);
    } else if t :| Twin(s, d, c, e, t, hash, crc) {
      c', e' := TwinOccurs(s, d, c, e, t, i, s', d', keys, hash, crc);
    } else {
      var t, k: nat :| Leftover(s, c, t, k);
      c', e' := LeftoverOccurs(s, c, d, t, k, i, s', d', keys, hash, crc);
    }
  }

  ghost predicate IsCrashRun(states: seq<State>, disks: seq<Disk>, ins: seq<Incident>, maxLevels: nat,
                             keys: iset<Bytes>, hash: Bytes -> Word32, crc: Bytes -> Word32) {
    && |states| == |disks| == |ins| + 1
    && Init(states[0], maxLevels) && InitDisk(disks[0], crc)
    && forall i :: 0 <= i < |ins| ==> Occurs(states[i], disks[i], ins[i], states[i + 1], disks[i + 1], keys, hash, crc)
  }

  /** The versions of the writes acknowledged, or complete in the log, among the first i. */
  ghost function CommittedBy(states: seq<State>, ins: seq<Incident>, i: nat, crc: Bytes -> Word32): iset<Entry>
    requires i <= |ins| < |states|
  {
    if i == 0 then iset{} else CommittedBy(states, ins, i - 1, crc) + Adds(states[i - 1], ins[i - 1], crc)
  }

  lemma {:induction false} CrashRunState(states: seq<State>, disks: seq<Disk>, ins: seq<Incident>, maxLevels: nat,
                                         keys: iset<Bytes>, hash: Bytes -> Word32, crc: Bytes -> Word32, i: nat)
    returns (c: State, e: Disk)
    requires IsCrashRun(states, disks, ins, maxLevels, keys, hash, crc) && SeparableSpace(keys) && i <= |ins|
    ensures DurableInv(c, e, keys, hash, crc) && Like(states[i], disks[i], c, e, hash, crc)
    ensures Elements(Flat(c)) == CommittedBy(states, ins, i, crc)
  {
    hide DurableInv, Occurs, InitDisk, SeparableSpace, Elements, Flat, Adds, Twin, Leftover;
    if i == 0 {
      InitDurable(states[0], disks[0], maxLevels, keys, hash, crc);
      InitOk(states[0], maxLevels, keys, hash);
      assert Elements(Flat(states[0])) == View(states[0]).versions;
      c, e := states[0], disks[0];
    } else {
      c, e := CrashRunState(states, disks, ins, maxLevels, keys, hash, crc, i - 1);
      assert Occurs(states[i - 1], disks[i - 1], ins[i - 1], states[i], disks[i], keys, hash, crc);
      c, e := LikeOccurs(states[i - 1], disks[i - 1], c, e, ins[i - 1], states[i], disks[i], keys, hash, crc);
    }
  }

  /** In every such run, every read returns the newest committed version it may see. */
  lemma {:induction false} CrashRunReads(states: seq<State>, disks: seq<Disk>, ins: seq<Incident>, maxLevels: nat,
                                         keys: iset<Bytes>, hash: Bytes -> Word32, crc: Bytes -> Word32, i: nat,
                                         u: Bytes, m: nat)
    requires IsCrashRun(states, disks, ins, maxLevels, keys, hash, crc) && SeparableSpace(keys) && i <= |ins|
    ensures ReadsNewest(CommittedBy(states, ins, i, crc), u, m, FirstVisible(Flat(states[i]), u, m))
  {
    hide Occurs, Init, InitDisk, Wf, VersionsDescend, Untorn, Durable, Staged, Elements, Flat, SeparableSpace,
      CommittedBy, ReadsNewest, FirstVisible, Like;
    var c, e := CrashRunState(states, disks, ins, maxLevels, keys, hash, crc, i);
    LikeReads(states[i], disks[i], c, e, hash, crc, u, m);
    FirstVisibleIsNewest(Flat(c), u, m);
  }
}
