/**
What the files of a directory must hold for the engine to come back as it was, and the proof
that it does (db/db.go, db/flush.go, db/compact.go).
*/
module Durability {
  import opened Optional
  import opened Bytes
  import opened Keys
  import opened Versions
  import opened Tables
  import opened Iterators
  import opened LevelMerge
  import opened Engine
  import opened EngineSteps
  import opened EngineRuns
  import opened Recovery
  import W = Wal
  import M = Manifest
  import F = ManifestFormat

  // ----- tables -----

  function LevelOf(s: State, n: nat): seq<Table> {
    if n == 0 then s.l0 else if n < |s.levels| then s.levels[n] else []
  }

  predicate Describes(i: F.Info, t: Table) {
    i.id == t.id && i.firstKey == FirstKey(t) && i.lastKey == LastKey(t)
  }

  /** The manifest lists exactly the tables of the state, under their levels. */
  ghost predicate Catalogued(s: State, tables: map<F.Word64, F.Info>) {
    && (forall id :: id in tables ==>
          tables[id].id == id && exists t :: t in LevelOf(s, tables[id].level) && Describes(tables[id], t))
    && (forall n: nat, t :: t in LevelOf(s, n) ==>
          t.id in tables && tables[t.id].level == n && Describes(tables[t.id], t))
  }

  /** Every table of the state has its file. */
  ghost predicate Stored(s: State, files: map<nat, Table>) {
    forall n: nat, t :: t in LevelOf(s, n) ==> t.id in files && files[t.id] == t
  }

  predicate NewerTable(a: Table, b: Table) {
    a.id > b.id
  }

  predicate EarlierTable(a: Table, b: Table) {
    Less(FirstKey(a), FirstKey(b))
  }

  function TableOrder(n: nat): (Table, Table) -> bool {
    if n == 0 then NewerTable else EarlierTable
  }

  lemma {:induction false} OpenedTable(s: State, d: Disk, tables: map<F.Word64, F.Info>, n: nat, infos: seq<F.Info>,
                                       ts: seq<Table>, i: nat)
    requires Catalogued(s, tables) && Stored(s, d.tables)
    requires Lists(infos, tables, n) && Opened(d.tables, infos, ts) && i < |infos|
    ensures ts[i] in LevelOf(s, n) && Describes(infos[i], ts[i])
  {
    hide FirstKey, LastKey, LevelOf;
    assert infos[i] in infos;
    var t :| t in LevelOf(s, n) && Describes(infos[i], t);
  }

  /** A level comes back as it was. */
  lemma {:induction false} LevelIs(s: State, d: Disk, tables: map<F.Word64, F.Info>, n: nat, ts: seq<Table>)
    requires Catalogued(s, tables) && Stored(s, d.tables) && LevelRebuilt(d, tables, n, ts)
    requires NoDup(LevelOf(s, n)) && StrictBy(LevelOf(s, n), TableOrder(n))
    ensures ts == LevelOf(s, n)
  {
    hide LevelOf, Less, FirstKey, LastKey, StrictBy;
    var infos :| Lists(infos, tables, n) && SortedBy(infos, OrderOf(n)) && Opened(d.tables, infos, ts);
    forall i | 0 <= i < |infos| ensures ts[i] in LevelOf(s, n) && Describes(infos[i], ts[i]) {
      OpenedTable(s, d, tables, n, infos, ts, i);
    }
    forall t | t in LevelOf(s, n) ensures t in ts {
      var info := tables[t.id];
      assert info in infos;
      var i :| 0 <= i < |infos| && infos[i] == info;
      assert ts[i] == t;
    }
    forall i, j | 0 <= i < j < |ts| ensures ts[i] != ts[j] && !TableOrder(n)(ts[j], ts[i]) {
      assert infos[i] in infos && infos[j] in infos;
      assert infos[i] != infos[j] && !OrderOf(n)(infos[j], infos[i]);
    }
    OneOrder(ts, LevelOf(s, n), TableOrder(n));
  }

  // ----- memtables -----

  function MemsOf(s: State): seq<Memtable> {
    [s.active] + s.immutables
  }

  /** A log of whole records, possibly with a tail that does not pass for one, and the memtable
      the records make. */
  ghost predicate Journals(log: Bytes, m: Memtable, crc: Bytes -> Word32) {
    exists bs, tail ::
      && W.AllFit(bs) && log == W.Log(bs, crc) + tail && !W.Checks(tail, crc)
      && m == LoadedMem(m.id, W.Batched(bs))
  }

  /** Nothing but whole records. */
  ghost predicate Clean(log: Bytes, crc: Bytes -> Word32) {
    exists bs :: W.AllFit(bs) && log == W.Log(bs, crc)
  }

  /** One log for each memtable. */
  ghost predicate Journaled(s: State, logs: map<nat, Bytes>, crc: Bytes -> Word32) {
    && (forall id :: id in logs ==> exists m :: m in MemsOf(s) && m.id == id)
    && (forall m :: m in MemsOf(s) ==> m.id in logs && Journals(logs[m.id], m, crc))
  }

  predicate Falling(ids: seq<nat>) {
    forall i, j :: 0 <= i < j < |ids| ==> ids[i] > ids[j]
  }

  lemma {:induction false} JournalRecovers(log: Bytes, m: Memtable, crc: Bytes -> Word32)
    requires Journals(log, m, crc)
    ensures var r := W.Recovered(log, [], crc); r.Ok? && m == LoadedMem(m.id, r.value)
  {
    hide W.Fits, W.Log, W.Batched, LoadedMem, W.Recovered, W.Checks;
    var bs, tail :|
      && W.AllFit(bs) && log == W.Log(bs, crc) + tail && !W.Checks(tail, crc)
      && m == LoadedMem(m.id, W.Batched(bs));
    W.UncheckedStops(bs, tail, crc);
  }

  /** The records of a clean log make the memtable. */
  lemma {:induction false} CleanJournal(log: Bytes, m: Memtable, bs: seq<seq<W.Logged>>, crc: Bytes -> Word32)
    requires Journals(log, m, crc) && W.AllFit(bs) && log == W.Log(bs, crc)
    ensures m == LoadedMem(m.id, W.Batched(bs))
  {
    hide W.Fits, W.Log, W.Batched, LoadedMem, W.Recovered, Journals;
    JournalRecovers(log, m, crc);
    NothingChecks([], crc);
    W.UncheckedStops(bs, [], crc);
    assert log + [] == log;
  }

  lemma {:induction false} NothingChecks(tail: Bytes, crc: Bytes -> Word32)
    requires tail == []
    ensures !W.Checks(tail, crc)
  {
  }

  /** A clean log with a torn record behind it journals the same memtable. */
  lemma {:induction false} TornJournal(log: Bytes, m: Memtable, es: seq<W.Logged>, n: nat, crc: Bytes -> Word32)
    requires Journals(log, m, crc) && Clean(log, crc) && W.Fits(es) && n < |W.RecordBytes(es, crc)|
    ensures Journals(log + W.RecordBytes(es, crc)[..n], m, crc)
  {
    hide W.Fits, W.Log, W.Batched, LoadedMem, W.RecordBytes, W.Checks;
    var bs :| W.AllFit(bs) && log == W.Log(bs, crc);
    CleanJournal(log, m, bs, crc);
    W.TornUnchecked(es, n, crc);
    var tail := W.RecordBytes(es, crc)[..n];
    assert log + tail == W.Log(bs, crc) + tail;
  }

  predicate Higher(a: nat, b: nat) {
    a > b
  }

  function Backwards(ids: seq<nat>): (r: seq<nat>)
    ensures |r| == |ids| && forall k :: 0 <= k < |r| ==> r[k] == ids[|ids| - 1 - k]
  {
    seq(|ids|, k requires 0 <= k < |ids| => ids[|ids| - 1 - k])
  }

  lemma {:induction false} BackwardsHas(ids: seq<nat>)
    ensures forall id :: id in Backwards(ids) <==> id in ids
  {
    forall id | id in ids ensures id in Backwards(ids) {
      var i :| 0 <= i < |ids| && ids[i] == id;
      assert Backwards(ids)[|ids| - 1 - i] == id;
    }
  }

  /** The log ids, taken backwards, are those of the memtables. */
  lemma {:induction false} LogOrder(ms: seq<Memtable>, logs: map<nat, Bytes>, ids: seq<nat>)
    requires forall id :: id in logs ==> exists m :: m in ms && m.id == id
    requires forall m :: m in ms ==> m.id in logs
    requires StrictBy(ids, Lower) && (forall id :: id in ids <==> id in logs) && Falling(MemIds(ms))
    ensures Backwards(ids) == MemIds(ms)
  {
    hide MemIds, Backwards;
    var want, back := MemIds(ms), Backwards(ids);
    BackwardsHas(ids);
    forall id | id in back ensures id in want {
      var m :| m in ms && m.id == id;
      var k :| 0 <= k < |ms| && ms[k] == m;
      assert want[k] == id;
    }
    forall id | id in want ensures id in back {
      var k :| 0 <= k < |want| && want[k] == id;
      assert ms[k] in ms;
    }
    OneOrder(back, want, Higher);
  }

  /** The memtables come back as they were. */
  lemma {:induction false} MemsAre(s: State, d: Disk, ids: seq<nat>, crc: Bytes -> Word32)
    requires Journaled(s, d.logs, crc) && AllLogged(d, ids) && Backwards(ids) == MemIds(MemsOf(s))
    ensures Mems(d, ids, crc) == MemsOf(s)
  {
    hide LoadedMem, W.Recovered, Journals, Mems, Backwards, MemIds, MemsOf;
    var ms := MemsOf(s);
    forall k | 0 <= k < |ids| ensures Mems(d, ids, crc)[k] == ms[k] {
      assert ms[k] in ms && Backwards(ids)[k] == ms[k].id == ids[|ids| - 1 - k];
      JournalRecovers(d.logs[ms[k].id], ms[k], crc);
      MemsAt(d, ids, crc, k);
    }
  }

  /** Everything in a rebuilt memtable comes from its log. */
  lemma {:induction false} LoadedFrom(es: seq<Entry>, log: seq<W.Logged>, e: Entry)
    requires e in Load(es, log)
    ensures e in es || exists l :: l in log && VersionIn(l) == e
    decreases log
  {
    hide MakeInternalKey, Insert;
    if log != [] {
      LoadedFrom(Insert(es, VersionIn(log[0])), log[1..], e);
      InsertKeepsElements(es, VersionIn(log[0]));
      assert e in Insert(es, VersionIn(log[0])) <==> e in Elements(Insert(es, VersionIn(log[0])));
    }
  }

  lemma {:induction false} LoggedSeq(m: Memtable, log: seq<W.Logged>, e: Entry, q: nat)
    requires m == LoadedMem(m.id, log) && e in m.entries
    requires forall l :: l in log ==> l.seq_ <= q
    ensures SeqOf(e) <= q
  {
    hide MakeInternalKey, Load, SeqNum, UserKey;
    LoadedFrom([], log, e);
    var l :| l in log && VersionIn(l) == e;
    SplitOfMake(l.key, l.seq_);
  }

  lemma {:induction false} HighestSeqCovers(log: seq<W.Logged>, q: nat)
    ensures var r := HighestSeq(log, q);
      r >= q && (q <= MAX_SEQ ==> r <= MAX_SEQ) && forall e :: e in log ==> e.seq_ <= r
    decreases log
  {
    if log != [] {
      HighestSeqCovers(log[1..], if log[0].seq_ >= q then log[0].seq_ else q);
      assert log == [log[0]] + log[1..];
    }
  }

  /** The recovered counters are not behind the manifest, nor behind any log. */
  lemma {:induction false} LastSeqCovers(d: Disk, ids: seq<nat>, q: nat, crc: Bytes -> Word32)
    requires AllLogged(d, ids)
    ensures var r := LastSeq(d, ids, q, crc); r >= q && (q <= MAX_SEQ ==> r <= MAX_SEQ)
    ensures forall i, e :: 0 <= i < |ids| && e in LogOf(d, ids[i], crc) ==> e.seq_ <= LastSeq(d, ids, q, crc)
  {
    hide HighestSeq, LogOf;
    if ids != [] {
      var n := |ids| - 1;
      LastSeqCovers(d, ids[..n], q, crc);
      HighestSeqCovers(LogOf(d, ids[n], crc), LastSeq(d, ids[..n], q, crc));
      forall i, e | 0 <= i < |ids| && e in LogOf(d, ids[i], crc) ensures e.seq_ <= LastSeq(d, ids, q, crc) {
        if i < n { assert ids[..n][i] == ids[i]; }
      }
    }
  }

  lemma {:induction false} LastIdCovers(ids: seq<nat>, k: nat)
    ensures LastId(ids, k) >= k && forall i :: 0 <= i < |ids| ==> ids[i] <= LastId(ids, k)
  {
    if ids != [] { LastIdCovers(ids[..|ids| - 1], k); }
  }

  // ----- the whole state -----

  /** The counters on disk are not behind the tables, nor ahead of the engine. */
  ghost predicate Counted(s: State, m: M.State) {
    && m.nextMemID <= s.nextMemID && m.nextSeq <= s.nextSeq
    && forall n: nat, t :: t in LevelOf(s, n) ==>
         t.id <= m.nextMemID && forall e :: e in t.entries ==> SeqOf(e) <= m.nextSeq
  }

  /** Memtables and L0, in search order, from the newest to the oldest. */
  function Births(s: State): seq<nat> {
    MemIds(MemsOf(s)) + TableIds(s.l0)
  }

  ghost predicate Durable(s: State, d: Disk, crc: Bytes -> Word32) {
    var m := M.Replayed(d.manifest, M.EMPTY, crc);
    && m.Ok? && Catalogued(s, m.value.tables) && Counted(s, m.value)
    && Stored(s, d.tables) && Journaled(s, d.logs, crc) && Falling(Births(s))
  }

  lemma {:induction false} InConcat(levels: seq<seq<Table>>, t: Table)
    ensures t in Concat(levels) <==> exists i :: 0 <= i < |levels| && t in levels[i]
  {
    if levels != [] {
      InConcat(levels[1..], t);
      if i :| 0 <= i < |levels[1..]| && t in levels[1..][i] { assert t in levels[i + 1]; }
      if i :| 0 <= i < |levels| && t in levels[i] { assert i > 0 ==> t in levels[1..][i - 1]; }
    }
  }

  lemma {:induction false} SearchedIffOn(s: State, t: Table)
    requires |s.levels| > 0 ==> s.levels[0] == []
    ensures t in Searched(s) <==> exists n: nat :: t in LevelOf(s, n)
  {
    hide Concat;
    var deeper := Deeper(s.levels);
    InConcat(deeper, t);
    if t in s.l0 { assert t in LevelOf(s, 0); }
    if i :| 0 <= i < |deeper| && t in deeper[i] { assert t in LevelOf(s, i + 1); }
    if n: nat :| t in LevelOf(s, n) { assert n > 0 ==> t in deeper[n - 1]; }
  }

  lemma {:induction false} FallingParts(a: seq<nat>, b: seq<nat>)
    requires Falling(a + b)
    ensures Falling(a) && Falling(b)
  {
    forall i, j | 0 <= i < j < |b| ensures b[i] > b[j] {
      assert (a + b)[|a| + i] == b[i] && (a + b)[|a| + j] == b[j];
    }
    forall i, j | 0 <= i < j < |a| ensures a[i] > a[j] {
      assert (a + b)[i] == a[i] && (a + b)[j] == a[j];
    }
  }

  /** L0 is strictly ordered by age, the other levels by key. */
  lemma {:induction false} LevelsStrict(s: State, hash: Bytes -> Word32, n: nat)
    requires LevelsOk(s, hash) && Falling(TableIds(s.l0))
    ensures NoDup(LevelOf(s, n)) && StrictBy(LevelOf(s, n), TableOrder(n))
  {
    hide Less, FirstKey, Sorted, TablesFlat;
    var level := LevelOf(s, n);
    if n == 0 {
      forall i, j | 0 <= i < j < |level| ensures NewerTable(level[i], level[j]) {
        assert TableIds(s.l0)[i] > TableIds(s.l0)[j];
      }
    } else if n < |s.levels| {
      forall t | t in level ensures t.entries != [] {
        SearchedIffOn(s, t);
        assert t in Searched(s);
      }
      SortedLevelByFirstKey(level);
      forall i, j | 0 <= i < j < |level| ensures EarlierTable(level[i], level[j]) && level[i] != level[j] {
        LessIrreflexive(FirstKey(level[i]));
      }
    }
  }

  /** A durable directory can be opened. */
  lemma {:induction false} CanRecover(s: State, d: Disk, crc: Bytes -> Word32)
    requires Durable(s, d, crc)
    ensures Readable(d, |s.levels|, crc)
  {
    hide Journals, W.Recovered, LoadedMem, M.Replayed, MemsOf;
    forall id | id in d.logs ensures W.Recovered(d.logs[id], [], crc).Ok? {
      var m :| m in MemsOf(s) && m.id == id;
      JournalRecovers(d.logs[id], m, crc);
    }
  }

  lemma {:induction false} TablesRestored(s: State, d: Disk, tables: map<F.Word64, F.Info>, hash: Bytes -> Word32,
                                          s': State)
    requires LevelsOk(s, hash) && Catalogued(s, tables) && Stored(s, d.tables) && Falling(TableIds(s.l0))
    requires LevelRebuilt(d, tables, 0, s'.l0) && LevelsRebuilt(d, tables, s'.levels) && |s'.levels| == |s.levels|
    ensures s'.l0 == s.l0 && s'.levels == s.levels
  {
    hide LevelsOk, Catalogued, Stored, LevelRebuilt, NoDup, StrictBy, Falling;
    LevelsStrict(s, hash, 0);
    LevelIs(s, d, tables, 0, s'.l0);
    forall n | 0 <= n < |s.levels| ensures s'.levels[n] == s.levels[n] {
      if n == 0 {
        assert s.levels[0] == [] by { FirstLevelEmpty(s, hash); }
      } else {
        LevelsStrict(s, hash, n);
        LevelIs(s, d, tables, n, s'.levels[n]);
      }
    }
  }

  lemma {:induction false} FirstLevelEmpty(s: State, hash: Bytes -> Word32)
    requires LevelsOk(s, hash)
    ensures |s.levels| > 0 ==> s.levels[0] == []
  {
  }

  /** The recovered counters cover everything in the memtables. */
  ghost predicate CoversMems(s: State) {
    && (forall m :: m in MemsOf(s) ==> m.id <= s.nextMemID)
    && (forall m, e :: m in MemsOf(s) && e in m.entries ==> SeqOf(e) <= s.nextSeq)
  }

  lemma {:induction false} MemsRestored(s: State, d: Disk, m: M.State, ids: seq<nat>, crc: Bytes -> Word32, s': State)
    requires Journaled(s, d.logs, crc) && Falling(MemIds(MemsOf(s))) && MemsFrom(d, m, ids, s', crc)
    ensures MemsOf(s') == MemsOf(s) && Backwards(ids) == MemIds(MemsOf(s))
    ensures s'.nextMemID == LastId(ids, m.nextMemID)
  {
    hide Journals, Falling, LastSeq, LastId, StrictBy, MemIds, Mems, Backwards;
    LogOrder(MemsOf(s), d.logs, ids);
    MemsAre(s, d, ids, crc);
    assert |ids| == |MemsOf(s)| > 0;
  }

  lemma {:induction false} CountersRestored(s: State, d: Disk, m: M.State, ids: seq<nat>, crc: Bytes -> Word32,
                                            s': State)
    requires Journaled(s, d.logs, crc) && AllLogged(d, ids) && Backwards(ids) == MemIds(MemsOf(s))
    requires MemsOf(s') == MemsOf(s) && s'.nextMemID == LastId(ids, m.nextMemID)
    requires s'.nextSeq == LastSeq(d, ids, m.nextSeq, crc)
    ensures m.nextMemID <= s'.nextMemID && m.nextSeq <= s'.nextSeq <= MAX_SEQ && CoversMems(s')
  {
    hide Journaled, LastSeq, LastId, MemIds, Backwards, MemsOf, SeqNum, LogOf;
    LastSeqCovers(d, ids, m.nextSeq, crc);
    LastIdCovers(ids, m.nextMemID);
    forall k | 0 <= k < |MemsOf(s)|
      ensures MemsOf(s)[k].id <= s'.nextMemID && forall e :: e in MemsOf(s)[k].entries ==> SeqOf(e) <= s'.nextSeq
    {
      MemCovered(s, d, ids, k, s'.nextSeq, crc);
      assert Backwards(ids)[k] == MemsOf(s)[k].id;
    }
  }

  lemma {:induction false} MemCovered(s: State, d: Disk, ids: seq<nat>, k: nat, q: nat, crc: Bytes -> Word32)
    requires Journaled(s, d.logs, crc) && AllLogged(d, ids) && Backwards(ids) == MemIds(MemsOf(s)) && k < |ids|
    requires forall i, e :: 0 <= i < |ids| && e in LogOf(d, ids[i], crc) ==> e.seq_ <= q
    ensures forall e :: e in MemsOf(s)[k].entries ==> SeqOf(e) <= q
  {
    hide Journals, W.Recovered, LoadedMem, SeqNum, MemsOf, MemIds, Backwards;
    var m := MemsOf(s)[k];
    assert m in MemsOf(s) && ids[|ids| - 1 - k] == Backwards(ids)[k] == m.id;
    JournalRecovers(d.logs[m.id], m, crc);
    forall e | e in m.entries ensures SeqOf(e) <= q {
      LoggedSeq(m, LogOf(d, m.id, crc), e, q);
    }
  }

  lemma {:induction false} InMemsFlat(ms: seq<Memtable>, e: Entry) returns (m: Memtable)
    requires e in MemsFlat(ms)
    ensures m in ms && e in m.entries
  {
    if e in ms[0].entries { m := ms[0]; } else { m := InMemsFlat(ms[1..], e); }
  }

  lemma {:induction false} EntryCovered(s: State, m: M.State, q: nat, e: Entry, hash: Bytes -> Word32)
    requires LevelsOk(s, hash) && Counted(s, m) && m.nextSeq <= q && e in Flat(s)
    requires forall mt, x :: mt in MemsOf(s) && x in mt.entries ==> SeqOf(x) <= q
    ensures SeqOf(e) <= q
  {
    hide SeqNum, TablesFlat, MemsFlat, Searched, LevelOf;
    if e in s.active.entries {
      assert s.active in MemsOf(s);
    } else if e in MemsFlat(s.immutables) {
      var mt := InMemsFlat(s.immutables, e);
      assert mt in MemsOf(s);
    } else {
      var i := FlatInTable(Searched(s), e);
      var t := Searched(s)[i];
      SearchedIffOn(s, t);
      assert t in Searched(s);
    }
  }

  lemma {:induction false} IdCovered(s: State, m: M.State, k: nat, id: nat, hash: Bytes -> Word32)
    requires LevelsOk(s, hash) && Counted(s, m) && m.nextMemID <= k && s.inFlight.None? && id in AllIds(s)
    requires forall mt :: mt in MemsOf(s) ==> mt.id <= k
    ensures id <= k
  {
    hide SeqNum, TablesFlat, Searched, LevelOf;
    if id == s.active.id {
      assert s.active in MemsOf(s);
    } else if id in MemIds(s.immutables) {
      var i :| 0 <= i < |s.immutables| && MemIds(s.immutables)[i] == id;
      assert s.immutables[i] in MemsOf(s);
    } else {
      assert id in TableIds(Searched(s));
      var i :| 0 <= i < |Searched(s)| && TableIds(Searched(s))[i] == id;
      SearchedIffOn(s, Searched(s)[i]);
      assert Searched(s)[i] in Searched(s);
    }
  }

  /** The counters may be set back as long as they cover what is stored. */
  lemma {:induction false} SetBack(s: State, s': State, keys: iset<Bytes>, hash: Bytes -> Word32)
    requires Inv(s, keys, hash) && s.inFlight.None? && s' == s.(nextMemID := s'.nextMemID, nextSeq := s'.nextSeq)
    requires s'.nextSeq <= MAX_SEQ && forall e :: e in Flat(s) ==> SeqOf(e) <= s'.nextSeq
    requires forall id :: id in AllIds(s) ==> id <= s'.nextMemID
    ensures Inv(s', keys, hash) && Flat(s') == Flat(s)
  {
    hide VersionsDescend, SeparableSpace, AllInSpace, UniqueKeys, LevelsOk, SeqNum, OneEach, Searched, TablesFlat,
      MemsFlat, MemIds, TableIds;
    LevelsOkSame(s, s', hash);
    MemsOkSame(s, s');
    assert Flat(s') == Flat(s) && AllIds(s') == AllIds(s);
  }

  lemma {:induction false} FallingMems(s: State)
    requires Falling(Births(s))
    ensures Falling(MemIds(MemsOf(s))) && Falling(TableIds(s.l0))
  {
    FallingParts(MemIds(MemsOf(s)), TableIds(s.l0));
  }

  /** What durability says depends on tables and memtables only, apart from the counters. */
  lemma {:induction false} DurableSame(s: State, s': State, d: Disk, crc: Bytes -> Word32)
    requires Durable(s, d, crc) && s'.l0 == s.l0 && s'.levels == s.levels && MemsOf(s') == MemsOf(s)
    requires var m := M.Replayed(d.manifest, M.EMPTY, crc).value; m.nextMemID <= s'.nextMemID && m.nextSeq <= s'.nextSeq
    ensures Durable(s', d, crc)
  {
    hide Journaled, Catalogued, Counted, Stored, Falling, M.Replayed, MemsOf, LevelOf;
    forall n: nat ensures LevelOf(s', n) == LevelOf(s, n) { SameLevel(s, s', n); }
    var m := M.Replayed(d.manifest, M.EMPTY, crc).value;
    CataloguedSame(s, s', m.tables);
    CountersSame(s, s', m);
    StoredSame(s, s', d.tables);
    JournaledSame(s, s', d.logs, crc);
  }

  lemma {:induction false} SameLevel(s: State, s': State, n: nat)
    requires s'.l0 == s.l0 && s'.levels == s.levels
    ensures LevelOf(s', n) == LevelOf(s, n)
  {
  }

  lemma {:induction false} CataloguedSame(s: State, s': State, tables: map<F.Word64, F.Info>)
    requires Catalogued(s, tables) && forall n: nat :: LevelOf(s', n) == LevelOf(s, n)
    ensures Catalogued(s', tables)
  {
    hide LevelOf, Describes;
  }

  lemma {:induction false} CountersSame(s: State, s': State, m: M.State)
    requires Counted(s, m) && (forall n: nat :: LevelOf(s', n) == LevelOf(s, n))
    requires m.nextMemID <= s'.nextMemID && m.nextSeq <= s'.nextSeq
    ensures Counted(s', m)
  {
    hide LevelOf, SeqNum;
  }

  lemma {:induction false} StoredSame(s: State, s': State, files: map<nat, Table>)
    requires Stored(s, files) && forall n: nat :: LevelOf(s', n) == LevelOf(s, n)
    ensures Stored(s', files)
  {
    hide LevelOf;
  }

  lemma {:induction false} JournaledSame(s: State, s': State, logs: map<nat, Bytes>, crc: Bytes -> Word32)
    requires Journaled(s, logs, crc) && MemsOf(s') == MemsOf(s)
    ensures Journaled(s', logs, crc)
  {
    hide MemsOf, Journals;
  }

  /** Opening the files of a durable state gives that state back: the same memtables, tables and
      levels, so the same reads. Only a compaction under way is forgotten, and sequence numbers
      and ids that left no trace may be handed out again. */
  lemma {:induction false} RecoverRestores(s: State, d: Disk, crc: Bytes -> Word32, keys: iset<Bytes>,
                                           hash: Bytes -> Word32, s': State)
    requires Inv(s, keys, hash) && Durable(s, d, crc) && Rebuilt(d, |s.levels|, crc, s')
    ensures s' == s.(inFlight := None, nextMemID := s'.nextMemID, nextSeq := s'.nextSeq)
    ensures Flat(s') == Flat(s) && Inv(s', keys, hash) && Durable(s', d, crc)
  {
    hide VersionsDescend, LevelsOk, M.Replayed, LevelRebuilt, LevelsRebuilt, Catalogued, Counted, Stored, Journaled,
      Falling, Births, Flat, AllIds, SeqNum, LastSeq, LastId, MemIds, TableIds, IdsOk, UniqueKeys, AllInSpace,
      SeparableSpace, MemsOk, InFlightOk;
    var m := M.Replayed(d.manifest, M.EMPTY, crc).value;
    FallingMems(s);
    TablesRestored(s, d, m.tables, hash, s');
    var ids :| MemsFrom(d, m, ids, s', crc);
    MemsRestored(s, d, m, ids, crc, s');
    CountersRestored(s, d, m, ids, crc, s');
    Reopened(s, d, m, crc, keys, hash, s');
  }

  lemma {:induction false} Reopened(s: State, d: Disk, m: M.State, crc: Bytes -> Word32, keys: iset<Bytes>,
                                    hash: Bytes -> Word32, s': State)
    requires Inv(s, keys, hash) && Durable(s, d, crc) && m == M.Replayed(d.manifest, M.EMPTY, crc).value
    requires s'.l0 == s.l0 && s'.levels == s.levels && MemsOf(s') == MemsOf(s) && s'.inFlight == None
    requires m.nextMemID <= s'.nextMemID && m.nextSeq <= s'.nextSeq <= MAX_SEQ && CoversMems(s')
    ensures s' == s.(inFlight := None, nextMemID := s'.nextMemID, nextSeq := s'.nextSeq)
    ensures Flat(s') == Flat(s) && Inv(s', keys, hash) && Durable(s', d, crc)
  {
    hide VersionsDescend, LevelsOk, M.Replayed, Catalogued, Counted, Stored, Journaled, Falling, Births, Flat, AllIds,
      SeqNum, IdsOk, UniqueKeys, AllInSpace, SeparableSpace, MemsOk, InFlightOk;
    assert s'.active == s.active && s'.immutables == s.immutables by {
      assert MemsOf(s')[0] == MemsOf(s)[0] && MemsOf(s')[1..] == MemsOf(s)[1..];
    }
    var s0 := s.(inFlight := None);
    ForgetKeeps(s, keys, hash);
    CountedSame(s, s0, m);
    forall e | e in Flat(s0) ensures SeqOf(e) <= s'.nextSeq { EntryCovered(s0, m, s'.nextSeq, e, hash); }
    forall id | id in AllIds(s0) ensures id <= s'.nextMemID { IdCovered(s0, m, s'.nextMemID, id, hash); }
    SetBack(s0, s', keys, hash);
    DurableSame(s, s', d, crc);
  }

  lemma {:induction false} CountedSame(s: State, s': State, m: M.State)
    requires Counted(s, m) && s' == s.(inFlight := None)
    ensures Counted(s', m)
  {
    hide SeqNum;
    assert forall n: nat :: LevelOf(s', n) == LevelOf(s, n);
  }
}
