/**
What every step of the engine writes to disk keeps the directory durable (db/batch.go,
db/write.go, db/flush.go, db/compact.go).
*/
module DurableSteps {
  import opened Bytes
  import opened Keys
  import opened Versions
  import opened Tables
  import opened Iterators
  import opened Compaction
  import opened LevelMerge
  import opened Engine
  import opened EngineApply
  import opened Recovery
  import opened Durability
  import W = Wal
  import M = Manifest
  import F = ManifestFormat

  // ----- writes -----

  /** The record a batch is logged as. */
  function LoggedOps(ops: seq<Op>, lastSeq: nat): (es: seq<W.Logged>)
    requires lastSeq + |ops| <= MAX_SEQ
    ensures |es| == |ops| && forall i :: 0 <= i < |ops| ==> es[i] == W.Logged(lastSeq + 1 + i, ops[i].key, ops[i].value)
  {
    seq(|ops|, i requires 0 <= i < |ops| => W.Logged(lastSeq + 1 + i, ops[i].key, ops[i].value))
  }

  lemma {:induction false} LoadAppend(es: seq<Entry>, a: seq<W.Logged>, b: seq<W.Logged>)
    ensures Load(es, a + b) == Load(Load(es, a), b)
    ensures LoadSize(a + b) == LoadSize(a) + LoadSize(b)
    decreases a
  {
    hide Insert, MakeInternalKey;
    if a == [] {
      assert a + b == b;
    } else {
      assert (a + b)[0] == a[0] && (a + b)[1..] == a[1..] + b;
      LoadAppend(Insert(es, VersionIn(a[0])), a[1..], b);
    }
  }

  /** Replaying a record does what the write did. */
  lemma {:induction false} LoadOps(es: seq<Entry>, ops: seq<Op>, lastSeq: nat)
    requires lastSeq + |ops| <= MAX_SEQ
    ensures Load(es, LoggedOps(ops, lastSeq)) == WriteOps(es, ops, lastSeq)
    ensures LoadSize(LoggedOps(ops, lastSeq)) == OpsSize(ops)
    decreases ops
  {
    hide Insert, MakeInternalKey;
    if ops != [] {
      var log := LoggedOps(ops, lastSeq);
      assert log[1..] == LoggedOps(ops[1..], lastSeq + 1);
      assert VersionIn(log[0]) == VersionOf(ops[0], lastSeq + 1);
      LoadOps(Insert(es, VersionIn(log[0])), ops[1..], lastSeq + 1);
    }
  }

  lemma {:induction false} JournalWrite(log: Bytes, m: Memtable, ops: seq<Op>, lastSeq: nat, crc: Bytes -> Word32)
    requires Journals(log, m, crc) && Clean(log, crc) && lastSeq + |ops| <= MAX_SEQ && W.Fits(LoggedOps(ops, lastSeq))
    ensures Clean(log + W.RecordBytes(LoggedOps(ops, lastSeq), crc), crc)
    ensures Journals(log + W.RecordBytes(LoggedOps(ops, lastSeq), crc),
                     Memtable(m.id, WriteOps(m.entries, ops, lastSeq), m.size + OpsSize(ops)), crc)
  {
    hide W.Fits, W.Log, W.Batched, W.RecordBytes, Load, LoadSize, LoggedOps, Journals, W.Checks;
    var es := LoggedOps(ops, lastSeq);
    var bs :| W.AllFit(bs) && log == W.Log(bs, crc);
    CleanJournal(log, m, bs, crc);
    W.LogAppend(bs, es, crc);
    LoadAppend([], W.Batched(bs), es);
    LoadOps(m.entries, ops, lastSeq);
    assert W.AllFit(bs + [es]);
    WholeJournal(bs + [es], Memtable(m.id, WriteOps(m.entries, ops, lastSeq), m.size + OpsSize(ops)), crc);
  }

  lemma {:induction false} WholeJournal(bs: seq<seq<W.Logged>>, m: Memtable, crc: Bytes -> Word32)
    requires W.AllFit(bs) && m == LoadedMem(m.id, W.Batched(bs))
    ensures Journals(W.Log(bs, crc), m, crc)
  {
    hide W.Fits, W.Log, W.Batched, LoadedMem;
    NothingChecks([], crc);
    assert W.Log(bs, crc) == W.Log(bs, crc) + [];
  }

  /** Ids along a falling list tell its members apart. */
  lemma {:induction false} MemsApart(s: State, i: nat, j: nat)
    requires Falling(Births(s)) && i < |MemsOf(s)| && j < |MemsOf(s)| && MemsOf(s)[i].id == MemsOf(s)[j].id
    ensures i == j
  {
    FallingMems(s);
    var ids := MemIds(MemsOf(s));
    assert ids[i] == ids[j];
  }

  lemma {:induction false} WriteJournaled(s: State, ops: seq<Op>, d: Disk, crc: Bytes -> Word32)
    requires Durable(s, d, crc) && s.nextSeq + |ops| <= MAX_SEQ && W.Fits(LoggedOps(ops, s.nextSeq))
    requires s.active.id in d.logs && Clean(d.logs[s.active.id], crc)
    ensures var log := d.logs[s.active.id] + W.RecordBytes(LoggedOps(ops, s.nextSeq), crc);
      Journaled(Written(s, ops), d.logs[s.active.id := log], crc)
  {
    hide Journals, Clean, Births, Falling, W.Fits, W.RecordBytes, LoggedOps, WriteOps, OpsSize, Catalogued, Counted,
      Stored, M.Replayed;
    var s', ms := Written(s, ops), MemsOf(s);
    var ms' := MemsOf(s');
    assert ms[0] == s.active && s.active in ms;
    var log := d.logs[s.active.id] + W.RecordBytes(LoggedOps(ops, s.nextSeq), crc);
    var logs := d.logs[s.active.id := log];
    JournalWrite(d.logs[s.active.id], s.active, ops, s.nextSeq, crc);
    forall k | 0 <= k < |ms'| ensures ms'[k].id in logs && Journals(logs[ms'[k].id], ms'[k], crc) {
      if k > 0 {
        assert ms'[k] == ms[k] && ms[k] in ms;
        if ms[k].id == ms[0].id { MemsApart(s, k, 0); }
      }
    }
    forall id | id in logs ensures exists m :: m in ms' && m.id == id {
      var m :| m in ms && m.id == id;
      var k :| 0 <= k < |ms| && ms[k] == m;
      assert ms'[k] in ms' && ms'[k].id == id;
    }
  }

  /** Logging a batch before applying it keeps the directory durable. */
  lemma {:induction false} WriteDurable(s: State, ops: seq<Op>, d: Disk, d': Disk, crc: Bytes -> Word32)
    requires Durable(s, d, crc) && s.nextSeq + |ops| <= MAX_SEQ && W.Fits(LoggedOps(ops, s.nextSeq))
    requires s.active.id in d.logs
    requires Clean(d.logs[s.active.id], crc)
    requires d' ==
      d.(logs := d.logs[s.active.id := d.logs[s.active.id] + W.RecordBytes(LoggedOps(ops, s.nextSeq), crc)])
    ensures Durable(Written(s, ops), d', crc)
  {
    hide Journaled, Clean, Describes, Falling, W.Fits, W.RecordBytes, LoggedOps, WriteOps, OpsSize, M.Replayed, SeqNum;
    WriteJournaled(s, ops, d, crc);
    var s' := Written(s, ops);
    assert forall n: nat :: LevelOf(s', n) == LevelOf(s, n);
    assert Births(s') == Births(s) by { assert MemIds(MemsOf(s')) == MemIds(MemsOf(s)); }
  }

  lemma {:induction false} EmptyJournal(id: nat, crc: Bytes -> Word32)
    ensures Journals([], Memtable(id, [], 0), crc)
  {
    hide W.Checks;
    assert W.AllFit([]) && W.Log([], crc) == [] && W.Batched([]) == [];
    WholeJournal([], Memtable(id, [], 0), crc);
  }

  /** A memtable journaled by another log than before. */
  lemma {:induction false} JournalInstead(s: State, d: Disk, log: Bytes, crc: Bytes -> Word32)
    requires Durable(s, d, crc) && s.active.id in d.logs && Journals(log, s.active, crc)
    ensures Durable(s, d.(logs := d.logs[s.active.id := log]), crc)
  {
    hide Journals, Births, Falling, Catalogued, Counted, Stored, M.Replayed;
    var ms, logs := MemsOf(s), d.logs[s.active.id := log];
    assert ms[0] == s.active && s.active in ms;
    forall k | 0 <= k < |ms| ensures ms[k].id in logs && Journals(logs[ms[k].id], ms[k], crc) {
      assert ms[k] in ms;
      if ms[k].id == ms[0].id { MemsApart(s, k, 0); }
    }
  }

  lemma {:induction false} MemIdsCovered(s: State)
    requires IdsOk(s)
    ensures forall m :: m in MemsOf(s) ==> m.id <= s.nextMemID
    ensures forall id :: id in Births(s) ==> id <= s.nextMemID
  {
    hide OneEach;
    forall m | m in MemsOf(s) ensures m.id in AllIds(s) {
      if m != s.active {
        var k :| 0 <= k < |s.immutables| && s.immutables[k] == m;
        assert MemIds(s.immutables)[k] == m.id;
      }
    }
    forall id | id in Births(s) ensures id in AllIds(s) {
      BirthsAmongIds(s, id);
    }
  }

  lemma {:induction false} BirthsAmongIds(s: State, id: nat)
    requires id in Births(s)
    ensures id in AllIds(s)
  {
    MemIdsConcat([s.active], s.immutables);
    TableIdsConcat(s.l0, Concat(Deeper(s.levels)));
  }

  lemma {:induction false} RotateJournaled(s: State, d: Disk, crc: Bytes -> Word32)
    requires Journaled(s, d.logs, crc) && IdsOk(s)
    ensures Journaled(Rotated(s), d.logs[s.nextMemID + 1 := []], crc)
  {
    hide Journals, IdsOk, Births, AllIds;
    var s', id := Rotated(s), s.nextMemID + 1;
    MemIdsCovered(s);
    EmptyJournal(id, crc);
    assert MemsOf(s') == [s'.active] + MemsOf(s);
    forall x | x in d.logs ensures exists m :: m in MemsOf(s') && m.id == x {
      var m :| m in MemsOf(s) && m.id == x;
      assert m in MemsOf(s');
    }
    assert s'.active in MemsOf(s');
  }

  /** A new memtable starts with an empty log. */
  lemma {:induction false} RotateDurable(s: State, d: Disk, d': Disk, crc: Bytes -> Word32)
    requires Durable(s, d, crc) && IdsOk(s) && d' == d.(logs := d.logs[s.nextMemID + 1 := []])
    ensures Durable(Rotated(s), d', crc)
  {
    hide Journaled, Describes, M.Replayed, SeqNum, IdsOk;
    RotateJournaled(s, d, crc);
    MemIdsCovered(s);
    var s' := Rotated(s);
    assert forall n: nat :: LevelOf(s', n) == LevelOf(s, n);
    assert Births(s') == [s.nextMemID + 1] + Births(s) by {
      MemIdsConcat([s'.active], MemsOf(s));
      assert MemsOf(s') == [s'.active] + MemsOf(s);
    }
    assert forall i :: 0 <= i < |Births(s)| ==> Births(s)[i] in Births(s);
  }

  // ----- one namespace -----

  /** Everything that carries an id, and the parts of the engine it sits in. */
  lemma {:induction false} IdsApart(s: State)
    requires IdsOk(s)
    ensures OneEach(TableIds(Searched(s))) && OneEach(TableIds(NewTables(s))) && DisjointIds(Searched(s), NewTables(s))
    ensures forall m, t :: m in MemsOf(s) && (t in Searched(s) || t in NewTables(s)) ==> m.id != t.id
  {
    hide OneEach, Searched, NewTables, MemIds, TableIds;
    var a, b, c := MemIds(s.immutables), TableIds(Searched(s)), TableIds(NewTables(s));
    OneEachSplit([s.active.id], a + (b + c));
    OneEachSplit(a, b + c);
    OneEachSplit(b, c);
    forall t | t in Searched(s) ensures t.id in b && t.id in b + c && t.id in a + (b + c) { IdMember(Searched(s), t); }
    forall t | t in NewTables(s) ensures t.id in c && t.id in b + c && t.id in a + (b + c) {
      IdMember(NewTables(s), t);
    }
    forall m | m in s.immutables ensures m.id in a {
      var k :| 0 <= k < |s.immutables| && s.immutables[k] == m;
      assert a[k] == m.id;
    }
    forall m, t | m in MemsOf(s) && (t in Searched(s) || t in NewTables(s)) ensures m.id != t.id {
      assert t.id in b + c && t.id in a + (b + c);
      if m !in s.immutables { assert m.id in [s.active.id]; }
    }
  }

  lemma {:induction false} SameTable(ts: seq<Table>, t: Table, u: Table)
    requires OneEach(TableIds(ts)) && t in ts && u in ts && t.id == u.id
    ensures t == u
  {
    var i :| 0 <= i < |ts| && ts[i] == t;
    var j :| 0 <= j < |ts| && ts[j] == u;
    assert TableIds(ts)[i] == TableIds(ts)[j];
  }

  lemma {:induction false} DeeperApart(levels: seq<seq<Table>>, i: nat, t: Table, j: nat, u: Table)
    requires OneEach(TableIds(Concat(levels))) && i < |levels| && j < |levels|
    requires t in levels[i] && u in levels[j] && i < j
    ensures t.id != u.id
  {
    hide OneEach, TableIds, Concat;
    var head, tail := Concat(levels[..i]), Concat(levels[i + 1..]);
    ConcatAt(levels, i);
    IdsSplit(head, levels[i] + tail);
    IdsSplit(levels[i], tail);
    InConcat(levels[i + 1..], u);
    assert levels[i + 1..][j - i - 1] == levels[j];
  }

  /** A table id names one table on one level. */
  lemma {:induction false} OnePlace(s: State, n: nat, t: Table, k: nat, u: Table)
    requires IdsOk(s) && t in LevelOf(s, n) && u in LevelOf(s, k) && t.id == u.id
    ensures n == k && t == u
  {
    hide OneEach, TableIds, Concat, AllIds, IdsOk;
    IdsApart(s);
    var deeper := Deeper(s.levels);
    IdsSplit(s.l0, Concat(deeper));
    if n > 0 { InConcat(deeper, t); assert t in deeper[n - 1] && t in Concat(deeper); }
    if k > 0 { InConcat(deeper, u); assert u in deeper[k - 1] && u in Concat(deeper); }
    if 0 < n < k { DeeperApart(deeper, n - 1, t, k - 1, u); }
    if 0 < k < n { DeeperApart(deeper, k - 1, u, n - 1, t); }
    SameTable(Searched(s), t, u);
  }

  // ----- flushes -----

  /** Flushing takes the last memtable from the list and puts it in front of L0. */
  lemma {:induction false} FlushShape(s: State, t: Table)
    requires s.immutables != [] && t.id == s.immutables[|s.immutables| - 1].id
    ensures var s', k := Flushed(s, t), |s.immutables|;
      && MemsOf(s') == MemsOf(s)[..k] && MemsOf(s)[k] == s.immutables[k - 1] && |MemsOf(s)| == k + 1
      && Births(s') == Births(s)
      && LevelOf(s', 0) == [t] + LevelOf(s, 0) && forall n: nat :: n > 0 ==> LevelOf(s', n) == LevelOf(s, n)
  {
    var s', k := Flushed(s, t), |s.immutables|;
    assert MemsOf(s') == MemsOf(s)[..k];
    TableIdsConcat([t], s.l0);
    assert MemIds(MemsOf(s)) == MemIds(MemsOf(s')) + [t.id];
    assert TableIds(s'.l0) == [t.id] + TableIds(s.l0);
  }

  lemma {:induction false} FlushJournaled(s: State, t: Table, d: Disk, crc: Bytes -> Word32)
    requires Journaled(s, d.logs, crc) && Falling(Births(s))
    requires s.immutables != [] && t.id == s.immutables[|s.immutables| - 1].id
    ensures Journaled(Flushed(s, t), d.logs - {t.id}, crc)
  {
    hide Journals, Births, Falling, LevelOf, MemsOf;
    FlushShape(s, t);
    var ms, ms', k := MemsOf(s), MemsOf(Flushed(s, t)), |s.immutables|;
    var logs := d.logs - {t.id};
    forall i | 0 <= i < |ms'| ensures ms'[i].id in logs && Journals(logs[ms'[i].id], ms'[i], crc) {
      assert ms'[i] == ms[i] && ms[i] in ms;
      if ms[i].id == ms[k].id { MemsApart(s, i, k); }
    }
    forall id | id in logs ensures exists m :: m in ms' && m.id == id {
      var m :| m in ms && m.id == id;
      var i :| 0 <= i < |ms| && ms[i] == m;
      assert ms'[i] in ms' && ms'[i].id == id;
    }
  }

  function InfoOf(t: Table, n: Byte): F.Info
    requires t.id < U64
  {
    F.Info(t.id, n, FirstKey(t), LastKey(t))
  }

  lemma {:induction false} FlushCatalogued(s: State, t: Table, tables: map<F.Word64, F.Info>)
    requires Catalogued(s, tables) && IdsOk(s) && t.id < U64
    requires s.immutables != [] && t.id == s.immutables[|s.immutables| - 1].id
    requires |s.levels| > 0 ==> s.levels[0] == []
    ensures Catalogued(Flushed(s, t), tables[t.id := InfoOf(t, 0)])
  {
    hide IdsOk, Births, MemsOf, FirstKey, LastKey, LevelOf;
    FlushShape(s, t);
    var s', tables' := Flushed(s, t), tables[t.id := InfoOf(t, 0)];
    forall n: nat, u | u in LevelOf(s, n) ensures u.id != t.id { FlushedApart(s, t, n, u); }
    forall id | id in tables'
      ensures tables'[id].id == id && exists u :: u in LevelOf(s', tables'[id].level) && Describes(tables'[id], u)
    {
      if id == t.id {
        assert t in LevelOf(s', 0) && Describes(tables'[id], t);
      } else {
        var u :| u in LevelOf(s, tables[id].level) && Describes(tables[id], u);
        assert u in LevelOf(s', tables[id].level);
      }
    }
  }

  lemma {:induction false} FlushedApart(s: State, t: Table, n: nat, u: Table)
    requires IdsOk(s) && s.immutables != [] && t.id == s.immutables[|s.immutables| - 1].id
    requires (|s.levels| > 0 ==> s.levels[0] == []) && u in LevelOf(s, n)
    ensures u.id != t.id
  {
    hide IdsOk, Searched, LevelOf, TableIds, OneEach;
    IdsApart(s);
    SearchedIffOn(s, u);
    assert s.immutables[|s.immutables| - 1] in MemsOf(s);
  }

  /** The engine's own counters cover its tables. */
  lemma {:induction false} CountersCover(s: State, keys: iset<Bytes>, hash: Bytes -> Word32, n: nat, t: Table)
    requires Wf(s, keys, hash) && t in LevelOf(s, n)
    ensures t.id <= s.nextMemID && forall e :: e in t.entries ==> SeqOf(e) <= s.nextSeq
  {
    hide SeparableSpace, AllInSpace, UniqueKeys, MemsOk, InFlightOk, SeqNum, OneEach, LevelOf, Searched, TablesFlat,
      MemsFlat;
    SearchedIffOn(s, t);
    assert t in Searched(s);
    IdMember(Searched(s), t);
    assert t.id in AllIds(s);
    var i :| 0 <= i < |Searched(s)| && Searched(s)[i] == t;
    TableInFlat(Searched(s), i);
  }

  /** The manifest has been brought up to the tables and the counters of the engine. */
  ghost predicate Recorded(d: Disk, tables: map<F.Word64, F.Info>, s: State, crc: Bytes -> Word32) {
    var m := M.Replayed(d.manifest, M.EMPTY, crc);
    m.Ok? && m.value.tables == tables && m.value.nextMemID == s.nextMemID && m.value.nextSeq == s.nextSeq
  }

  function TablesIn(d: Disk, crc: Bytes -> Word32): map<F.Word64, F.Info> {
    var m := M.Replayed(d.manifest, M.EMPTY, crc);
    if m.Ok? then m.value.tables else map[]
  }

  /** A flush writes the table, then the manifest, and removes the log last. */
  lemma {:induction false} FlushDurable(s: State, t: Table, d: Disk, d': Disk, keys: iset<Bytes>, hash: Bytes -> Word32,
                                        crc: Bytes -> Word32)
    requires s.immutables != [] && t.id == s.immutables[|s.immutables| - 1].id && t.id < U64
    requires Wf(s, keys, hash) && Wf(Flushed(s, t), keys, hash) && Durable(s, d, crc)
    requires d'.tables == d.tables[t.id := t] && d'.logs == d.logs - {t.id}
    requires Recorded(d', TablesIn(d, crc)[t.id := InfoOf(t, 0)], s, crc)
    ensures Durable(Flushed(s, t), d', crc)
  {
    hide Wf, Journaled, Catalogued, Births, Falling, MemsOf, M.Replayed, SeqNum, InfoOf, LevelOf, IdsOk, LevelsOk;
    WfParts(s, keys, hash);
    FlushShape(s, t);
    FlushJournaled(s, t, d, crc);
    FlushCatalogued(s, t, TablesIn(d, crc));
    FlushStored(s, t, d, hash);
    AllCounted(Flushed(s, t), M.Replayed(d'.manifest, M.EMPTY, crc).value, keys, hash);
  }

  lemma {:induction false} FlushStored(s: State, t: Table, d: Disk, hash: Bytes -> Word32)
    requires s.immutables != [] && t.id == s.immutables[|s.immutables| - 1].id
    requires IdsOk(s) && LevelsOk(s, hash) && Stored(s, d.tables)
    ensures Stored(Flushed(s, t), d.tables[t.id := t])
  {
    hide LevelOf, IdsOk, Births, MemsOf;
    FlushShape(s, t);
    forall n: nat, u | u in LevelOf(s, n) ensures u.id != t.id { FlushedApart(s, t, n, u); }
  }

  lemma {:induction false} AllCounted(s: State, m: M.State, keys: iset<Bytes>, hash: Bytes -> Word32)
    requires Wf(s, keys, hash) && m.nextMemID == s.nextMemID && m.nextSeq == s.nextSeq
    ensures Counted(s, m)
  {
    hide Wf, LevelOf, SeqNum;
    forall n: nat, t | t in LevelOf(s, n)
      ensures t.id <= s.nextMemID && forall e :: e in t.entries ==> SeqOf(e) <= s.nextSeq
    {
      CountersCover(s, keys, hash, n, t);
    }
  }

  lemma {:induction false} WfParts(s: State, keys: iset<Bytes>, hash: Bytes -> Word32)
    requires Wf(s, keys, hash)
    ensures IdsOk(s) && LevelsOk(s, hash) && (|s.levels| > 0 ==> s.levels[0] == [])
    ensures s.inFlight.Some? ==> InFlightOk(s, s.inFlight.value, hash)
  {
  }

  // ----- compactions -----

  /** The outputs of a compaction under way are on disk, though nothing lists them yet. */
  ghost predicate Staged(s: State, d: Disk) {
    forall t :: t in NewTables(s) ==> t.id in d.tables && d.tables[t.id] == t
  }

  lemma {:induction false} LaunchDurable(s: State, r: Result, d: Disk, d': Disk, keys: iset<Bytes>,
                                         hash: Bytes -> Word32, crc: Bytes -> Word32)
    requires Wf(Launched(s, r), keys, hash) && Durable(s, d, crc)
    requires d'.manifest == d.manifest && d'.logs == d.logs
    requires forall t :: t in r.newTables ==> t.id in d'.tables && d'.tables[t.id] == t
    requires forall id :: id in d.tables && id !in IdsOf(r.newTables) ==>
      id in d'.tables && d'.tables[id] == d.tables[id]
    ensures Durable(Launched(s, r), d', crc) && Staged(Launched(s, r), d')
  {
    hide Wf, Journaled, Catalogued, Counted, Stored, Falling, Births, M.Replayed, LevelsOk, IdsOk, InFlightOk;
    var s' := Launched(s, r);
    WfParts(s', keys, hash);
    DurableSame(s, s', d, crc) by { NotAhead(s, d, crc); }
    FilesStored(s', d, d', hash);
  }

  lemma {:induction false} NotAhead(s: State, d: Disk, crc: Bytes -> Word32)
    requires Durable(s, d, crc)
    ensures var m := M.Replayed(d.manifest, M.EMPTY, crc).value; m.nextMemID <= s.nextMemID && m.nextSeq <= s.nextSeq
  {
    hide M.Replayed, Catalogued, Stored, Journaled, Falling;
  }

  lemma {:induction false} FilesStored(s: State, d: Disk, d': Disk, hash: Bytes -> Word32)
    requires IdsOk(s) && LevelsOk(s, hash) && Stored(s, d.tables)
    requires forall id :: id in d.tables && id !in IdsOf(NewTables(s)) ==>
      id in d'.tables && d'.tables[id] == d.tables[id]
    ensures Stored(s, d'.tables)
  {
    hide LevelOf, IdsOk, TableIds, OneEach, Searched, NewTables, TablesValid;
    IdsApart(s);
    forall n: nat, u | u in LevelOf(s, n) ensures u.id !in IdsOf(NewTables(s)) {
      SearchedIffOn(s, u);
    }
  }

  lemma {:induction false} DropMembers(ts: seq<Table>, obsolete: set<nat>, t: Table)
    ensures t in DropIds(ts, obsolete) <==> t in ts && t.id !in obsolete
  {
    if ts != [] { DropMembers(ts[1..], obsolete, t); }
  }

  lemma {:induction false} SortMembers(ts: seq<Table>, t: Table)
    ensures t in SortTables(ts) <==> t in ts
  {
    hide SortTables;
    SortTablesSorts(ts);
    assert t in multiset(SortTables(ts)) <==> t in multiset(ts);
  }

  /** What a compaction replaces sits on its two levels. */
  lemma {:induction false} ReplacedPlace(s: State, hash: Bytes -> Word32, u: Table) returns (n: nat)
    requires s.inFlight.Some? && InFlightOk(s, s.inFlight.value, hash)
    requires u in s.inFlight.value.task.inputs + s.inFlight.value.task.overlapping
    ensures u in LevelOf(s, n) && (n == s.inFlight.value.task.inputLevel || n == s.inFlight.value.task.outputLevel)
  {
    hide Overlapping, TablesValid, Sorted, Spans, TablesFlat;
    var task := s.inFlight.value.task;
    OverlappingMembers(s.levels[task.outputLevel], task.minKey, task.maxKey);
    n := if u in task.inputs then task.inputLevel else task.outputLevel;
  }

  lemma {:induction false} ObsoletePlace(s: State, hash: Bytes -> Word32, k: nat, t: Table)
    requires IdsOk(s) && s.inFlight.Some? && InFlightOk(s, s.inFlight.value, hash) && t in LevelOf(s, k)
    requires t.id in Obsolete(s.inFlight.value.task)
    ensures k == s.inFlight.value.task.inputLevel || k == s.inFlight.value.task.outputLevel
  {
    hide IdsOk, InFlightOk, LevelOf;
    var task := s.inFlight.value.task;
    var u :| u in task.inputs + task.overlapping && u.id == t.id;
    var n := ReplacedPlace(s, hash, u);
    OnePlace(s, k, t, n, u);
  }

  /** After a compaction a level holds what it held, without the obsolete tables, and the output
      level also the new ones. */
  lemma {:induction false} AppliedHas(s: State, hash: Bytes -> Word32, k: nat, t: Table)
    requires IdsOk(s) && s.inFlight.Some? && InFlightOk(s, s.inFlight.value, hash)
    ensures var r := s.inFlight.value;
      t in LevelOf(Applied(s), k) <==>
        (t in LevelOf(s, k) && t.id !in Obsolete(r.task)) || (k == r.task.outputLevel && t in r.newTables)
  {
    hide IdsOk, Overlapping, TablesValid, Sorted, Spans, TablesFlat, Obsolete, DropIds, SortTables;
    var r := s.inFlight.value;
    var obsolete, level := Obsolete(r.task), LevelOf(s, k);
    if t in level && t.id in obsolete { ObsoletePlace(s, hash, k, t); }
    DropMembers(level, obsolete, t);
    SortMembers(DropIds(level, obsolete) + r.newTables, t);
  }

  predicate SmallIds(ts: seq<Table>) {
    forall t :: t in ts ==> t.id < U64
  }

  /** One record per new table. */
  function Listing(tables: map<F.Word64, F.Info>, ts: seq<Table>, n: Byte): map<F.Word64, F.Info>
    requires SmallIds(ts)
  {
    if ts == [] then tables
    else
      var k := |ts| - 1;
      assert ts[k] in ts;
      Listing(tables, ts[..k], n)[ts[k].id := InfoOf(ts[k], n)]
  }

  lemma {:induction false} ListingHas(tables: map<F.Word64, F.Info>, ts: seq<Table>, n: Byte)
    requires SmallIds(ts) && OneEach(TableIds(ts))
    ensures var all := Listing(tables, ts, n);
      && (forall t :: t in ts ==> t.id in all && all[t.id] == InfoOf(t, n))
      && (forall id :: id !in IdsOf(ts) ==> (id in all <==> id in tables) && (id in tables ==> all[id] == tables[id]))
  {
    hide InfoOf, OneEach, TableIds;
    if ts != [] {
      var k := |ts| - 1;
      assert ts == ts[..k] + [ts[k]];
      IdsSplit(ts[..k], [ts[k]]);
      ListingHas(tables, ts[..k], n);
      assert ts[k] in [ts[k]];
      assert IdsOf(ts) == IdsOf(ts[..k]) + {ts[k].id};
    }
  }

  /** The manifest after a compaction: new tables added, replaced ones removed. */
  function Relisted(tables: map<F.Word64, F.Info>, r: Result): map<F.Word64, F.Info>
    requires SmallIds(r.newTables) && r.task.outputLevel < 256
  {
    Listing(tables, r.newTables, r.task.outputLevel) - Obsolete(r.task)
  }

  /** New ids are neither those of listed tables nor of replaced ones. */
  lemma {:induction false} NewIdsFresh(s: State, hash: Bytes -> Word32)
    requires IdsOk(s) && LevelsOk(s, hash) && s.inFlight.Some? && InFlightOk(s, s.inFlight.value, hash)
    ensures var r := s.inFlight.value;
      && OneEach(TableIds(r.newTables)) && IdsOf(r.newTables) !! Obsolete(r.task)
      && forall n: nat, t :: t in LevelOf(s, n) ==> t.id !in IdsOf(r.newTables)
  {
    hide IdsOk, OneEach, TableIds, Searched, TablesValid, Sorted, TablesFlat, Spans, Overlapping, LevelOf;
    var r := s.inFlight.value;
    IdsApart(s);
    forall n: nat, t | t in LevelOf(s, n) ensures t.id !in IdsOf(r.newTables) { SearchedIffOn(s, t); }
    forall id | id in Obsolete(r.task) ensures id !in IdsOf(r.newTables) {
      var u :| u in r.task.inputs + r.task.overlapping && u.id == id;
      var n := ReplacedPlace(s, hash, u);
    }
  }

  lemma {:induction false} ApplyCatalogued(s: State, tables: map<F.Word64, F.Info>, hash: Bytes -> Word32)
    requires Catalogued(s, tables) && IdsOk(s) && LevelsOk(s, hash)
    requires s.inFlight.Some? && InFlightOk(s, s.inFlight.value, hash)
    requires SmallIds(s.inFlight.value.newTables) && s.inFlight.value.task.outputLevel < 256
    ensures Catalogued(Applied(s), Relisted(tables, s.inFlight.value))
  {
    hide IdsOk, LevelsOk, InFlightOk, OneEach, TableIds, LevelOf, Obsolete, FirstKey, LastKey, Applied, Listing, IdsOf;
    var s', r := Applied(s), s.inFlight.value;
    var tables', all := Relisted(tables, r), Listing(tables, r.newTables, r.task.outputLevel);
    NewIdsFresh(s, hash);
    ListingHas(tables, r.newTables, r.task.outputLevel);
    forall id | id in tables'
      ensures tables'[id].id == id && exists t :: t in LevelOf(s', tables'[id].level) && Describes(tables'[id], t)
    {
      ListedSomewhere(s, tables, hash, id);
    }
    forall n: nat, t | t in LevelOf(s', n)
      ensures t.id in tables' && tables'[t.id].level == n && Describes(tables'[t.id], t)
    {
      AppliedHas(s, hash, n, t);
      if t in r.newTables { InIds(r.newTables, t); }
    }
  }

  lemma {:induction false} InIds(ts: seq<Table>, t: Table)
    requires t in ts
    ensures t.id in IdsOf(ts)
  {
  }

  /** Whatever is listed after the compaction is on the level it is listed under. */
  lemma {:induction false} ListedSomewhere(s: State, tables: map<F.Word64, F.Info>, hash: Bytes -> Word32, id: nat)
    requires Catalogued(s, tables) && IdsOk(s) && LevelsOk(s, hash)
    requires s.inFlight.Some? && InFlightOk(s, s.inFlight.value, hash)
    requires SmallIds(s.inFlight.value.newTables) && s.inFlight.value.task.outputLevel < 256
    requires id in Relisted(tables, s.inFlight.value)
    ensures var i := Relisted(tables, s.inFlight.value)[id];
      i.id == id && exists t :: t in LevelOf(Applied(s), i.level) && Describes(i, t)
  {
    hide IdsOk, LevelsOk, InFlightOk, OneEach, TableIds, LevelOf, Obsolete, FirstKey, LastKey, Applied, Listing;
    var r := s.inFlight.value;
    var i := Relisted(tables, r)[id];
    NewIdsFresh(s, hash);
    ListingHas(tables, r.newTables, r.task.outputLevel);
    if id in IdsOf(r.newTables) {
      var t :| t in r.newTables && t.id == id;
      AppliedHas(s, hash, r.task.outputLevel, t);
      assert Describes(i, t);
    } else {
      var t :| t in LevelOf(s, tables[id].level) && Describes(tables[id], t);
      AppliedHas(s, hash, tables[id].level, t);
    }
  }

  lemma {:induction false} SkipOne(a: seq<nat>, x: nat, b: seq<nat>)
    requires Falling(a + ([x] + b))
    ensures Falling(a + b)
  {
    var c, c' := a + ([x] + b), a + b;
    forall i, j | 0 <= i < j < |c'| ensures c'[i] > c'[j] {
      assert c'[i] == if i < |a| then c[i] else c[i + 1];
      assert c'[j] == if j < |a| then c[j] else c[j + 1];
    }
  }

  lemma {:induction false} HeadId(t: Table, ts: seq<Table>)
    ensures TableIds([t] + ts) == [t.id] + TableIds(ts)
  {
  }

  lemma {:induction false} DropFalling(newer: seq<nat>, ts: seq<Table>, obsolete: set<nat>)
    requires Falling(newer + TableIds(ts))
    ensures Falling(newer + TableIds(DropIds(ts, obsolete)))
    decreases ts
  {
    hide Falling, TableIds;
    if ts != [] {
      assert ts == [ts[0]] + ts[1..];
      HeadId(ts[0], ts[1..]);
      if ts[0].id in obsolete {
        SkipOne(newer, ts[0].id, TableIds(ts[1..]));
        DropFalling(newer, ts[1..], obsolete);
      } else {
        var kept, newer' := DropIds(ts[1..], obsolete), newer + [ts[0].id];
        assert newer + ([ts[0].id] + TableIds(ts[1..])) == newer' + TableIds(ts[1..]);
        DropFalling(newer', ts[1..], obsolete);
        HeadId(ts[0], kept);
        assert newer + ([ts[0].id] + TableIds(kept)) == newer' + TableIds(kept);
      }
    }
  }

  lemma {:induction false} ApplyStored(s: State, d: Disk, d': Disk, tables: map<F.Word64, F.Info>,
                                       hash: Bytes -> Word32)
    requires IdsOk(s) && s.inFlight.Some? && InFlightOk(s, s.inFlight.value, hash)
    requires Stored(s, d.tables) && Staged(s, d) && Catalogued(Applied(s), tables)
    requires forall id :: id in tables && id in d.tables ==> id in d'.tables && d'.tables[id] == d.tables[id]
    ensures Stored(Applied(s), d'.tables)
  {
    hide IdsOk, InFlightOk, LevelOf, Obsolete, Applied, Describes;
    forall n: nat, t | t in LevelOf(Applied(s), n) ensures t.id in d'.tables && d'.tables[t.id] == t {
      AppliedHas(s, hash, n, t);
    }
  }

  /** Applying a compaction lists the new tables and forgets the replaced ones; table files go
      only when they are no longer listed. */
  lemma {:induction false} ApplyDurable(s: State, d: Disk, d': Disk, keys: iset<Bytes>, hash: Bytes -> Word32,
                                        crc: Bytes -> Word32)
    requires s.inFlight.Some? && SmallIds(s.inFlight.value.newTables) && s.inFlight.value.task.outputLevel < 256
    requires Wf(s, keys, hash) && Wf(Applied(s), keys, hash) && Durable(s, d, crc) && Staged(s, d)
    requires d'.logs == d.logs && Recorded(d', Relisted(TablesIn(d, crc), s.inFlight.value), s, crc)
    requires forall id :: id in TablesIn(d', crc) && id in d.tables ==> id in d'.tables && d'.tables[id] == d.tables[id]
    ensures Durable(Applied(s), d', crc)
  {
    hide Wf, Journals, Catalogued, Counted, Stored, Staged, M.Replayed, LevelsOk, IdsOk, InFlightOk, SmallIds, Relisted,
      ApplyLevels, Falling, MemIds, TableIds, DropIds, Obsolete;
    var s' := Applied(s);
    WfParts(s, keys, hash);
    ApplyCatalogued(s, TablesIn(d, crc), hash);
    ApplyStored(s, d, d', TablesIn(d', crc), hash);
    AllCounted(s', M.Replayed(d'.manifest, M.EMPTY, crc).value, keys, hash);
    DropFalling(MemIds(MemsOf(s)), s.l0, Obsolete(s.inFlight.value.task));
    assert MemsOf(s') == MemsOf(s);
  }
}
