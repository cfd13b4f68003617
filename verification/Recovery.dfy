/**
Opening a database directory (db/db.go, manifest/manifest.go, wal/reader.go): the tables the
manifest lists and one memtable per log file, in the order in which reads search them.
*/
module Recovery {
  import opened Optional
  import opened Bytes
  import opened Keys
  import opened Versions
  import opened Tables
  import opened Iterators
  import opened Engine
  import W = Wal
  import M = Manifest
  import F = ManifestFormat

  /** The files of a directory. Table files stand for the contents their readers serve. */
  datatype Disk = Disk(manifest: Bytes, logs: map<nat, Bytes>, tables: map<nat, Table>)

  // ----- sorting -----

  predicate NoDup<T(==)>(ts: seq<T>) {
    forall i, j :: 0 <= i < j < |ts| ==> ts[i] != ts[j]
  }

  predicate SortedBy<T>(ts: seq<T>, less: (T, T) -> bool) {
    forall i, j :: 0 <= i < j < |ts| ==> !less(ts[j], ts[i])
  }

  predicate StrictBy<T>(ts: seq<T>, less: (T, T) -> bool) {
    forall i, j :: 0 <= i < j < |ts| ==> less(ts[i], ts[j])
  }

  ghost predicate StrictOrder<T(!new)>(less: (T, T) -> bool) {
    && (forall a :: !less(a, a))
    && (forall a, b, c :: less(a, b) && less(b, c) ==> less(a, c))
  }

  /** A strict order leaves a sort no choice. */
  lemma {:induction false} OneOrder<T>(a: seq<T>, b: seq<T>, less: (T, T) -> bool)
    requires NoDup(a) && NoDup(b) && SortedBy(a, less) && StrictBy(b, less)
    requires (forall x :: x in a ==> x in b) && (forall x :: x in b ==> x in a)
    ensures a == b
  {
    if |b| > 0 { assert b[0] in b; assert |a| > 0; }
    if |a| > 0 {
      assert a[0] in a;
      assert a[0] in b;
      assert a[0] == b[0];
      forall x | x in a[1..] ensures x in b[1..] { assert x in b; }
      forall x | x in b[1..] ensures x in a[1..] { assert x in a; }
      OneOrder(a[1..], b[1..], less);
      assert a == [a[0]] + a[1..] && b == [b[0]] + b[1..];
    }
  }

  method SortBy<T(!new)>(ts: seq<T>, less: (T, T) -> bool) returns (r: seq<T>)
    requires StrictOrder(less)
    ensures multiset(r) == multiset(ts) && SortedBy(r, less)
  {
    r := [];
    assert SortedBy(r, less);
    hide StrictOrder, SortedBy;
    for n := 0 to |ts|
      invariant multiset(r) == multiset(ts[..n]) && SortedBy(r, less)
    {
      assert ts[..n + 1] == ts[..n] + [ts[n]];
      r := InsertSorted(r, ts[n], less);
    }
    assert ts[..|ts|] == ts;
  }

  method InsertSorted<T(!new)>(r: seq<T>, x: T, less: (T, T) -> bool) returns (r': seq<T>)
    requires StrictOrder(less) && SortedBy(r, less)
    ensures multiset(r') == multiset(r) + multiset{x} && SortedBy(r', less)
  {
    hide StrictOrder, SortedBy;
    var p := 0;
    while p < |r| && !less(x, r[p])
      invariant p <= |r| && forall i :: 0 <= i < p ==> !less(x, r[i])
    {
      p := p + 1;
    }
    InsertAt(r, p, x, less);
    assert r == r[..p] + r[p..];
    r' := r[..p] + [x] + r[p..];
  }

  lemma {:induction false} InsertAt<T(!new)>(r: seq<T>, p: nat, x: T, less: (T, T) -> bool)
    requires StrictOrder(less) && SortedBy(r, less) && p <= |r|
    requires (forall i :: 0 <= i < p ==> !less(x, r[i])) && (p < |r| ==> less(x, r[p]))
    ensures SortedBy(r[..p] + [x] + r[p..], less)
  {
    hide StrictOrder;
    forall j | p <= j < |r| ensures !less(r[j], x) {
      NotBelow(r, p, j, x, less);
    }
    Spread(r, p, x, less);
  }

  lemma {:induction false} Spread<T>(r: seq<T>, p: nat, x: T, less: (T, T) -> bool)
    requires SortedBy(r, less) && p <= |r|
    requires (forall i :: 0 <= i < p ==> !less(x, r[i])) && (forall j :: p <= j < |r| ==> !less(r[j], x))
    ensures SortedBy(r[..p] + [x] + r[p..], less)
  {
    var r' := r[..p] + [x] + r[p..];
    forall i, j | 0 <= i < j < |r'| ensures !less(r'[j], r'[i]) {
      var y, z := r'[i], r'[j];
      assert y == if i < p then r[i] else if i == p then x else r[i - 1];
      assert z == if j < p then r[j] else if j == p then x else r[j - 1];
    }
  }

  lemma {:induction false} NotBelow<T(!new)>(r: seq<T>, p: nat, j: nat, x: T, less: (T, T) -> bool)
    requires StrictOrder(less) && SortedBy(r, less) && p <= j < |r| && less(x, r[p])
    ensures !less(r[j], x)
  {
    var y, z := r[j], r[p];
    assert less(y, x) ==> less(y, z);
  }

  // ----- the tables the manifest lists -----

  /** L0: the newest first. */
  predicate NewerId(a: F.Info, b: F.Info) {
    a.id > b.id
  }

  predicate EarlierKey(a: F.Info, b: F.Info) {
    Less(a.firstKey, b.firstKey)
  }

  lemma {:induction false} BothAreOrders()
    ensures StrictOrder(NewerId) && StrictOrder(EarlierKey)
  {
    hide Less;
    forall a: F.Info ensures !EarlierKey(a, a) { LessIrreflexive(a.firstKey); }
    forall a: F.Info, b: F.Info, c: F.Info | EarlierKey(a, b) && EarlierKey(b, c) ensures EarlierKey(a, c) {
      LessTransitive(a.firstKey, b.firstKey, c.firstKey);
    }
  }

  /** How the tables of a level are kept. */
  function OrderOf(n: nat): (F.Info, F.Info) -> bool {
    if n == 0 then NewerId else EarlierKey
  }

  function OnLevel(ts: seq<F.Info>, n: nat): seq<F.Info> {
    if ts == [] then []
    else OnLevel(ts[..|ts| - 1], n) + (if ts[|ts| - 1].level == n then [ts[|ts| - 1]] else [])
  }

  /** Exactly the tables filed under level n, each once. */
  ghost predicate Lists(ts: seq<F.Info>, tables: map<F.Word64, F.Info>, n: nat) {
    && NoDup(ts)
    && forall t: F.Info :: t in ts <==> t.id in tables && tables[t.id] == t && t.level == n
  }

  lemma {:induction false} OnLevelIs(ts: seq<F.Info>, n: nat)
    requires NoDup(ts)
    ensures NoDup(OnLevel(ts, n))
    ensures forall t :: t in OnLevel(ts, n) <==> t in ts && t.level == n
  {
    if ts != [] {
      var k := |ts| - 1;
      OnLevelIs(ts[..k], n);
      assert ts == ts[..k] + [ts[k]];
      assert ts[k] !in ts[..k];
    }
  }

  datatype Built = Built(l0: seq<F.Info>, levels: seq<seq<F.Info>>)

  ghost predicate BuiltFrom(b: Built, tables: map<F.Word64, F.Info>) {
    && Lists(b.l0, tables, 0) && SortedBy(b.l0, NewerId)
    && (|b.levels| > 0 ==> b.levels[0] == [])
    && (forall n :: 1 <= n < |b.levels| ==> Lists(b.levels[n], tables, n) && SortedBy(b.levels[n], EarlierKey))
    && (forall id :: id in tables ==> tables[id].level == 0 || tables[id].level < |b.levels|)
  }

  method BuildState(m: M.State) returns (b: Built)
    requires M.Filed(m)
    ensures BuiltFrom(b, m.tables)
  {
    var ts := M.Tables(m.tables);
    assert NoDup(ts);
    var maxLevel: nat := 0;
    for i := 0 to |ts|
      invariant forall j :: 0 <= j < i ==> ts[j].level <= maxLevel
      invariant maxLevel < 256
    {
      if ts[i].level > maxLevel { maxLevel := ts[i].level; }
    }
    var l0, levels := Distribute(ts, maxLevel);
    BothAreOrders();
    l0 := SortLevel(ts, l0, 0, m.tables, NewerId);
    var n := 1;
    while n < |levels|
      invariant 1 <= n && |levels| == (if maxLevel > 0 then maxLevel + 1 else 0)
      invariant forall k :: n <= k < |levels| ==> levels[k] == OnLevel(ts, k)
      invariant |levels| > 0 ==> levels[0] == []
      invariant forall k :: 1 <= k < n && k < |levels| ==>
        Lists(levels[k], m.tables, k) && SortedBy(levels[k], EarlierKey)
    {
      var sorted := SortLevel(ts, levels[n], n, m.tables, EarlierKey);
      levels := levels[n := sorted];
      n := n + 1;
    }
    b := Built(l0, levels);
    forall id | id in m.tables ensures m.tables[id].level == 0 || m.tables[id].level < |b.levels| {
      assert m.tables[id] in ts;
    }
  }

  /** Each table goes to the list of its level. */
  method Distribute(ts: seq<F.Info>, maxLevel: nat) returns (l0: seq<F.Info>, levels: seq<seq<F.Info>>)
    requires forall t :: t in ts ==> t.level <= maxLevel
    ensures l0 == OnLevel(ts, 0)
    ensures |levels| == if maxLevel > 0 then maxLevel + 1 else 0
    ensures |levels| > 0 ==> levels[0] == []
    ensures forall n :: 1 <= n < |levels| ==> levels[n] == OnLevel(ts, n)
  {
    l0 := [];
    levels := if maxLevel > 0 then seq(maxLevel + 1, _ => []) else [];
    for i := 0 to |ts|
      invariant |levels| == if maxLevel > 0 then maxLevel + 1 else 0
      invariant l0 == OnLevel(ts[..i], 0)
      invariant |levels| > 0 ==> levels[0] == []
      invariant forall n :: 1 <= n < |levels| ==> levels[n] == OnLevel(ts[..i], n)
    {
      assert ts[..i + 1][..i] == ts[..i] && ts[i] in ts;
      if ts[i].level == 0 {
        l0 := l0 + [ts[i]];
      } else {
        levels := levels[ts[i].level := levels[ts[i].level] + [ts[i]]];
      }
    }
    assert ts[..|ts|] == ts;
  }

  method SortLevel(ghost ts: seq<F.Info>, level: seq<F.Info>, ghost n: nat, ghost tables: map<F.Word64, F.Info>,
                   less: (F.Info, F.Info) -> bool) returns (r: seq<F.Info>)
    requires StrictOrder(less) && NoDup(ts) && level == OnLevel(ts, n)
    requires forall t :: t in ts <==> t.id in tables && tables[t.id] == t
    ensures Lists(r, tables, n) && SortedBy(r, less)
  {
    hide StrictOrder, SortedBy, OnLevel;
    OnLevelIs(ts, n);
    r := SortBy(level, less);
    Permuted(r, level);
  }

  lemma {:induction false} Permuted<T>(a: seq<T>, b: seq<T>)
    requires multiset(a) == multiset(b) && NoDup(b)
    ensures NoDup(a) && (forall x :: x in a ==> x in b) && (forall x :: x in b ==> x in a)
  {
    forall x | x in a ensures x in b { assert x in multiset(a); }
    forall x | x in b ensures x in a { assert x in multiset(b); }
    forall i, j | 0 <= i < j < |a| ensures a[i] != a[j] {
      CountedOnce(b, a[i]);
      if a[i] == a[j] { RepeatedElement(a, i, j); }
    }
  }

  lemma {:induction false} CountedOnce<T>(ts: seq<T>, x: T)
    requires NoDup(ts)
    ensures multiset(ts)[x] <= 1
  {
    if ts != [] {
      CountedOnce(ts[1..], x);
      assert ts == [ts[0]] + ts[1..];
      assert ts[0] !in ts[1..];
      assert multiset(ts[1..])[ts[0]] == 0;
    }
  }

  // ----- opening the tables -----

  ghost predicate Opened(files: map<nat, Table>, infos: seq<F.Info>, ts: seq<Table>) {
    |ts| == |infos| && forall i :: 0 <= i < |infos| ==> infos[i].id in files && ts[i] == files[infos[i].id]
  }

  method OpenAll(files: map<nat, Table>, infos: seq<F.Info>) returns (r: Option<seq<Table>>)
    ensures r.Some? <==> forall t :: t in infos ==> t.id in files
    ensures r.Some? ==> Opened(files, infos, r.value)
  {
    var ts := [];
    for i := 0 to |infos|
      invariant Opened(files, infos[..i], ts)
    {
      if infos[i].id !in files {
        assert infos[i] in infos;
        return None;
      }
      ts := ts + [files[infos[i].id]];
    }
    r := Some(ts);
  }

  /** The tables filed under a level, in the order the level keeps them. */
  ghost predicate LevelRebuilt(d: Disk, tables: map<F.Word64, F.Info>, n: nat, ts: seq<Table>) {
    exists infos :: Lists(infos, tables, n) && SortedBy(infos, OrderOf(n))
                    && Opened(d.tables, infos, ts)
  }

  ghost predicate LevelsRebuilt(d: Disk, tables: map<F.Word64, F.Info>, levels: seq<seq<Table>>) {
    && (|levels| > 0 ==> levels[0] == [])
    && forall n :: 1 <= n < |levels| ==> LevelRebuilt(d, tables, n, levels[n])
  }

  /** Tables of levels beyond the configured ones are not opened. */
  ghost predicate Present(d: Disk, tables: map<F.Word64, F.Info>, maxLevels: nat) {
    forall id :: id in tables && (tables[id].level == 0 || tables[id].level < maxLevels) ==> id in d.tables
  }

  method OpenLevels(d: Disk, b: Built, ghost tables: map<F.Word64, F.Info>, maxLevels: nat)
    returns (r: Option<seq<seq<Table>>>)
    requires BuiltFrom(b, tables) && forall id :: id in tables ==> tables[id].id == id
    ensures r.None? ==> !Present(d, tables, maxLevels)
    ensures r.Some? ==> |r.value| == maxLevels && LevelsRebuilt(d, tables, r.value)
    ensures r.Some? ==> forall id :: id in tables && 0 < tables[id].level < maxLevels ==> id in d.tables
  {
    hide Lists, SortedBy;
    var levels: seq<seq<Table>> := seq(maxLevels, _ => []);
    var n := 1;
    while n < |b.levels| && n < maxLevels
      invariant 1 <= n && |levels| == maxLevels && (maxLevels > 0 ==> levels[0] == [])
      invariant forall k :: 1 <= k < n && k < maxLevels ==> LevelRebuilt(d, tables, k, levels[k])
      invariant forall k :: n <= k < maxLevels ==> levels[k] == []
      invariant forall id :: id in tables && 0 < tables[id].level < n && tables[id].level < maxLevels ==> id in d.tables
    {
      var ts := OpenAll(d.tables, b.levels[n]);
      ListedIds(d, tables, b.levels[n], n);
      if ts.None? {
        return None;
      }
      assert LevelRebuilt(d, tables, n, ts.value);
      levels := levels[n := ts.value];
      n := n + 1;
    }
    forall k | 1 <= k < maxLevels ensures LevelRebuilt(d, tables, k, levels[k]) {
      if n <= k { NothingListed(d, b, tables, k); }
    }
    r := Some(levels);
  }

  lemma {:induction false} ListedIds(d: Disk, tables: map<F.Word64, F.Info>, infos: seq<F.Info>, n: nat)
    requires Lists(infos, tables, n) && forall id :: id in tables ==> tables[id].id == id
    ensures (forall t :: t in infos ==> t.id in d.tables) <==>
            forall id :: id in tables && tables[id].level == n ==> id in d.tables
  {
    forall id | id in tables && tables[id].level == n ensures tables[id] in infos {
    }
  }

  lemma {:induction false} NothingListed(d: Disk, b: Built, tables: map<F.Word64, F.Info>, n: nat)
    requires BuiltFrom(b, tables) && n >= 1 && n >= |b.levels|
    ensures LevelRebuilt(d, tables, n, [])
  {
    assert Lists([], tables, n) && Opened(d.tables, [], []);
    assert SortedBy([], OrderOf(n));
  }

  // ----- replaying the logs -----

  function VersionIn(e: W.Logged): Entry {
    Entry(MakeInternalKey(e.key, e.seq_), e.value)
  }

  function Load(es: seq<Entry>, log: seq<W.Logged>): seq<Entry>
    decreases log
  {
    if log == [] then es else Load(Insert(es, VersionIn(log[0])), log[1..])
  }

  function LoadSize(log: seq<W.Logged>): nat {
    if log == [] then 0 else OpSize(Op(log[0].key, log[0].value)) + LoadSize(log[1..])
  }

  function LoadedMem(id: nat, log: seq<W.Logged>): Memtable {
    Memtable(id, Load([], log), LoadSize(log))
  }

  function HighestSeq(log: seq<W.Logged>, q: nat): nat
    decreases log
  {
    if log == [] then q else HighestSeq(log[1..], if log[0].seq_ >= q then log[0].seq_ else q)
  }

  method LoadLog(id: nat, log: seq<W.Logged>, q: nat) returns (mt: Memtable, nextSeq: nat)
    ensures mt == LoadedMem(id, log) && nextSeq == HighestSeq(log, q)
  {
    hide Insert, MakeInternalKey;
    mt, nextSeq := Memtable(id, [], 0), q;
    assert log[0..] == log;
    for i := 0 to |log|
      invariant mt.id == id && Load(mt.entries, log[i..]) == Load([], log)
      invariant mt.size + LoadSize(log[i..]) == LoadSize(log)
      invariant HighestSeq(log[i..], nextSeq) == HighestSeq(log, q)
    {
      assert log[i..][1..] == log[i + 1..];
      mt := Memtable(id, Insert(mt.entries, VersionIn(log[i])), mt.size + OpSize(Op(log[i].key, log[i].value)));
      if log[i].seq_ >= nextSeq { nextSeq := log[i].seq_; }
    }
  }

  lemma {:induction false} HighestSeqIs(log: seq<W.Logged>, q: nat)
    ensures var r := HighestSeq(log, q);
      && q <= r && (forall e :: e in log ==> e.seq_ <= r) && (r == q || exists e :: e in log && e.seq_ == r)
    decreases log
  {
    if log != [] {
      var p := if log[0].seq_ >= q then log[0].seq_ else q;
      HighestSeqIs(log[1..], p);
      assert log == [log[0]] + log[1..];
    }
  }

  predicate Lower(a: nat, b: nat) {
    a < b
  }

  /** The ids of the log files, ascending. */
  method LogIds(logs: map<nat, Bytes>) returns (ids: seq<nat>)
    ensures StrictBy(ids, Lower) && forall id :: id in ids <==> id in logs
  {
    var found: seq<nat> := [];
    var left := logs.Keys;
    while left != {}
      invariant left <= logs.Keys && NoDup(found)
      invariant forall id :: id in found <==> id in logs && id !in left
      decreases left
    {
      var id :| id in left;
      left := left - {id};
      assert id !in found;
      found := found + [id];
    }
    ids := SortBy(found, Lower);
    Permuted(ids, found);
  }

  /** What the log of a memtable holds. */
  function LogOf(d: Disk, id: nat, crc: Bytes -> Word32): seq<W.Logged>
    requires id in d.logs
  {
    var r := W.Recovered(d.logs[id], [], crc);
    if r.Ok? then r.value else []
  }

  predicate AllLogged(d: Disk, ids: seq<nat>) {
    forall i :: 0 <= i < |ids| ==> ids[i] in d.logs
  }

  /** One memtable per log, the newest first. */
  function Mems(d: Disk, ids: seq<nat>, crc: Bytes -> Word32): (ms: seq<Memtable>)
    requires AllLogged(d, ids)
    ensures |ms| == |ids|
  {
    if ids == [] then []
    else
      var n := |ids| - 1;
      [LoadedMem(ids[n], LogOf(d, ids[n], crc))] + Mems(d, ids[..n], crc)
  }

  lemma {:induction false} MemsAt(d: Disk, ids: seq<nat>, crc: Bytes -> Word32, k: nat)
    requires AllLogged(d, ids) && k < |ids|
    ensures var id := ids[|ids| - 1 - k]; Mems(d, ids, crc)[k] == LoadedMem(id, LogOf(d, id, crc))
  {
    hide LoadedMem, LogOf;
    if k > 0 {
      MemsAt(d, ids[..|ids| - 1], crc, k - 1);
    }
  }

  function LastSeq(d: Disk, ids: seq<nat>, q: nat, crc: Bytes -> Word32): nat
    requires AllLogged(d, ids)
  {
    if ids == [] then q
    else
      var n := |ids| - 1;
      HighestSeq(LogOf(d, ids[n], crc), LastSeq(d, ids[..n], q, crc))
  }

  function LastId(ids: seq<nat>, k: nat): nat {
    if ids == [] then k
    else
      var n, below := |ids| - 1, LastId(ids[..|ids| - 1], k);
      if ids[n] >= below then ids[n] else below
  }

  lemma {:induction false} LastIdIs(ids: seq<nat>, k: nat)
    ensures var r := LastId(ids, k);
      k <= r && (forall id :: id in ids ==> id <= r) && (r == k || r in ids)
  {
    if ids != [] {
      LastIdIs(ids[..|ids| - 1], k);
      assert ids == ids[..|ids| - 1] + [ids[|ids| - 1]];
    }
  }

  /** The highest sequence number of the manifest and all logs. */
  lemma {:induction false} LastSeqIs(d: Disk, ids: seq<nat>, q: nat, crc: Bytes -> Word32)
    requires AllLogged(d, ids)
    ensures var r := LastSeq(d, ids, q, crc);
      && q <= r && (forall id, e :: id in ids && e in LogOf(d, id, crc) ==> e.seq_ <= r)
      && (r == q || exists id, e :: id in ids && e in LogOf(d, id, crc) && e.seq_ == r)
  {
    hide LogOf, HighestSeq;
    if ids != [] {
      var n := |ids| - 1;
      LastSeqIs(d, ids[..n], q, crc);
      HighestSeqIs(LogOf(d, ids[n], crc), LastSeq(d, ids[..n], q, crc));
      assert ids == ids[..n] + [ids[n]];
    }
  }

  ghost predicate LogsReadable(d: Disk, crc: Bytes -> Word32) {
    forall id :: id in d.logs ==> W.Recovered(d.logs[id], [], crc).Ok?
  }

  method ReplayLogs(d: Disk, ids: seq<nat>, mem: nat, next: nat, crc: Bytes -> Word32)
    returns (ok: bool, ms: seq<Memtable>, nextMemID: nat, nextSeq: nat)
    requires AllLogged(d, ids)
    ensures ok <==> forall i :: 0 <= i < |ids| ==> W.Recovered(d.logs[ids[i]], [], crc).Ok?
    ensures ok ==> ms == Mems(d, ids, crc) && nextMemID == LastId(ids, mem) && nextSeq == LastSeq(d, ids, next, crc)
  {
    hide LoadedMem, HighestSeq, W.Recovered;
    ms, nextMemID, nextSeq := [], mem, next;
    for i := 0 to |ids|
      invariant forall j :: 0 <= j < i ==> W.Recovered(d.logs[ids[j]], [], crc).Ok?
      invariant ms == Mems(d, ids[..i], crc)
      invariant nextMemID == LastId(ids[..i], mem)
      invariant nextSeq == LastSeq(d, ids[..i], next, crc)
    {
      var log := W.Recover(d.logs[ids[i]], crc);
      if log.Err? {
        return false, ms, nextMemID, nextSeq;
      }
      assert ids[..i + 1][..i] == ids[..i];
      var mt;
      mt, nextSeq := LoadLog(ids[i], log.value, nextSeq);
      if ids[i] >= nextMemID { nextMemID := ids[i]; }
      ms := [mt] + ms;
    }
    assert ids[..|ids|] == ids;
    ok := true;
  }

  // ----- recovery -----

  /** The memtables and counters that the logs amount to; a fresh memtable if there is no log. */
  ghost predicate MemsFrom(d: Disk, m: M.State, ids: seq<nat>, s: State, crc: Bytes -> Word32) {
    && StrictBy(ids, Lower) && (forall id :: id in ids <==> id in d.logs) && AllLogged(d, ids)
    && s.nextSeq == LastSeq(d, ids, m.nextSeq, crc)
    && if ids == [] then
         s.nextMemID == m.nextMemID + 1 && s.active == Memtable(s.nextMemID, [], 0) && s.immutables == []
       else s.nextMemID == LastId(ids, m.nextMemID) && [s.active] + s.immutables == Mems(d, ids, crc)
  }

  ghost predicate MemsRebuilt(d: Disk, m: M.State, s: State, crc: Bytes -> Word32) {
    exists ids :: MemsFrom(d, m, ids, s, crc)
  }

  ghost predicate Rebuilt(d: Disk, maxLevels: nat, crc: Bytes -> Word32, s: State) {
    var m := M.Replayed(d.manifest, M.EMPTY, crc);
    && m.Ok?
    && LevelRebuilt(d, m.value.tables, 0, s.l0)
    && |s.levels| == maxLevels && LevelsRebuilt(d, m.value.tables, s.levels)
    && MemsRebuilt(d, m.value, s, crc)
    && s.inFlight == None
  }

  ghost predicate Readable(d: Disk, maxLevels: nat, crc: Bytes -> Word32) {
    var m := M.Replayed(d.manifest, M.EMPTY, crc);
    m.Ok? && Present(d, m.value.tables, maxLevels) && LogsReadable(d, crc)
  }

  /** Recovery fails exactly if a listed table is missing or a log or the manifest is malformed. */
  method Recover(d: Disk, maxLevels: nat, crc: Bytes -> Word32) returns (r: Option<State>)
    ensures r.Some? <==> Readable(d, maxLevels, crc)
    ensures r.Some? ==> Rebuilt(d, maxLevels, crc, r.value)
  {
    hide LevelRebuilt, LevelsRebuilt, Present, W.Recovered, LastSeq, Mems;
    var replayed := M.Replay(d.manifest, crc);
    M.ReplayKeepsFiled(d.manifest, M.EMPTY, crc);
    if replayed.Err? {
      return None;
    }
    var m := replayed.value;
    var ok, l0, levels := OpenTables(d, m, maxLevels);
    if !ok {
      return None;
    }
    var ids := LogIds(d.logs);
    assert forall i :: 0 <= i < |ids| ==> ids[i] in ids;
    var ms, nextMemID, nextSeq;
    ok, ms, nextMemID, nextSeq := ReplayLogs(d, ids, m.nextMemID, m.nextSeq, crc);
    if !ok {
      return None;
    }
    if ms == [] {
      ms, nextMemID := [Memtable(nextMemID + 1, [], 0)], nextMemID + 1;
    }
    assert ms == [ms[0]] + ms[1..];
    r := Some(State(ms[0], ms[1..], l0, levels, nextMemID, nextSeq, None));
    assert MemsFrom(d, m, ids, r.value, crc);
  }

  method OpenTables(d: Disk, m: M.State, maxLevels: nat)
    returns (ok: bool, l0: seq<Table>, levels: seq<seq<Table>>)
    requires M.Filed(m)
    ensures ok <==> Present(d, m.tables, maxLevels)
    ensures ok ==> LevelRebuilt(d, m.tables, 0, l0)
    ensures ok ==> |levels| == maxLevels && LevelsRebuilt(d, m.tables, levels)
  {
    hide Lists, SortedBy, LevelsRebuilt;
    var b := BuildState(m);
    ListedIds(d, m.tables, b.l0, 0);
    var newest := OpenAll(d.tables, b.l0);
    if newest.None? {
      return false, [], [];
    }
    assert LevelRebuilt(d, m.tables, 0, newest.value);
    var deeper := OpenLevels(d, b, m.tables, maxLevels);
    if deeper.None? {
      return false, [], [];
    }
    return true, newest.value, deeper.value;
  }
}
