/**
The manifest (manifest/manifest.go): an append-only log of records next to the state they
amount to. Replaying the log, or any cut of it, rebuilds the state.
*/
module Manifest {
  import opened Bytes
  import opened Fields
  import opened Frames
  import opened ManifestFormat

  const SNAPSHOT_INTERVAL: nat := 64

  datatype State = State(tables: map<Word64, Info>, nextMemID: Word64, nextSeq: Word64, graphs: map<Bytes, Graph>)

  const EMPTY := State(map[], 0, 0, map[])

  function TablesOf(is_: seq<Info>): map<Word64, Info> {
    if is_ == [] then map[] else TablesOf(is_[..|is_| - 1])[is_[|is_| - 1].id := is_[|is_| - 1]]
  }

  function GraphsOf(gs: seq<Graph>): map<Bytes, Graph> {
    if gs == [] then map[] else GraphsOf(gs[..|gs| - 1])[gs[|gs| - 1].collection := gs[|gs| - 1]]
  }

  function Apply(s: State, r: Record): State {
    match r
    case Added(i) => s.(tables := s.tables[i.id := i])
    case Removed(id, _) => s.(tables := s.tables - {id})
    case Full(ts, gs) => s.(tables := TablesOf(ts), graphs := GraphsOf(gs))
    case NextIDs(m, q) => s.(nextMemID := m, nextSeq := q)
    case GraphSaved(g) => s.(graphs := s.graphs[g.collection := g])
  }

  function ApplyAll(s: State, rs: seq<Record>): State {
    if rs == [] then s else Apply(ApplyAll(s, rs[..|rs| - 1]), rs[|rs| - 1])
  }

  /** Tables are filed under their id, graphs under their collection. */
  predicate Filed(s: State) {
    && (forall id :: id in s.tables ==> s.tables[id].id == id)
    && (forall c :: c in s.graphs ==> s.graphs[c].collection == c)
  }

  lemma {:induction false} TablesFiled(is_: seq<Info>)
    ensures forall id :: id in TablesOf(is_) ==> TablesOf(is_)[id].id == id
  {
    if is_ != [] { TablesFiled(is_[..|is_| - 1]); }
  }

  lemma {:induction false} GraphsFiled(gs: seq<Graph>)
    ensures forall c :: c in GraphsOf(gs) ==> GraphsOf(gs)[c].collection == c
  {
    if gs != [] { GraphsFiled(gs[..|gs| - 1]); }
  }

  lemma {:induction false} ApplyKeepsFiled(s: State, r: Record)
    requires Filed(s)
    ensures Filed(Apply(s, r))
  {
    if r.Full? {
      TablesFiled(r.tables);
      GraphsFiled(r.graphs);
    }
  }

  // ----- replay -----

  function Log(rs: seq<Record>, crc: Bytes -> Word32): Bytes {
    Joined(Records(rs, crc))
  }

  function Records(rs: seq<Record>, crc: Bytes -> Word32): (fs: seq<Bytes>)
    ensures |fs| == |rs| && forall i :: 0 <= i < |fs| ==> fs[i] == RecordBytes(rs[i], crc)
  {
    seq(|rs|, i requires 0 <= i < |rs| => RecordBytes(rs[i], crc))
  }

  lemma {:induction false} LogFirst(rs: seq<Record>, crc: Bytes -> Word32)
    ensures Log(rs, crc) == if rs == [] then [] else RecordBytes(rs[0], crc) + Log(rs[1..], crc)
  {
    hide RecordBytes;
    if rs != [] { assert Records(rs, crc)[1..] == Records(rs[1..], crc); }
  }

  predicate AllFit(rs: seq<Record>) {
    forall i :: 0 <= i < |rs| ==> Fits(rs[i])
  }

  /** What replay makes of the rest of a file. */
  function Replayed(data: Bytes, s: State, crc: Bytes -> Word32): Result<State>
    decreases |data|
  {
    if data == [] then Ok(s)
    else
      var r := ParseRecord(data, crc);
      if r.Ok? then Replayed(data[r.value.1..], Apply(s, r.value.0), crc)
      else if r.error.Corrupt? || r.error.Short? then Ok(s)
      else Err(r.error)
  }

  lemma {:induction false} ReplayOne(r: Record, tail: Bytes, s: State, crc: Bytes -> Word32)
    requires Fits(r)
    ensures Replayed(RecordBytes(r, crc) + tail, s, crc) == Replayed(tail, Apply(s, r), crc)
  {
    hide ParseRecord, RecordBytes, Fits, Apply;
    RecordRoundTrip(r, tail, crc);
    assert (RecordBytes(r, crc) + tail)[|RecordBytes(r, crc)|..] == tail;
  }

  /** Records at the front are applied in order, whatever follows them. */
  lemma {:induction false} ReplayFront(rs: seq<Record>, tail: Bytes, s: State, crc: Bytes -> Word32)
    requires AllFit(rs)
    ensures Replayed(Log(rs, crc) + tail, s, crc) == Replayed(tail, ApplyAll(s, rs), crc)
    decreases |rs|
  {
    hide RecordBytes, PayloadBytes, Fits, Apply, Log, Replayed, ApplyAll;
    LogFirst(rs, crc);
    if rs == [] {
      assert Log(rs, crc) + tail == tail;
      ApplyNone(s, rs);
    } else {
      var rest := Log(rs[1..], crc) + tail;
      assert Log(rs, crc) + tail == RecordBytes(rs[0], crc) + rest;
      ReplayOne(rs[0], rest, s, crc);
      ReplayFront(rs[1..], tail, Apply(s, rs[0]), crc);
      ApplyFirst(s, rs);
    }
  }

  lemma {:induction false} ApplyNone(s: State, rs: seq<Record>)
    requires rs == []
    ensures ApplyAll(s, rs) == s
  {
  }

  lemma {:induction false} ApplyFirst(s: State, rs: seq<Record>)
    requires rs != []
    ensures ApplyAll(s, rs) == ApplyAll(Apply(s, rs[0]), rs[1..])
    decreases |rs|
  {
    hide Apply;
    if |rs| == 1 {
      assert rs[..0] == [] && rs[1..] == [];
    } else {
      var n := |rs| - 1;
      ApplyFirst(s, rs[..n]);
      assert rs[..n][1..] == rs[1..][..n - 1] && rs[1..][n - 1] == rs[n];
    }
  }

  /** Cut the log anywhere: replay gives the state after the records that are there in full. */
  lemma {:induction false} CutReplays(rs: seq<Record>, n: nat, crc: Bytes -> Word32)
    requires AllFit(rs) && n <= |Log(rs, crc)|
    ensures Replayed(Log(rs, crc)[..n], EMPTY, crc) == Ok(ApplyAll(EMPTY, rs[..Whole(Records(rs, crc), n)]))
  {
    hide ParseRecord, RecordBytes, Fits, ApplyAll, Whole, Joined;
    var k := Whole(Records(rs, crc), n);
    var torn := Cut(Records(rs, crc), n);
    assert Records(rs, crc)[..k] == Records(rs[..k], crc);
    ReplayFront(rs[..k], torn, EMPTY, crc);
    if torn != [] { TornRecord(rs[k], |torn|, crc); }
  }

  lemma {:induction false} LogAppend(rs: seq<Record>, r: Record, crc: Bytes -> Word32)
    ensures Log(rs + [r], crc) == Log(rs, crc) + RecordBytes(r, crc)
    ensures ApplyAll(EMPTY, rs + [r]) == Apply(ApplyAll(EMPTY, rs), r)
  {
    hide RecordBytes, Apply, Joined;
    assert (rs + [r])[..|rs|] == rs;
    assert Records(rs + [r], crc) == Records(rs, crc) + [RecordBytes(r, crc)];
    JoinedAppend(Records(rs, crc), RecordBytes(r, crc));
  }

  lemma {:induction false} WholeLogReplays(rs: seq<Record>, crc: Bytes -> Word32)
    requires AllFit(rs)
    ensures Replayed(Log(rs, crc), EMPTY, crc) == Ok(ApplyAll(EMPTY, rs))
  {
    hide ParseRecord, RecordBytes, Fits, Log, ApplyAll;
    assert Log(rs, crc) + [] == Log(rs, crc);
    ReplayFront(rs, [], EMPTY, crc);
  }

  /** The bytes start with a record that is there in full and passes its checksum. */
  predicate Checks(data: Bytes, crc: Bytes -> Word32) {
    && |data| >= HEADER
    && |data| >= HEADER + FieldAt(data, 4, 4) > HEADER
    && FieldAt(data, 0, 4) == crc(data[4..HEADER + FieldAt(data, 4, 4)])
  }

  /** The manifest too is reopened for appending without cutting a torn tail off
      (manifest/manifest.go:137-141). Unless the bytes written behind it pass for the torn record,
      later records take effect exactly if there was no torn tail, or if they change nothing. */
  lemma {:induction false} ReopenedIff(rs: seq<Record>, r: Record, n: nat, later: seq<Record>, crc: Bytes -> Word32)
    requires AllFit(rs) && AllFit(later) && Fits(r) && n < |RecordBytes(r, crc)|
    requires n > 0 ==> !Checks(RecordBytes(r, crc)[..n] + Log(later, crc), crc)
    ensures
      Replayed(Log(rs, crc) + (RecordBytes(r, crc)[..n] + Log(later, crc)), EMPTY, crc) ==
        Ok(ApplyAll(ApplyAll(EMPTY, rs), later))
      <==> n == 0 || ApplyAll(ApplyAll(EMPTY, rs), later) == ApplyAll(EMPTY, rs)
  {
    hide ParsePayload, RecordBytes, Fits, Log, ApplyAll, FieldAt, PayloadBytes;
    var tail := RecordBytes(r, crc)[..n] + Log(later, crc);
    ReplayFront(rs, tail, EMPTY, crc);
    if n == 0 {
      assert tail == Log(later, crc) + [];
      ReplayFront(later, [], ApplyAll(EMPTY, rs), crc);
    }
  }

  /** A record that cannot be read ends replay with what came before it; one that is whole by its
      checksum but of an unknown type makes it fail. */
  lemma {:induction false} BadRecord(rs: seq<Record>, tail: Bytes, crc: Bytes -> Word32)
    requires AllFit(rs) && tail != [] && ParseRecord(tail, crc).Err?
    ensures Replayed(Log(rs, crc) + tail, EMPTY, crc) ==
      match ParseRecord(tail, crc).error {
        case Short => Ok(ApplyAll(EMPTY, rs))
        case Corrupt => Ok(ApplyAll(EMPTY, rs))
        case UnknownType => Err(UnknownType)
      }
  {
    hide ParseRecord, Log, ApplyAll;
    ReplayFront(rs, tail, EMPTY, crc);
  }

  lemma {:induction false} ReplayKeepsFiled(data: Bytes, s: State, crc: Bytes -> Word32)
    requires Filed(s)
    ensures var r := Replayed(data, s, crc); r.Ok? ==> Filed(r.value)
    decreases |data|
  {
    hide ParseRecord, Apply, Filed;
    var r := ParseRecord(data, crc);
    if data != [] && r.Ok? {
      ApplyKeepsFiled(s, r.value.0);
      ReplayKeepsFiled(data[r.value.1..], Apply(s, r.value.0), crc);
    }
  }

  // ----- the manifest object -----

  /** Replay on open. */
  method Replay(data: Bytes, crc: Bytes -> Word32) returns (r: Result<State>)
    ensures r == Replayed(data, EMPTY, crc)
  {
    hide ParseRecord, Apply;
    var s := EMPTY;
    var offset := 0;
    assert data[0..] == data;
    while offset < |data|
      invariant 0 <= offset <= |data|
      invariant Replayed(data[offset..], s, crc) == Replayed(data, EMPTY, crc)
    {
      var record := ParseRecord(data[offset..], crc);
      if record.Err? {
        if record.error.Corrupt? || record.error.Short? {
          break;
        }
        return Err(record.error);
      }
      assert data[offset..][record.value.1..] == data[offset + record.value.1..];
      s := Apply(s, record.value.0);
      offset := offset + record.value.1;
    }
    r := Ok(s);
  }

  /** The tables of a map in some order: Go's map iteration. */
  method Tables(m: map<Word64, Info>) returns (ts: seq<Info>)
    requires forall id :: id in m ==> m[id].id == id
    ensures TablesOf(ts) == m
    ensures forall t :: t in ts <==> t.id in m && m[t.id] == t
    ensures forall i, j :: 0 <= i < j < |ts| ==> ts[i].id != ts[j].id
  {
    hide TablesOf, Without;
    ts := [];
    var left := m.Keys;
    assert TablesOf(ts) == Without(m, left) by { NoTables(m); }
    while left != {}
      invariant left <= m.Keys
      invariant TablesOf(ts) == Without(m, left)
      invariant forall t :: t in ts <==> t.id in m && t.id !in left && m[t.id] == t
      invariant forall i, j :: 0 <= i < j < |ts| ==> ts[i].id != ts[j].id
      decreases left
    {
      var id :| id in left;
      TablesAppend(ts, m[id]);
      WithoutLess(m, left, id);
      assert forall i :: 0 <= i < |ts| ==> ts[i] in ts;
      left := left - {id};
      ts := ts + [m[id]];
    }
    WithoutNone(m);
  }

  /** The entries not left to do. */
  function Without<K, V>(m: map<K, V>, left: set<K>): map<K, V> {
    map k | k in m && k !in left :: m[k]
  }

  lemma {:induction false} WithoutLess<K, V>(m: map<K, V>, left: set<K>, k: K)
    requires k in m && k in left
    ensures Without(m, left - {k}) == Without(m, left)[k := m[k]]
  {
  }

  lemma {:induction false} WithoutNone<K, V>(m: map<K, V>)
    ensures Without(m, {}) == m
  {
  }

  lemma {:induction false} NoTables(m: map<Word64, Info>)
    ensures TablesOf([]) == Without(m, m.Keys)
  {
  }

  lemma {:induction false} TablesAppend(ts: seq<Info>, t: Info)
    ensures TablesOf(ts + [t]) == TablesOf(ts)[t.id := t]
  {
    assert (ts + [t])[..|ts|] == ts;
  }

  method Graphs(m: map<Bytes, Graph>) returns (gs: seq<Graph>)
    requires forall c :: c in m ==> m[c].collection == c
    ensures GraphsOf(gs) == m
  {
    hide GraphsOf, Without;
    gs := [];
    var left := m.Keys;
    assert GraphsOf(gs) == Without(m, left) by { NoGraphs(m); }
    while left != {}
      invariant left <= m.Keys && GraphsOf(gs) == Without(m, left)
      decreases left
    {
      var c :| c in left;
      GraphsAppend(gs, m[c]);
      WithoutLess(m, left, c);
      left := left - {c};
      gs := gs + [m[c]];
    }
    WithoutNone(m);
  }

  lemma {:induction false} NoGraphs(m: map<Bytes, Graph>)
    ensures GraphsOf([]) == Without(m, m.Keys)
  {
  }

  lemma {:induction false} GraphsAppend(gs: seq<Graph>, g: Graph)
    ensures GraphsOf(gs + [g]) == GraphsOf(gs)[g.collection := g]
  {
    assert (gs + [g])[..|gs|] == gs;
  }

  class ManifestFile {
    const crc: Bytes -> Word32
    var file: Bytes
    var tables: map<Word64, Info>
    var nextMemID: Word64
    var nextSeq: Word64
    var graphs: map<Bytes, Graph>
    var recordsSinceSnapshot: nat
    ghost var records: seq<Record>     // everything in the file

    function Abs(): State
      reads this
    {
      State(tables, nextMemID, nextSeq, graphs)
    }

    /** The file holds the records, and the fields are what they amount to. */
    ghost predicate Valid()
      reads this
    {
      file == Log(records, crc) && Abs() == ApplyAll(EMPTY, records) && Filed(Abs())
    }

    constructor Create(nextMemID: Word64, nextSeq: Word64, crc: Bytes -> Word32)
      ensures Valid() && Abs() == State(map[], nextMemID, nextSeq, map[]) && this.crc == crc
    {
      this.crc := crc;
      this.nextMemID, this.nextSeq, tables, graphs := nextMemID, nextSeq, map[], map[];
      file, recordsSinceSnapshot := RecordBytes(NextIDs(nextMemID, nextSeq), crc), 1;
      records := [NextIDs(nextMemID, nextSeq)];
      new;
      LogAppend([], NextIDs(nextMemID, nextSeq), crc);
      assert [] + [NextIDs(nextMemID, nextSeq)] == [NextIDs(nextMemID, nextSeq)];
    }

    /** Append one record. */
    method WriteRecord(r: Record)
      modifies this`file, this`records, this`recordsSinceSnapshot
      ensures file == old(file) + RecordBytes(r, crc) && records == old(records) + [r]
      ensures recordsSinceSnapshot == old(recordsSinceSnapshot) + 1
    {
      file := file + RecordBytes(r, crc);
      records := records + [r];
      recordsSinceSnapshot := recordsSinceSnapshot + 1;
    }

    method AddSSTable(info: Info)
      requires Valid()
      modifies this
      ensures Valid() && Abs() == old(Abs()).(tables := old(tables)[info.id := info])
      ensures old(file) < file && recordsSinceSnapshot < SNAPSHOT_INTERVAL
    {
      hide RecordBytes, Log, ApplyAll;
      LogAppend(records, Added(info), crc);
      ApplyKeepsFiled(Abs(), Added(info));
      WriteRecord(Added(info));
      tables := tables[info.id := info];
      MaybeSnapshot();
    }

    method RemoveSSTable(id: Word64, level: Byte)
      requires Valid()
      modifies this
      ensures Valid() && Abs() == old(Abs()).(tables := old(tables) - {id})
      ensures old(file) < file && recordsSinceSnapshot < SNAPSHOT_INTERVAL
    {
      hide RecordBytes, Log, ApplyAll;
      LogAppend(records, Removed(id, level), crc);
      ApplyKeepsFiled(Abs(), Removed(id, level));
      WriteRecord(Removed(id, level));
      tables := tables - {id};
      MaybeSnapshot();
    }

    method UpdateNextIDs(mem: Word64, next: Word64)
      requires Valid()
      modifies this
      ensures Valid() && Abs() == old(Abs()).(nextMemID := mem, nextSeq := next)
      ensures old(file) < file
    {
      hide RecordBytes, Log, ApplyAll;
      LogAppend(records, NextIDs(mem, next), crc);
      nextMemID, nextSeq := mem, next;
      WriteRecord(NextIDs(mem, next));
    }

    method AddHNSWSnapshot(g: Graph)
      requires Valid()
      modifies this
      ensures Valid() && Abs() == old(Abs()).(graphs := old(graphs)[g.collection := g])
      ensures old(file) < file
    {
      hide RecordBytes, Log, ApplyAll;
      LogAppend(records, GraphSaved(g), crc);
      ApplyKeepsFiled(Abs(), GraphSaved(g));
      WriteRecord(GraphSaved(g));
      graphs := graphs[g.collection := g];
    }

    /** Every so often the full state goes into the log, in whatever order the maps are walked,
        followed by the counters. It changes nothing. */
    method MaybeSnapshot()
      requires Valid()
      modifies this`file, this`records, this`recordsSinceSnapshot
      ensures Valid() && recordsSinceSnapshot < SNAPSHOT_INTERVAL && old(file) <= file
      ensures old(recordsSinceSnapshot) < 64 ==> records == old(records)
      ensures old(recordsSinceSnapshot) >= 64 ==>
        && recordsSinceSnapshot == 0 && |records| == |old(records)| + 2 && records[..|old(records)|] == old(records)
        && records[|old(records)|].Full? && records[|old(records)| + 1] == NextIDs(nextMemID, nextSeq)
    {
      hide RecordBytes, Log, ApplyAll;
      if recordsSinceSnapshot < SNAPSHOT_INTERVAL {
        return;
      }
      var ts := Tables(tables);
      var gs := Graphs(graphs);
      LogAppend(records, Full(ts, gs), crc);
      WriteRecord(Full(ts, gs));
      LogAppend(records, NextIDs(nextMemID, nextSeq), crc);
      WriteRecord(NextIDs(nextMemID, nextSeq));
      recordsSinceSnapshot := 0;
    }

    /** As long as every record fitted, replaying the file rebuilds the state. */
    lemma {:induction false} FileReplays()
      requires Valid() && AllFit(records)
      ensures Replayed(file, EMPTY, crc) == Ok(Abs())
    {
      hide Log, ApplyAll, Replayed;
      WholeLogReplays(records, crc);
    }
  }
}
