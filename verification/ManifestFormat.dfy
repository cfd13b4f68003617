/**
Manifest records and their bytes (manifest/encoding.go). crc stands for CRC-32; everything
holds for every such function.
*/
module ManifestFormat {
  import opened Bytes
  import opened Fields

  const HEADER: nat := 8

  type Word64 = n: nat | n < U64

  datatype Info = Info(id: Word64, level: Byte, firstKey: Bytes, lastKey: Bytes)

  /** A persisted HNSW graph snapshot file of a collection. */
  datatype Graph = Graph(collection: Bytes, seq_: Word64, filename: Bytes)

  datatype Record =
    | Added(info: Info)
    | Removed(id: Word64, level: Byte)
    | Full(tables: seq<Info>, graphs: seq<Graph>)
    | NextIDs(memID: Word64, nextSeq: Word64)
    | GraphSaved(graph: Graph)

  datatype Error = Short | Corrupt | UnknownType

  datatype Result<+T> = Ok(value: T) | Err(error: Error)

  // ----- encoding -----

  function InfoBytes(i: Info): (r: Bytes)
    ensures |r| == 13 + |i.firstKey| + |i.lastKey|
  {
    LittleEndian(i.id, 8) + ([i.level] + (LittleEndian(|i.firstKey|, 2) + (i.firstKey +
    (LittleEndian(|i.lastKey|, 2) + i.lastKey))))
  }

  function GraphBytes(g: Graph): (r: Bytes)
    ensures |r| == 12 + |g.collection| + |g.filename|
  {
    LittleEndian(|g.collection|, 2) + (g.collection + (LittleEndian(g.seq_, 8) +
    (LittleEndian(|g.filename|, 2) + g.filename)))
  }

  function InfosBytes(is_: seq<Info>): Bytes {
    if is_ == [] then [] else InfoBytes(is_[0]) + InfosBytes(is_[1..])
  }

  function GraphsBytes(gs: seq<Graph>): Bytes {
    if gs == [] then [] else GraphBytes(gs[0]) + GraphsBytes(gs[1..])
  }

  function FullBytes(tables: seq<Info>, graphs: seq<Graph>): Bytes {
    LittleEndian(|tables|, 4) + (InfosBytes(tables) + (LittleEndian(|graphs|, 4) + GraphsBytes(graphs)))
  }

  function TypeOf(r: Record): Byte {
    match r
    case Added(_) => 1
    case Removed(_, _) => 2
    case Full(_, _) => 3
    case NextIDs(_, _) => 4
    case GraphSaved(_) => 5
  }

  function PayloadBytes(r: Record): Bytes {
    match r
    case Added(i) => InfoBytes(i)
    case Removed(id, level) => LittleEndian(id, 8) + [level]
    case Full(ts, gs) => FullBytes(ts, gs)
    case NextIDs(m, s) => LittleEndian(m, 8) + LittleEndian(s, 8)
    case GraphSaved(g) => GraphBytes(g)
  }

  function Body(r: Record): Bytes {
    LittleEndian(1 + |PayloadBytes(r)|, 4) + ([TypeOf(r)] + PayloadBytes(r))
  }

  function RecordBytes(r: Record, crc: Bytes -> Word32): (b: Bytes)
    ensures |b| == HEADER + 1 + |PayloadBytes(r)|
  {
    LittleEndian(crc(Body(r)), 4) + Body(r)
  }

  // ----- decoding -----

  /** A table description at offset o, with the offset behind it. The second length is looked
      for only after the first key. */
  function ParseInfo(data: Bytes, o: nat): Result<(Info, nat)>
    requires o <= |data|
    ensures var r := ParseInfo(data, o); r.Ok? ==> o < r.value.1 <= |data|
  {
    if o + 11 > |data| then Err(Short)
    else
      FieldBound(data, o, 8);
      WidthLimits();
      var id, level, n, f := FieldAt(data, o, 8), data[o + 8], FieldAt(data, o + 9, 2), o + 11;
      if f + n > |data| then Err(Short)
      else
        var l := f + n;
        if l + 2 > |data| then Err(Short)
        else
          var m := FieldAt(data, l, 2);
          if l + 2 + m > |data| then Err(Short)
          else Ok((Info(id, level, data[f..l], data[l + 2..l + 2 + m]), l + 2 + m))
  }

  function ParseGraph(data: Bytes, o: nat): Result<(Graph, nat)>
    requires o <= |data|
    ensures var r := ParseGraph(data, o); r.Ok? ==> o < r.value.1 <= |data|
  {
    if o + 12 > |data| then Err(Short)
    else
      var n, c := FieldAt(data, o, 2), o + 2;
      if c + n > |data| then Err(Short)
      else
        var s := c + n;
        if s + 8 > |data| then Err(Short)
        else
          FieldBound(data, s, 8);
          WidthLimits();
          if s + 10 > |data| then Err(Short)
          else
            var m := FieldAt(data, s + 8, 2);
            if s + 10 + m > |data| then Err(Short)
            else Ok((Graph(data[c..s], FieldAt(data, s, 8), data[s + 10..s + 10 + m]), s + 10 + m))
  }

  function ParseInfos(data: Bytes, o: nat, count: nat, done: seq<Info>): Result<(seq<Info>, nat)>
    requires o <= |data|
    ensures var r := ParseInfos(data, o, count, done); r.Ok? ==> r.value.1 <= |data|
    decreases count
  {
    if count == 0 then Ok((done, o))
    else
      var i := ParseInfo(data, o);
      if i.Err? then Err(i.error) else ParseInfos(data, i.value.1, count - 1, done + [i.value.0])
  }

  function ParseGraphs(data: Bytes, o: nat, count: nat, done: seq<Graph>): Result<seq<Graph>>
    requires o <= |data|
    decreases count
  {
    if count == 0 then Ok(done)
    else
      var g := ParseGraph(data, o);
      if g.Err? then Err(g.error) else ParseGraphs(data, g.value.1, count - 1, done + [g.value.0])
  }

  /** A full-state record; the graph section may be missing (older files). */
  function ParseFull(data: Bytes): Result<Record> {
    if |data| < 4 then Err(Short)
    else
      var ts := ParseInfos(data, 4, FieldAt(data, 0, 4), []);
      if ts.Err? then Err(ts.error)
      else
        var o := ts.value.1;
        if o + 4 > |data| then Ok(Full(ts.value.0, []))
        else
          var gs := ParseGraphs(data, o + 4, FieldAt(data, o, 4), []);
          if gs.Err? then Err(gs.error) else Ok(Full(ts.value.0, gs.value))
  }

  /** The loops of the full-state decoder. */
  method DecodeSnapshot(data: Bytes) returns (r: Result<Record>)
    ensures r == ParseFull(data)
  {
    hide FieldAt, ParseInfo, ParseGraph;
    if |data| < 4 {
      return Err(Short);
    }
    var count := FieldAt(data, 0, 4);
    var offset: nat := 4;
    var tables: seq<Info> := [];
    for i := 0 to count
      invariant offset <= |data|
      invariant ParseInfos(data, offset, count - i, tables) == ParseInfos(data, 4, count, [])
    {
      var t := ParseInfo(data, offset);
      if t.Err? {
        return Err(t.error);
      }
      tables, offset := tables + [t.value.0], t.value.1;
    }
    var graphs: seq<Graph> := [];
    if offset + 4 <= |data| {
      var n := FieldAt(data, offset, 4);
      ghost var start := offset + 4;
      offset := offset + 4;
      for i := 0 to n
        invariant offset <= |data|
        invariant ParseGraphs(data, offset, n - i, graphs) == ParseGraphs(data, start, n, [])
      {
        var g := ParseGraph(data, offset);
        if g.Err? {
          return Err(g.error);
        }
        graphs, offset := graphs + [g.value.0], g.value.1;
      }
    }
    r := Ok(Full(tables, graphs));
  }

  function ParsePayload(typ: Byte, data: Bytes): Result<Record> {
    if typ == 1 then
      var i := ParseInfo(data, 0);
      if i.Err? then Err(i.error) else Ok(Added(i.value.0))
    else if typ == 2 then
      if |data| < 9 then Err(Short)
      else
        FieldBound(data, 0, 8);
        WidthLimits();
        Ok(Removed(FieldAt(data, 0, 8), data[8]))
    else if typ == 3 then ParseFull(data)
    else if typ == 4 then
      if |data| < 16 then Err(Short)
      else
        FieldBound(data, 0, 8);
        FieldBound(data, 8, 8);
        WidthLimits();
        Ok(NextIDs(FieldAt(data, 0, 8), FieldAt(data, 8, 8)))
    else if typ == 5 then
      var g := ParseGraph(data, 0);
      if g.Err? then Err(g.error) else Ok(GraphSaved(g.value.0))
    else Err(UnknownType)
  }

  function ParseRecord(data: Bytes, crc: Bytes -> Word32): Result<(Record, nat)>
    ensures var r := ParseRecord(data, crc); r.Ok? ==> HEADER < r.value.1 <= |data|
  {
    if |data| < HEADER then Err(Short)
    else
      var n := FieldAt(data, 4, 4);
      if n < 1 then Err(Short)
      else if |data| < HEADER + n then Err(Short)
      else if FieldAt(data, 0, 4) != crc(data[4..HEADER + n]) then Err(Corrupt)
      else
        var r := ParsePayload(data[HEADER], data[HEADER + 1..HEADER + n]);
        if r.Err? then Err(r.error) else Ok((r.value, HEADER + n))
  }

  // ----- round trip, and its limits -----

  predicate InfoFits(i: Info) {
    |i.firstKey| < U16 && |i.lastKey| < U16
  }

  predicate GraphFits(g: Graph) {
    |g.collection| < U16 && |g.filename| < U16
  }

  /** The record respects the widths of its lengths and counts. */
  predicate Fits(r: Record) {
    && 1 + |PayloadBytes(r)| < U32
    && match r
       case Added(i) => InfoFits(i)
       case GraphSaved(g) => GraphFits(g)
       case Full(ts, gs) =>
         && |ts| < U32 && |gs| < U32
         && (forall i :: 0 <= i < |ts| ==> InfoFits(ts[i])) && (forall i :: 0 <= i < |gs| ==> GraphFits(gs[i]))
       case _ => true
  }

  /** Id, level, then both keys, each behind its length. */
  lemma {:induction false} InfoParts(data: Bytes, o: nat, i: Info)
    ensures At(data, o, InfoBytes(i)) <==>
      && At(data, o, LittleEndian(i.id, 8)) && At(data, o + 8, [i.level])
      && At(data, o + 9, LittleEndian(|i.firstKey|, 2)) && At(data, o + 11, i.firstKey)
      && At(data, o + 11 + |i.firstKey|, LittleEndian(|i.lastKey|, 2)) && At(data, o + 13 + |i.firstKey|, i.lastKey)
  {
    hide LittleEndian, At;
    var a, n, l := LittleEndian(i.id, 8), LittleEndian(|i.firstKey|, 2), LittleEndian(|i.lastKey|, 2);
    AtConcat(data, o, a, [i.level] + (n + (i.firstKey + (l + i.lastKey))));
    AtConcat(data, o + 8, [i.level], n + (i.firstKey + (l + i.lastKey)));
    AtConcat(data, o + 9, n, i.firstKey + (l + i.lastKey));
    AtConcat(data, o + 11, i.firstKey, l + i.lastKey);
    AtConcat(data, o + 11 + |i.firstKey|, l, i.lastKey);
  }

  /** A table's record is accepted exactly if it is an encoding. */
  lemma {:induction false} ParseInfoIff(data: Bytes, o: nat, i: Info, n: nat)
    requires o <= |data|
    ensures ParseInfo(data, o) == Ok((i, n)) <==>
      InfoFits(i) && At(data, o, InfoBytes(i)) && n == o + |InfoBytes(i)|
  {
    hide ParseInfo, InfoBytes, At, InfoFits;
    if InfoFits(i) && At(data, o, InfoBytes(i)) { InfoReads(data, o, i); }
    if ParseInfo(data, o) == Ok((i, n)) { InfoHeld(data, o, i, n); }
  }

  lemma {:induction false} InfoHeld(data: Bytes, o: nat, i: Info, n: nat)
    requires o <= |data| && ParseInfo(data, o) == Ok((i, n))
    ensures InfoFits(i) && At(data, o, InfoBytes(i)) && n == o + |InfoBytes(i)|
  {
    hide LittleEndian, FieldAt, InfoBytes;
    WidthLimits();
    var l := o + 11 + |i.firstKey|;
    FieldBound(data, o + 9, 2);
    FieldBound(data, l, 2);
    assert At(data, o + 8, [i.level]) && At(data, o + 11, i.firstKey) && At(data, l + 2, i.lastKey);
    hide At;
    FieldHolds(data, o, 8);
    FieldHolds(data, o + 9, 2);
    FieldHolds(data, l, 2);
    InfoParts(data, o, i);
  }

  /** Collection, sequence number and file name, the strings behind their lengths. */
  lemma {:induction false} GraphParts(data: Bytes, o: nat, g: Graph)
    ensures At(data, o, GraphBytes(g)) <==>
      var c := o + 2 + |g.collection|;
      && At(data, o, LittleEndian(|g.collection|, 2)) && At(data, o + 2, g.collection)
      && At(data, c, LittleEndian(g.seq_, 8)) && At(data, c + 8, LittleEndian(|g.filename|, 2))
      && At(data, c + 10, g.filename)
  {
    hide LittleEndian, At;
    var n, s, m := LittleEndian(|g.collection|, 2), LittleEndian(g.seq_, 8), LittleEndian(|g.filename|, 2);
    var c := o + 2 + |g.collection|;
    AtConcat(data, o, n, g.collection + (s + (m + g.filename)));
    AtConcat(data, o + 2, g.collection, s + (m + g.filename));
    AtConcat(data, c, s, m + g.filename);
    AtConcat(data, c + 8, m, g.filename);
  }

  lemma {:induction false} ParseGraphIff(data: Bytes, o: nat, g: Graph, n: nat)
    requires o <= |data|
    ensures ParseGraph(data, o) == Ok((g, n)) <==>
      GraphFits(g) && At(data, o, GraphBytes(g)) && n == o + |GraphBytes(g)|
  {
    hide ParseGraph, GraphBytes, At, GraphFits;
    if GraphFits(g) && At(data, o, GraphBytes(g)) { GraphReads(data, o, g); }
    if ParseGraph(data, o) == Ok((g, n)) { GraphHeld(data, o, g, n); }
  }

  lemma {:induction false} GraphHeld(data: Bytes, o: nat, g: Graph, n: nat)
    requires o <= |data| && ParseGraph(data, o) == Ok((g, n))
    ensures GraphFits(g) && At(data, o, GraphBytes(g)) && n == o + |GraphBytes(g)|
  {
    hide LittleEndian, FieldAt, GraphBytes;
    WidthLimits();
    var c := o + 2 + |g.collection|;
    FieldBound(data, o, 2);
    FieldBound(data, c + 8, 2);
    assert At(data, o + 2, g.collection) && At(data, c + 10, g.filename);
    hide At;
    FieldHolds(data, o, 2);
    FieldHolds(data, c, 8);
    FieldHolds(data, c + 8, 2);
    GraphParts(data, o, g);
  }

  /** Checksum, length, type and payload. */
  lemma {:induction false} RecordLayout(r: Record, crc: Bytes -> Word32)
    ensures var b := RecordBytes(r, crc);
      && |b| == 9 + |PayloadBytes(r)| && b[0..4] == LittleEndian(crc(b[4..]), 4)
      && b[4..8] == LittleEndian(|b| - 8, 4) && b[9..] == PayloadBytes(r)
      && b[8] == match r { case Added(_) => 1 case Removed(_, _) => 2 case Full(_, _) => 3 case NextIDs(_, _) => 4
                           case GraphSaved(_) => 5 }
  {
    hide LittleEndian, PayloadBytes;
    assert RecordBytes(r, crc)[4..] == Body(r);
  }

  lemma {:induction false} InfoReads(data: Bytes, o: nat, i: Info)
    requires At(data, o, InfoBytes(i)) && InfoFits(i)
    ensures o <= |data| && ParseInfo(data, o) == Ok((i, o + |InfoBytes(i)|))
  {
    hide LittleEndian, FieldAt, Pow256, InfoBytes;
    InfoParts(data, o, i);
    WidthLimits();
    FieldReads(data, o, i.id, 8);
    FieldReads(data, o + 9, |i.firstKey|, 2);
    FieldReads(data, o + 11 + |i.firstKey|, |i.lastKey|, 2);
    assert data[o + 8] == data[o + 8..o + 9][0];
  }

  lemma {:induction false} GraphReads(data: Bytes, o: nat, g: Graph)
    requires At(data, o, GraphBytes(g)) && GraphFits(g)
    ensures o <= |data| && ParseGraph(data, o) == Ok((g, o + |GraphBytes(g)|))
  {
    hide LittleEndian, FieldAt, Pow256, GraphBytes;
    var c := o + 2 + |g.collection|;
    GraphParts(data, o, g);
    WidthLimits();
    FieldReads(data, o, |g.collection|, 2);
    FieldReads(data, c, g.seq_, 8);
    FieldReads(data, c + 8, |g.filename|, 2);
  }

  lemma {:induction false} InfosRead(data: Bytes, o: nat, done: seq<Info>, rest: seq<Info>)
    requires At(data, o, InfosBytes(rest)) && forall i :: 0 <= i < |rest| ==> InfoFits(rest[i])
    ensures o <= |data| && ParseInfos(data, o, |rest|, done) == Ok((done + rest, o + |InfosBytes(rest)|))
    decreases |rest|
  {
    hide InfoBytes, ParseInfo, InfoFits;
    if rest == [] {
      assert done + rest == done;
    } else {
      AtConcat(data, o, InfoBytes(rest[0]), InfosBytes(rest[1..]));
      InfoReads(data, o, rest[0]);
      InfosRead(data, o + |InfoBytes(rest[0])|, done + [rest[0]], rest[1..]);
      assert done + [rest[0]] + rest[1..] == done + rest;
    }
  }

  lemma {:induction false} GraphsRead(data: Bytes, o: nat, done: seq<Graph>, rest: seq<Graph>)
    requires At(data, o, GraphsBytes(rest)) && forall i :: 0 <= i < |rest| ==> GraphFits(rest[i])
    ensures o <= |data| && ParseGraphs(data, o, |rest|, done) == Ok(done + rest)
    decreases |rest|
  {
    hide GraphBytes, ParseGraph, GraphFits;
    if rest == [] {
      assert done + rest == done;
    } else {
      AtConcat(data, o, GraphBytes(rest[0]), GraphsBytes(rest[1..]));
      GraphReads(data, o, rest[0]);
      GraphsRead(data, o + |GraphBytes(rest[0])|, done + [rest[0]], rest[1..]);
      assert done + [rest[0]] + rest[1..] == done + rest;
    }
  }

  lemma {:induction false} FullReads(r: Record)
    requires r.Full? && Fits(r)
    ensures ParseFull(FullBytes(r.tables, r.graphs)) == Ok(r)
  {
    hide LittleEndian, FieldAt, InfosBytes, GraphsBytes, ParseInfos, ParseGraphs, InfoFits, GraphFits, Pow256;
    var data, ts, gs := FullBytes(r.tables, r.graphs), r.tables, r.graphs;
    var a, b, c, d := LittleEndian(|ts|, 4), InfosBytes(ts), LittleEndian(|gs|, 4), GraphsBytes(gs);
    AtSelf(data);
    AtConcat(data, 0, a, b + (c + d));
    AtConcat(data, 4, b, c + d);
    AtConcat(data, 4 + |b|, c, d);
    WidthLimits();
    FieldReads(data, 0, |ts|, 4);
    FieldReads(data, 4 + |b|, |gs|, 4);
    InfosRead(data, 4, [], ts);
    GraphsRead(data, 8 + |b|, [], gs);
    assert [] + ts == ts && [] + gs == gs;
  }

  lemma {:induction false} PayloadReads(r: Record)
    requires Fits(r)
    ensures ParsePayload(TypeOf(r), PayloadBytes(r)) == Ok(r)
  {
    hide LittleEndian, FieldAt, ParseInfo, ParseGraph, ParseFull, FullBytes, InfoBytes, GraphBytes, Pow256;
    var data := PayloadBytes(r);
    AtSelf(data);
    WidthLimits();
    match r {
      case Added(i) => InfoReads(data, 0, i);
      case GraphSaved(g) => GraphReads(data, 0, g);
      case Full(_, _) => FullReads(r);
      case Removed(id, level) =>
        AtConcat(data, 0, LittleEndian(id, 8), [level]);
        FieldReads(data, 0, id, 8);
      case NextIDs(m, s) =>
        AtConcat(data, 0, LittleEndian(m, 8), LittleEndian(s, 8));
        FieldReads(data, 0, m, 8);
        FieldReads(data, 8, s, 8);
    }
  }

  lemma {:induction false} HeaderReads(data: Bytes, r: Record, crc: Bytes -> Word32)
    requires At(data, 0, RecordBytes(r, crc)) && 1 + |PayloadBytes(r)| < U32
    ensures |data| >= HEADER + 1 + |PayloadBytes(r)| && FieldAt(data, 4, 4) == 1 + |PayloadBytes(r)|
    ensures FieldAt(data, 0, 4) == crc(data[4..HEADER + 1 + |PayloadBytes(r)|])
    ensures data[HEADER] == TypeOf(r) && data[HEADER + 1..HEADER + 1 + |PayloadBytes(r)|] == PayloadBytes(r)
  {
    hide LittleEndian, FieldAt, PayloadBytes, Pow256;
    var p := PayloadBytes(r);
    AtConcat(data, 0, LittleEndian(crc(Body(r)), 4), Body(r));
    AtConcat(data, 4, LittleEndian(1 + |p|, 4), [TypeOf(r)] + p);
    AtConcat(data, 8, [TypeOf(r)], p);
    WidthLimits();
    FieldReads(data, 0, crc(Body(r)), 4);
    FieldReads(data, 4, 1 + |p|, 4);
    assert data[8] == data[8..9][0];
  }

  /** A record reads back, whatever follows it. */
  lemma {:induction false} RecordRoundTrip(r: Record, tail: Bytes, crc: Bytes -> Word32)
    requires Fits(r)
    ensures ParseRecord(RecordBytes(r, crc) + tail, crc) == Ok((r, |RecordBytes(r, crc)|))
  {
    hide FieldAt, RecordBytes, PayloadBytes, ParsePayload;
    AtPrefix(RecordBytes(r, crc), tail);
    HeaderReads(RecordBytes(r, crc) + tail, r, crc);
    PayloadReads(r);
  }

  /** A record cut short is recognised by its own header. */
  lemma {:induction false} TornRecord(r: Record, n: nat, crc: Bytes -> Word32)
    requires Fits(r) && n < |RecordBytes(r, crc)|
    ensures ParseRecord(RecordBytes(r, crc)[..n], crc) == Err(Short)
  {
    hide RecordBytes, PayloadBytes, ParsePayload, FromLittleEndian;
    var record, data := RecordBytes(r, crc), RecordBytes(r, crc)[..n];
    AtSelf(record);
    HeaderReads(record, r, crc);
    if n >= HEADER {
      assert data[4..8] == record[4..8];
    }
  }

  lemma {:induction false} ParsedInfosFit(data: Bytes, o: nat, count: nat, done: seq<Info>)
    requires o <= |data| && forall i :: 0 <= i < |done| ==> InfoFits(done[i])
    ensures var r := ParseInfos(data, o, count, done);
      r.Ok? ==> |r.value.0| == |done| + count && forall i :: 0 <= i < |r.value.0| ==> InfoFits(r.value.0[i])
    decreases count
  {
    hide ParseInfo, InfoFits;
    if count > 0 {
      ParsedInfoFits(data, o);
      var i := ParseInfo(data, o);
      if i.Ok? { ParsedInfosFit(data, i.value.1, count - 1, done + [i.value.0]); }
    }
  }

  lemma {:induction false} ParsedInfoFits(data: Bytes, o: nat)
    requires o <= |data|
    ensures var r := ParseInfo(data, o); r.Ok? ==> InfoFits(r.value.0)
  {
    hide FieldAt, Pow256;
    WidthLimits();
    var r := ParseInfo(data, o);
    if r.Ok? {
      FieldBound(data, o + 9, 2);
      FieldBound(data, o + 11 + FieldAt(data, o + 9, 2), 2);
    }
  }

  lemma {:induction false} ParsedGraphsFit(data: Bytes, o: nat, count: nat, done: seq<Graph>)
    requires o <= |data| && forall i :: 0 <= i < |done| ==> GraphFits(done[i])
    ensures var r := ParseGraphs(data, o, count, done);
      r.Ok? ==> |r.value| == |done| + count && forall i :: 0 <= i < |r.value| ==> GraphFits(r.value[i])
    decreases count
  {
    hide ParseGraph, GraphFits;
    if count > 0 {
      ParsedGraphFits(data, o);
      var g := ParseGraph(data, o);
      if g.Ok? { ParsedGraphsFit(data, g.value.1, count - 1, done + [g.value.0]); }
    }
  }

  lemma {:induction false} ParsedGraphFits(data: Bytes, o: nat)
    requires o <= |data|
    ensures var r := ParseGraph(data, o); r.Ok? ==> GraphFits(r.value.0)
  {
    hide FieldAt, Pow256;
    WidthLimits();
    var r := ParseGraph(data, o);
    if r.Ok? {
      FieldBound(data, o, 2);
      FieldBound(data, o + 10 + FieldAt(data, o, 2), 2);
    }
  }

  lemma {:induction false} ParsedFullFits(data: Bytes)
    ensures var r := ParseFull(data);
      r.Ok? ==>
        && r.value.Full? && |r.value.tables| < U32 && |r.value.graphs| < U32
        && (forall i :: 0 <= i < |r.value.tables| ==> InfoFits(r.value.tables[i]))
        && (forall i :: 0 <= i < |r.value.graphs| ==> GraphFits(r.value.graphs[i]))
  {
    hide FieldAt, Pow256, InfoFits, GraphFits, ParseInfos, ParseGraphs;
    WidthLimits();
    if |data| >= 4 {
      FieldBound(data, 0, 4);
      ParsedInfosFit(data, 4, FieldAt(data, 0, 4), []);
      var ts := ParseInfos(data, 4, FieldAt(data, 0, 4), []);
      if ts.Ok? && ts.value.1 + 4 <= |data| {
        FieldBound(data, ts.value.1, 4);
        ParsedGraphsFit(data, ts.value.1 + 4, FieldAt(data, ts.value.1, 4), []);
      }
    }
  }

  /** Decoding undoes encoding exactly for the records that fit. */
  lemma {:induction false} RoundTripIff(r: Record, crc: Bytes -> Word32)
    ensures ParseRecord(RecordBytes(r, crc), crc) == Ok((r, |RecordBytes(r, crc)|)) <==> Fits(r)
  {
    hide FieldAt, RecordBytes, PayloadBytes, Pow256, ParseInfo, ParseGraph, ParseFull, InfoFits, GraphFits;
    var data := RecordBytes(r, crc);
    if Fits(r) {
      RecordRoundTrip(r, [], crc);
      assert data + [] == data;
    }
    var parsed := ParseRecord(data, crc);
    if parsed == Ok((r, |data|)) {
      WidthLimits();
      FieldBound(data, 4, 4);
      var payload := data[HEADER + 1..HEADER + FieldAt(data, 4, 4)];
      ParsedInfoFits(payload, 0);
      ParsedGraphFits(payload, 0);
      ParsedFullFits(payload);
    }
  }
}
