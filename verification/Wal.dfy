/**
The write-ahead log (wal/encoding.go, wal/reader.go, wal/wal.go): batches encoded as
checksummed records, and recovery from a file cut off anywhere. crc stands for CRC-32;
everything holds for every such function.
*/
module Wal {
  import opened Bytes
  import opened Fields
  import opened Frames
  import opened Keys
  import opened Versions

  const HEADER: nat := 8
  const ENTRY_HEADER: nat := 15

  datatype Logged = Logged(seq_: SeqNo, key: Bytes, value: Value)

  /** Crash is a slice index out of range. */
  datatype Error = Short | Corrupt | InvalidFlag | Crash

  datatype Result<+T> = Ok(value: T) | Err(error: Error)

  // ----- encoding -----

  function EntryBytes(e: Logged): (r: Bytes)
    ensures |r| == ENTRY_HEADER + |e.key| + |DataOf(e.value)|
  {
    [FlagOf(e.value)] + (LittleEndian(e.seq_, 8) + (LittleEndian(|e.key|, 2) +
    (LittleEndian(|DataOf(e.value)|, 4) + (e.key + DataOf(e.value)))))
  }

  function EntriesBytes(es: seq<Logged>): Bytes {
    if es == [] then [] else EntryBytes(es[0]) + EntriesBytes(es[1..])
  }

  function Payload(es: seq<Logged>): Bytes {
    LittleEndian(|es|, 2) + EntriesBytes(es)
  }

  /** Everything behind the checksum. */
  function Body(es: seq<Logged>): Bytes {
    LittleEndian(|Payload(es)|, 4) + Payload(es)
  }

  function RecordBytes(es: seq<Logged>, crc: Bytes -> Word32): Bytes {
    LittleEndian(crc(Body(es)), 4) + Body(es)
  }

  lemma {:induction false} EntriesAppend(es: seq<Logged>, e: Logged)
    ensures EntriesBytes(es + [e]) == EntriesBytes(es) + EntryBytes(e)
  {
    hide EntryBytes;
    if es == [] {
      assert (es + [e])[1..] == [];
    } else {
      assert (es + [e])[1..] == es[1..] + [e];
      EntriesAppend(es[1..], e);
    }
  }

  lemma {:induction false} EntriesNone(es: seq<Logged>)
    requires es == []
    ensures EntriesBytes(es) == []
  {
  }

  /** Sizes first, then the fields in order, then the checksum over all of them. */
  method EncodeRecord(es: seq<Logged>, crc: Bytes -> Word32) returns (buf: Bytes)
    ensures buf == RecordBytes(es, crc)
  {
    hide EntryBytes, EntriesBytes, LittleEndian;
    var payloadSize := 2;
    EntriesNone(es[..0]);
    for i := 0 to |es|
      invariant payloadSize == 2 + |EntriesBytes(es[..i])|
    {
      EntriesAppend(es[..i], es[i]);
      assert es[..i + 1] == es[..i] + [es[i]];
      payloadSize := payloadSize + ENTRY_HEADER + |es[i].key| + |DataOf(es[i].value)|;
    }
    buf := LittleEndian(payloadSize, 4) + LittleEndian(|es|, 2);
    for i := 0 to |es|
      invariant buf == LittleEndian(payloadSize, 4) + LittleEndian(|es|, 2) + EntriesBytes(es[..i])
    {
      EntriesAppend(es[..i], es[i]);
      assert es[..i + 1] == es[..i] + [es[i]];
      buf := buf + EntryBytes(es[i]);
    }
    assert es[..|es|] == es;
    assert buf == Body(es);
    buf := LittleEndian(crc(buf), 4) + buf;
  }

  // ----- decoding -----

  /** One entry at offset o, with the offset behind it. */
  function ParseEntry(data: Bytes, o: nat, total: nat): Result<(Logged, nat)>
    requires total <= |data|
  {
    if o + ENTRY_HEADER > total then Err(Short)
    else
      var flag, seq_, keyLen, valueLen :=
        data[o], FieldAt(data, o + 1, 8), FieldAt(data, o + 9, 2), FieldAt(data, o + 11, 4);
      FieldBound(data, o + 1, 8);
      WidthLimits();
      var k := o + ENTRY_HEADER;
      if k + keyLen > total then Err(Short)
      else
        var v := k + keyLen;
        if flag == 0 then
          if v + valueLen > total then Err(Short)
          else Ok((Logged(seq_, data[k..v], Data(data[v..v + valueLen])), v + valueLen))
        else if flag == 1 then Ok((Logged(seq_, data[k..v], Tombstone), v))
        else Err(InvalidFlag)
  }

  function ParseEntries(data: Bytes, o: nat, total: nat, count: nat, done: seq<Logged>): Result<seq<Logged>>
    requires total <= |data|
    decreases count
  {
    if count == 0 then Ok(done)
    else
      var e := ParseEntry(data, o, total);
      if e.Err? then Err(e.error) else ParseEntries(data, e.value.1, total, count - 1, done + [e.value.0])
  }

  /** The count is read behind the header whatever the payload length says. */
  function ParseRecord(data: Bytes, crc: Bytes -> Word32): Result<(seq<Logged>, nat)> {
    if |data| < HEADER then Err(Short)
    else
      var total := HEADER + FieldAt(data, 4, 4);
      if |data| < total then Err(Short)
      else if FieldAt(data, 0, 4) != crc(data[4..total]) then Err(Corrupt)
      else if |data| < HEADER + 2 then Err(Crash)
      else
        var es := ParseEntries(data, HEADER + 2, total, FieldAt(data, HEADER, 2), []);
        if es.Err? then Err(es.error) else Ok((es.value, total))
  }

  method DecodeRecord(data: Bytes, crc: Bytes -> Word32) returns (r: Result<(seq<Logged>, nat)>)
    ensures r == ParseRecord(data, crc)
  {
    hide FieldAt, ParseEntry;
    if |data| < HEADER {
      return Err(Short);
    }
    var payloadLen := FieldAt(data, 4, 4);
    var total := HEADER + payloadLen;
    if |data| < total {
      return Err(Short);
    }
    if FieldAt(data, 0, 4) != crc(data[4..total]) {
      return Err(Corrupt);
    }
    if |data| < HEADER + 2 {
      return Err(Crash);
    }
    var count := FieldAt(data, HEADER, 2);
    var offset: nat := HEADER + 2;
    var entries: seq<Logged> := [];
    for i := 0 to count
      invariant ParseEntries(data, offset, total, count - i, entries) ==
        ParseEntries(data, HEADER + 2, total, count, [])
    {
      var e := ParseEntry(data, offset, total);
      if e.Err? {
        return Err(e.error);
      }
      entries, offset := entries + [e.value.0], e.value.1;
    }
    r := Ok((entries, total));
  }

  // ----- round trip, and its limits -----

  predicate EntryFits(e: Logged) {
    |e.key| < U16 && |DataOf(e.value)| < U32
  }

  /** The batch respects the widths of count, lengths and payload size. */
  predicate Fits(es: seq<Logged>) {
    |es| < U16 && |Payload(es)| < U32 && forall i :: 0 <= i < |es| ==> EntryFits(es[i])
  }

  lemma {:induction false} EntryFields(data: Bytes, o: nat, e: Logged)
    requires At(data, o, EntryBytes(e)) && EntryFits(e)
    ensures data[o] == FlagOf(e.value) && FieldAt(data, o + 1, 8) == e.seq_
    ensures FieldAt(data, o + 9, 2) == |e.key| && FieldAt(data, o + 11, 4) == |DataOf(e.value)|
    ensures At(data, o + 15, e.key) && At(data, o + 15 + |e.key|, DataOf(e.value))
  {
    hide LittleEndian, FieldAt, Pow256, DataOf;
    var a, b, c, d := LittleEndian(e.seq_, 8), LittleEndian(|e.key|, 2), LittleEndian(|DataOf(e.value)|, 4),
                      DataOf(e.value);
    AtConcat(data, o, [FlagOf(e.value)], a + (b + (c + (e.key + d))));
    assert data[o] == data[o..o + 1][0];
    hide At;
    AtConcat(data, o + 1, a, b + (c + (e.key + d)));
    AtConcat(data, o + 9, b, c + (e.key + d));
    AtConcat(data, o + 11, c, e.key + d);
    AtConcat(data, o + 15, e.key, d);
    WidthLimits();
    FieldReads(data, o + 1, e.seq_, 8);
    FieldReads(data, o + 9, |e.key|, 2);
    FieldReads(data, o + 11, |d|, 4);
  }

  /** The fields of an entry stand at o, which ends at n; the length of a value that was deleted is
      not looked at. */
  ghost predicate EntryStands(data: Bytes, o: nat, e: Logged, n: nat) {
    && EntryFits(e) && n == o + 15 + |e.key| + |DataOf(e.value)| && At(data, o, [if e.value.Data? then 0 else 1])
    && At(data, o + 1, LittleEndian(e.seq_, 8)) && At(data, o + 9, LittleEndian(|e.key|, 2))
    && (e.value.Data? ==> At(data, o + 11, LittleEndian(|e.value.bytes|, 4)))
    && At(data, o + 15, e.key) && (e.value.Data? ==> At(data, o + 15 + |e.key|, e.value.bytes))
  }

  /** An entry is accepted exactly if its fields stand there and end in time. */
  lemma {:induction false} ParseEntryIff(data: Bytes, o: nat, total: nat, e: Logged, n: nat)
    requires total <= |data|
    ensures ParseEntry(data, o, total) == Ok((e, n)) <==> EntryStands(data, o, e, n) && n <= total
  {
    hide LittleEndian, FieldAt;
    if o + 15 <= total {
      WidthLimits();
      FieldBound(data, o + 9, 2);
      FieldBound(data, o + 11, 4);
      FieldIff(data, o + 1, e.seq_, 8);
      assert At(data, o, [data[o]]) && data[o..o + 1] == [data[o]];
      if |e.key| < U16 { FieldIff(data, o + 9, |e.key|, 2); }
      if e.value.Data? && |e.value.bytes| < U32 { FieldIff(data, o + 11, |e.value.bytes|, 4); }
    }
  }

  lemma {:induction false} EntryReads(data: Bytes, o: nat, total: nat, e: Logged)
    requires At(data, o, EntryBytes(e)) && o + |EntryBytes(e)| <= total <= |data| && EntryFits(e)
    ensures ParseEntry(data, o, total) == Ok((e, o + |EntryBytes(e)|))
  {
    hide EntryBytes, FieldAt;
    EntryFields(data, o, e);
  }

  lemma {:induction false} EntriesRead(data: Bytes, o: nat, total: nat, done: seq<Logged>, rest: seq<Logged>)
    requires At(data, o, EntriesBytes(rest)) && o + |EntriesBytes(rest)| <= total <= |data|
    requires forall i :: 0 <= i < |rest| ==> EntryFits(rest[i])
    ensures ParseEntries(data, o, total, |rest|, done) == Ok(done + rest)
    decreases |rest|
  {
    hide EntryBytes, ParseEntry, At;
    if rest == [] {
      assert done + rest == done;
    } else {
      AtConcat(data, o, EntryBytes(rest[0]), EntriesBytes(rest[1..]));
      EntryReads(data, o, total, rest[0]);
      EntriesRead(data, o + |EntryBytes(rest[0])|, total, done + [rest[0]], rest[1..]);
      assert done + [rest[0]] + rest[1..] == done + rest;
    }
  }

  lemma {:induction false} RecordParts(data: Bytes, es: seq<Logged>, crc: Bytes -> Word32)
    requires At(data, 0, RecordBytes(es, crc))
    ensures At(data, 0, LittleEndian(crc(Body(es)), 4)) && At(data, 4, Body(es))
    ensures At(data, 4, LittleEndian(|Payload(es)|, 4)) && At(data, 8, LittleEndian(|es|, 2))
    ensures At(data, 10, EntriesBytes(es))
    ensures |RecordBytes(es, crc)| == HEADER + |Payload(es)| == 10 + |EntriesBytes(es)|
  {
    hide LittleEndian, EntriesBytes;
    AtConcat(data, 0, LittleEndian(crc(Body(es)), 4), Body(es));
    AtConcat(data, 4, LittleEndian(|Payload(es)|, 4), Payload(es));
    AtConcat(data, 8, LittleEndian(|es|, 2), EntriesBytes(es));
  }

  /** The header of a record whose payload fits its length field. */
  lemma {:induction false} HeaderReads(data: Bytes, es: seq<Logged>, crc: Bytes -> Word32)
    requires At(data, 0, RecordBytes(es, crc)) && |Payload(es)| < U32
    ensures |data| >= |RecordBytes(es, crc)| >= HEADER + 2
    ensures FieldAt(data, 4, 4) == |Payload(es)| && FieldAt(data, HEADER, 2) == |es| % U16
    ensures FieldAt(data, 0, 4) == crc(data[4..HEADER + |Payload(es)|])
  {
    hide LittleEndian, FieldAt, EntriesBytes, Pow256;
    RecordParts(data, es, crc);
    WidthLimits();
    FieldReads(data, 4, |Payload(es)|, 4);
    FieldReads(data, 8, |es|, 2);
    FieldReads(data, 0, crc(Body(es)), 4);
    assert data[4..HEADER + |Payload(es)|] == Body(es);
  }

  /** A record reads back, whatever follows it. */
  lemma {:induction false} RecordRoundTrip(es: seq<Logged>, tail: Bytes, crc: Bytes -> Word32)
    requires Fits(es)
    ensures ParseRecord(RecordBytes(es, crc) + tail, crc) == Ok((es, |RecordBytes(es, crc)|))
  {
    hide LittleEndian, FieldAt, EntriesBytes, RecordBytes, ParseEntries, Payload;
    var data := RecordBytes(es, crc) + tail;
    AtPrefix(RecordBytes(es, crc), tail);
    HeaderReads(data, es, crc);
    RecordParts(data, es, crc);
    EntriesRead(data, 10, HEADER + |Payload(es)|, [], es);
    assert [] + es == es;
    SmallMod(|es|);
  }

  lemma {:induction false} SmallMod(n: nat)
    requires n < U16
    ensures n % U16 == n
  {
  }

  /** Whatever the decoder accepts respects the widths. */
  lemma {:induction false} ParsedFits(data: Bytes, o: nat, total: nat, count: nat, done: seq<Logged>)
    requires total <= |data| && forall i :: 0 <= i < |done| ==> EntryFits(done[i])
    ensures var r := ParseEntries(data, o, total, count, done);
      r.Ok? ==> |r.value| == |done| + count && forall i :: 0 <= i < |r.value| ==> EntryFits(r.value[i])
    decreases count
  {
    hide FieldAt, ParseEntry;
    if count > 0 {
      ParsedEntryFits(data, o, total);
      var e := ParseEntry(data, o, total);
      if e.Ok? { ParsedFits(data, e.value.1, total, count - 1, done + [e.value.0]); }
    }
  }

  lemma {:induction false} ParsedEntryFits(data: Bytes, o: nat, total: nat)
    requires total <= |data|
    ensures var e := ParseEntry(data, o, total); e.Ok? ==> EntryFits(e.value.0)
  {
    hide FieldAt, Pow256;
    WidthLimits();
    if o + ENTRY_HEADER <= total {
      FieldBound(data, o + 9, 2);
      FieldBound(data, o + 11, 4);
    }
  }

  /** Decoding undoes encoding exactly for the batches that fit. */
  lemma {:induction false} RoundTripIff(es: seq<Logged>, crc: Bytes -> Word32)
    ensures ParseRecord(RecordBytes(es, crc), crc) == Ok((es, |RecordBytes(es, crc)|)) <==> Fits(es)
  {
    hide LittleEndian, FieldAt, EntriesBytes, RecordBytes, ParseEntries, Payload, Pow256;
    var data := RecordBytes(es, crc);
    AtSelf(data);
    RecordParts(data, es, crc);
    if Fits(es) {
      RecordRoundTrip(es, [], crc);
      assert data + [] == data;
    }
    if ParseRecord(data, crc) == Ok((es, |data|)) {
      WidthLimits();
      FieldBound(data, 4, 4);
      FieldBound(data, HEADER, 2);
      ParsedFits(data, 10, |data|, FieldAt(data, HEADER, 2), []);
    }
  }

  /** A batch of 65536 operations is written with count 0: its record is valid and recovers as
      an empty batch. */
  lemma {:induction false} CountWraps(es: seq<Logged>, tail: Bytes, crc: Bytes -> Word32)
    requires |es| == U16 && |Payload(es)| < U32
    ensures ParseRecord(RecordBytes(es, crc) + tail, crc) == Ok(([], |RecordBytes(es, crc)|))
  {
    hide LittleEndian, FieldAt, EntriesBytes, RecordBytes, Payload;
    var data := RecordBytes(es, crc) + tail;
    AtPrefix(RecordBytes(es, crc), tail);
    HeaderReads(data, es, crc);
    RecordParts(data, es, crc);
  }

  // ----- recovery -----

  /** The log that a list of batches leaves in the file. */
  function Log(bs: seq<seq<Logged>>, crc: Bytes -> Word32): Bytes {
    Joined(Records(bs, crc))
  }

  function Records(bs: seq<seq<Logged>>, crc: Bytes -> Word32): (fs: seq<Bytes>)
    ensures |fs| == |bs| && forall i :: 0 <= i < |fs| ==> fs[i] == RecordBytes(bs[i], crc)
  {
    seq(|bs|, i requires 0 <= i < |bs| => RecordBytes(bs[i], crc))
  }

  lemma {:induction false} LogFirst(bs: seq<seq<Logged>>, crc: Bytes -> Word32)
    ensures Log(bs, crc) == if bs == [] then [] else RecordBytes(bs[0], crc) + Log(bs[1..], crc)
  {
    hide RecordBytes;
    if bs != [] { assert Records(bs, crc)[1..] == Records(bs[1..], crc); }
  }

  function Batched(bs: seq<seq<Logged>>): seq<Logged> {
    if bs == [] then [] else bs[0] + Batched(bs[1..])
  }

  predicate AllFit(bs: seq<seq<Logged>>) {
    forall i :: 0 <= i < |bs| ==> Fits(bs[i])
  }

  lemma {:induction false} ParsedLength(data: Bytes, crc: Bytes -> Word32)
    ensures var r := ParseRecord(data, crc); r.Ok? ==> HEADER <= r.value.1 <= |data|
  {
  }

  /** What recovery makes of the rest of a file, behind the entries already read. */
  function Recovered(data: Bytes, done: seq<Logged>, crc: Bytes -> Word32): Result<seq<Logged>>
    decreases |data|
  {
    if data == [] then Ok(done)
    else
      var r := ParseRecord(data, crc);
      ParsedLength(data, crc);
      if r.Ok? then Recovered(data[r.value.1..], done + r.value.0, crc)
      else if r.error.Corrupt? || r.error.Short? then Ok(done)
      else Err(r.error)
  }

  method Recover(data: Bytes, crc: Bytes -> Word32) returns (r: Result<seq<Logged>>)
    ensures r == Recovered(data, [], crc)
  {
    hide ParseRecord;
    var all: seq<Logged> := [];
    var offset := 0;
    assert data[0..] == data;
    while offset < |data|
      invariant 0 <= offset <= |data|
      invariant Recovered(data[offset..], all, crc) == Recovered(data, [], crc)
    {
      ParsedLength(data[offset..], crc);
      var record := DecodeRecord(data[offset..], crc);
      if record.Err? {
        if record.error.Corrupt? || record.error.Short? {
          break;
        }
        return Err(record.error);
      }
      assert data[offset..][record.value.1..] == data[offset + record.value.1..];
      all := all + record.value.0;
      offset := offset + record.value.1;
    }
    r := Ok(all);
  }

  /** Whole batches at the front are recovered in full, whatever follows them. */
  lemma {:induction false} RecoverAppend(bs: seq<seq<Logged>>, tail: Bytes, done: seq<Logged>, crc: Bytes -> Word32)
    requires AllFit(bs)
    ensures Recovered(Log(bs, crc) + tail, done, crc) == Recovered(tail, done + Batched(bs), crc)
    decreases |bs|
  {
    hide ParseRecord, RecordBytes, Fits, Log;
    LogFirst(bs, crc);
    if bs == [] {
      assert Log(bs, crc) + tail == tail && done + Batched(bs) == done;
    } else {
      var record, rest := RecordBytes(bs[0], crc), Log(bs[1..], crc);
      var data := Log(bs, crc) + tail;
      assert data == record + (rest + tail);
      RecordRoundTrip(bs[0], rest + tail, crc);
      ParsedLength(data, crc);
      assert data[|record|..] == rest + tail;
      RecoverAppend(bs[1..], tail, done + bs[0], crc);
      assert done + bs[0] + Batched(bs[1..]) == done + Batched(bs);
    }
  }

  /** A record cut short is recognised by its own header. */
  lemma {:induction false} TornRecord(es: seq<Logged>, n: nat, crc: Bytes -> Word32)
    requires Fits(es) && n < |RecordBytes(es, crc)|
    ensures ParseRecord(RecordBytes(es, crc)[..n], crc) == Err(Short)
  {
    hide FieldAt, RecordBytes, ParseEntries, Payload;
    TornHeader(es, RecordBytes(es, crc)[..n], crc);
  }

  /** Bytes that start with the header of a record but end before the record would. */
  lemma {:induction false} TornHeader(es: seq<Logged>, data: Bytes, crc: Bytes -> Word32)
    requires |Payload(es)| < U32 && |data| < |RecordBytes(es, crc)|
    requires |data| >= HEADER ==> data[..HEADER] == RecordBytes(es, crc)[..HEADER]
    ensures ParseRecord(data, crc) == Err(Short)
  {
    hide RecordBytes, ParseEntries, Payload, FromLittleEndian;
    var record := RecordBytes(es, crc);
    AtSelf(record);
    HeaderReads(record, es, crc);
    RecordParts(record, es, crc);
    if |data| >= HEADER {
      assert data[4..8] == data[..HEADER][4..8] == record[..HEADER][4..8] == record[4..8];
    }
  }

  /** Cut the log anywhere: recovery returns exactly the batches that are there in full, in
      order, and no part of another. */
  lemma {:induction false} CutIsAtomic(bs: seq<seq<Logged>>, n: nat, crc: Bytes -> Word32)
    requires AllFit(bs) && n <= |Log(bs, crc)|
    ensures Recovered(Log(bs, crc)[..n], [], crc) == Ok(Batched(bs[..Whole(Records(bs, crc), n)]))
  {
    hide ParseRecord, RecordBytes, Fits, Batched, Whole, Joined;
    var k := Whole(Records(bs, crc), n);
    var torn := Cut(Records(bs, crc), n);
    assert Records(bs, crc)[..k] == Records(bs[..k], crc);
    RecoverAppend(bs[..k], torn, [], crc);
    assert [] + Batched(bs[..k]) == Batched(bs[..k]);
    if torn != [] { TornRecord(bs[k], |torn|, crc); }
  }

  lemma {:induction false} LogAppend(bs: seq<seq<Logged>>, es: seq<Logged>, crc: Bytes -> Word32)
    ensures Log(bs + [es], crc) == Log(bs, crc) + RecordBytes(es, crc)
    ensures Batched(bs + [es]) == Batched(bs) + es
  {
    hide RecordBytes, Joined;
    assert Records(bs + [es], crc) == Records(bs, crc) + [RecordBytes(es, crc)];
    JoinedAppend(Records(bs, crc), RecordBytes(es, crc));
    BatchedAppend(bs, es);
  }

  lemma {:induction false} BatchedAppend(bs: seq<seq<Logged>>, es: seq<Logged>)
    ensures Batched(bs + [es]) == Batched(bs) + es
  {
    if bs == [] {
      assert (bs + [es])[1..] == [];
    } else {
      assert (bs + [es])[1..] == bs[1..] + [es];
      BatchedAppend(bs[1..], es);
    }
  }

  /** An open log file. */
  class LogFile {
    const crc: Bytes -> Word32
    var file: Bytes
    ghost var batches: seq<seq<Logged>>  // written so far

    ghost predicate Valid()
      reads this
    {
      file == Log(batches, crc)
    }

    constructor (crc: Bytes -> Word32)
      ensures Valid() && batches == [] && this.crc == crc
    {
      this.crc, file, batches := crc, [], [];
    }

    /** One batch, one record. If all batches fit, recovery of the file as it stands returns
        every operation acknowledged so far. */
    method WriteEntries(es: seq<Logged>)
      requires Valid()
      modifies this
      ensures Valid() && batches == old(batches) + [es]
      ensures old(file) <= file
      ensures AllFit(batches) ==> Recovered(file, [], crc) == Ok(Batched(old(batches)) + es)
    {
      hide RecordBytes, ParseRecord, Fits, Recovered;
      LogAppend(batches, es, crc);
      var record := EncodeRecord(es, crc);
      file := file + record;
      batches := batches + [es];
      if AllFit(batches) {
        assert file + Log([], crc) == file && Batched(batches) + Batched([]) == Batched(batches);
        ReopenedClean(batches, [], crc);
      }
    }
  }

  // ----- appending again after a crash -----

  /** Reopening a log that was not cut inside a record: later batches are recovered too. */
  lemma {:induction false} ReopenedClean(bs: seq<seq<Logged>>, later: seq<seq<Logged>>, crc: Bytes -> Word32)
    requires AllFit(bs) && AllFit(later)
    ensures Recovered(Log(bs, crc) + Log(later, crc), [], crc) == Ok(Batched(bs) + Batched(later))
  {
    hide ParseRecord, RecordBytes, Fits, Log, Batched;
    RecoverAppend(bs, Log(later, crc), [], crc);
    assert [] + Batched(bs) == Batched(bs);
    assert Log(later, crc) == Log(later, crc) + [];
    RecoverAppend(later, [], Batched(bs), crc);
  }

  /** The bytes start with a record that is there in full and passes its checksum. */
  predicate Checks(data: Bytes, crc: Bytes -> Word32) {
    && |data| >= HEADER
    && |data| >= HEADER + FieldAt(data, 4, 4)
    && FieldAt(data, 0, 4) == crc(data[4..HEADER + FieldAt(data, 4, 4)])
  }

  /** Nothing is recovered from such bytes or from behind them. */
  lemma {:induction false} UncheckedStops(bs: seq<seq<Logged>>, tail: Bytes, crc: Bytes -> Word32)
    requires AllFit(bs) && !Checks(tail, crc)
    ensures Recovered(Log(bs, crc) + tail, [], crc) == Ok(Batched(bs))
  {
    hide FieldAt, RecordBytes, ParseEntries, Log, Batched, Fits;
    RecoverAppend(bs, tail, [], crc);
    assert [] + Batched(bs) == Batched(bs);
  }

  /** A record that cannot be read ends recovery with what came before it; one that is whole by its
      checksum but holds an unknown flag, or nothing at all, makes it fail. */
  lemma {:induction false} BadRecord(bs: seq<seq<Logged>>, tail: Bytes, crc: Bytes -> Word32)
    requires AllFit(bs) && tail != [] && ParseRecord(tail, crc).Err?
    ensures Recovered(Log(bs, crc) + tail, [], crc) ==
      match ParseRecord(tail, crc).error {
        case Short => Ok(Batched(bs))
        case Corrupt => Ok(Batched(bs))
        case InvalidFlag => Err(InvalidFlag)
        case Crash => Err(Crash)
      }
  {
    hide ParseRecord, RecordBytes, Log, Batched, Fits;
    RecoverAppend(bs, tail, [], crc);
    assert [] + Batched(bs) == Batched(bs);
  }

  /** Behind a torn record whose header is whole, the bytes check only if they fill its place
      and happen to have its checksum. */
  lemma {:induction false} MixedChecksIff(es: seq<Logged>, n: nat, more: Bytes, crc: Bytes -> Word32)
    requires Fits(es) && HEADER <= n < |RecordBytes(es, crc)|
    ensures var tail, total := RecordBytes(es, crc)[..n] + more, |RecordBytes(es, crc)|;
      Checks(tail, crc) <==> |tail| >= total && crc(tail[4..total]) == crc(Body(es))
  {
    hide RecordBytes, FromLittleEndian, LittleEndian, Payload;
    var record := RecordBytes(es, crc);
    var tail := record[..n] + more;
    AtSelf(record);
    HeaderReads(record, es, crc);
    RecordParts(record, es, crc);
    assert tail[0..4] == record[0..4] && tail[4..8] == record[4..8];
    assert record[4..HEADER + |Payload(es)|] == Body(es);
  }

  lemma {:induction false} TornUnchecked(es: seq<Logged>, n: nat, crc: Bytes -> Word32)
    requires Fits(es) && n < |RecordBytes(es, crc)|
    ensures !Checks(RecordBytes(es, crc)[..n], crc)
  {
    hide RecordBytes, Fits;
    var torn := RecordBytes(es, crc)[..n];
    if n >= HEADER {
      MixedChecksIff(es, n, [], crc);
      assert torn + [] == torn;
    }
  }

  /** The log is reopened for appending without cutting a torn tail off (wal/wal.go:48-56).
      Unless the bytes written behind it pass for the torn record, the batches written later are
      recovered exactly if there was no torn tail, or nothing in them. */
  lemma {:induction false} ReopenedIff(bs: seq<seq<Logged>>, es: seq<Logged>, n: nat,
                                       later: seq<seq<Logged>>, crc: Bytes -> Word32)
    requires AllFit(bs) && AllFit(later) && Fits(es) && n < |RecordBytes(es, crc)|
    requires n > 0 ==> !Checks(RecordBytes(es, crc)[..n] + Log(later, crc), crc)
    ensures
      Recovered(Log(bs, crc) + (RecordBytes(es, crc)[..n] + Log(later, crc)), [], crc) ==
        Ok(Batched(bs) + Batched(later))
      <==> n == 0 || Batched(later) == []
  {
    hide ParseRecord, RecordBytes, Log, Batched, Fits, Checks, Recovered;
    var tail := RecordBytes(es, crc)[..n] + Log(later, crc);
    if n == 0 {
      assert tail == Log(later, crc);
      ReopenedClean(bs, later, crc);
    } else {
      UncheckedStops(bs, tail, crc);
      assert |Batched(bs) + Batched(later)| == |Batched(bs)| + |Batched(later)|;
      assert Batched(later) == [] ==> Batched(bs) + Batched(later) == Batched(bs);
    }
  }
}
