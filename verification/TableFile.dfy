/**
The SSTable file layout (sstable/format.go, sstable/reader.go): checksummed blocks, bloom
filter, index, footer. crc stands for CRC-32; everything holds for every such function.
*/
module TableFile {
  import opened Bytes
  import opened Fields
  import opened Versions
  import opened Blocks
  import opened Iterators
  import opened Tables

  const FOOTER: nat := 33
  const MAGIC: nat := 0x5448534E
  const VERSION: Byte := 1

  // ----- footer -----

  datatype Footer = Footer(bloomOffset: nat, bloomLen: nat, indexOffset: nat, indexLen: nat, version: Byte)

  function FooterHead(f: Footer): (r: Bytes)
    ensures |r| == 25
  {
    LittleEndian(f.bloomOffset, 8) + (LittleEndian(f.bloomLen, 4) +
    (LittleEndian(f.indexOffset, 8) + (LittleEndian(f.indexLen, 4) + [f.version])))
  }

  function FooterBytes(f: Footer, crc: Bytes -> Word32): (r: Bytes)
    ensures |r| == FOOTER
  {
    FooterHead(f) + (LittleEndian(crc(FooterHead(f)), 4) + LittleEndian(MAGIC, 4))
  }

  function DecodeFooter(data: Bytes, crc: Bytes -> Word32): Result<Footer> {
    if |data| < FOOTER then Err(BadFooter)
    else
      var o := |data| - FOOTER;
      if FieldAt(data, o + 29, 4) != MAGIC then Err(BadFooter)
      else if FieldAt(data, o + 25, 4) != crc(data[o..o + 25]) then Err(BadChecksum)
      else
        var f := Footer(FieldAt(data, o, 8), FieldAt(data, o + 8, 4), FieldAt(data, o + 12, 8),
                        FieldAt(data, o + 20, 4), data[o + 24]);
        if f.version != VERSION then Err(BadFooter) else Ok(f)
  }

  predicate FooterFits(f: Footer) {
    f.bloomOffset < U64 && f.bloomLen < U32 && f.indexOffset < U64 && f.indexLen < U32 && f.version == VERSION
  }

  lemma {:induction false} FooterFields(data: Bytes, o: nat, f: Footer)
    requires FooterFits(f) && At(data, o, FooterHead(f))
    ensures FieldAt(data, o, 8) == f.bloomOffset && FieldAt(data, o + 8, 4) == f.bloomLen
    ensures FieldAt(data, o + 12, 8) == f.indexOffset && FieldAt(data, o + 20, 4) == f.indexLen
    ensures data[o + 24] == f.version
  {
    hide LittleEndian, FieldAt, Pow256, FooterHead;
    HeadParts(data, o, f);
    WidthLimits();
    FieldReads(data, o, f.bloomOffset, 8);
    FieldReads(data, o + 8, f.bloomLen, 4);
    FieldReads(data, o + 12, f.indexOffset, 8);
    FieldReads(data, o + 20, f.indexLen, 4);
    assert data[o + 24..o + 25][0] == data[o + 24];
  }

  lemma {:induction false} FooterRoundTrip(pre: Bytes, f: Footer, crc: Bytes -> Word32)
    requires FooterFits(f)
    ensures DecodeFooter(pre + FooterBytes(f, crc), crc) == Ok(f)
  {
    hide LittleEndian, FieldAt, FooterHead, Pow256;
    var data, o, h := pre + FooterBytes(f, crc), |pre|, FooterHead(f);
    AtWhole(pre, FooterBytes(f, crc), []);
    assert pre + FooterBytes(f, crc) + [] == data;
    AtConcat(data, o, h, LittleEndian(crc(h), 4) + LittleEndian(MAGIC, 4));
    AtConcat(data, o + 25, LittleEndian(crc(h), 4), LittleEndian(MAGIC, 4));
    WidthLimits();
    FieldReads(data, o + 25, crc(h), 4);
    FieldReads(data, o + 29, MAGIC, 4);
    FooterFields(data, o, f);
  }

  /** Where each field of a footer stands. */
  lemma {:induction false} FooterLayout(f: Footer, crc: Bytes -> Word32)
    ensures var b := FooterBytes(f, crc);
      && |b| == 33 && b[0..8] == LittleEndian(f.bloomOffset, 8) && b[8..12] == LittleEndian(f.bloomLen, 4)
      && b[12..20] == LittleEndian(f.indexOffset, 8) && b[20..24] == LittleEndian(f.indexLen, 4)
      && b[24] == f.version && b[25..29] == LittleEndian(crc(b[0..25]), 4) && b[29..33] == LittleEndian(0x5448534E, 4)
  {
    hide LittleEndian;
    var b := FooterBytes(f, crc);
    assert b[0..25] == FooterHead(f) && forall i, j :: 0 <= i <= j <= 25 ==> b[i..j] == FooterHead(f)[i..j];
  }

  /** A footer is accepted exactly if it is the encoding of what it is read as: its magic, its
      checksum and its version are right. */
  lemma {:induction false} FooterIff(data: Bytes, f: Footer, crc: Bytes -> Word32)
    ensures DecodeFooter(data, crc) == Ok(f) <==>
      FooterFits(f) && |data| >= 33 && data[|data| - 33..] == FooterBytes(f, crc)
  {
    if |data| >= 33 {
      hide DecodeFooter, FooterBytes, FooterFits;
      var o := |data| - 33;
      assert data == data[..o] + data[o..];
      if FooterFits(f) && data[o..] == FooterBytes(f, crc) { FooterRoundTrip(data[..o], f, crc); }
      if DecodeFooter(data, crc) == Ok(f) { FooterHeld(data, f, crc); }
    }
  }

  lemma {:induction false} FooterHeld(data: Bytes, f: Footer, crc: Bytes -> Word32)
    requires |data| >= 33 && DecodeFooter(data, crc) == Ok(f)
    ensures FooterFits(f) && data[|data| - 33..] == FooterBytes(f, crc)
  {
    hide LittleEndian, FieldAt, FooterHead;
    var o := |data| - 33;
    WidthLimits();
    HeadHeld(data, o, f);
    FieldIff(data, o + 25, crc(FooterHead(f)), 4);
    FieldIff(data, o + 29, MAGIC, 4);
    AtConcat(data, o + 25, LittleEndian(crc(FooterHead(f)), 4), LittleEndian(MAGIC, 4));
    AtConcat(data, o, FooterHead(f), LittleEndian(crc(FooterHead(f)), 4) + LittleEndian(MAGIC, 4));
  }

  lemma {:induction false} HeadHeld(data: Bytes, o: nat, f: Footer)
    requires o + 25 <= |data|
    requires f == Footer(FieldAt(data, o, 8), FieldAt(data, o + 8, 4), FieldAt(data, o + 12, 8),
                         FieldAt(data, o + 20, 4), data[o + 24])
    ensures At(data, o, FooterHead(f)) && f.bloomOffset < U64 && f.bloomLen < U32 && f.indexOffset < U64
    ensures f.indexLen < U32
  {
    hide LittleEndian, FieldAt;
    WidthLimits();
    FieldBound(data, o, 8);
    FieldBound(data, o + 8, 4);
    FieldBound(data, o + 12, 8);
    FieldBound(data, o + 20, 4);
    FieldHolds(data, o, 8);
    FieldHolds(data, o + 8, 4);
    FieldHolds(data, o + 12, 8);
    FieldHolds(data, o + 20, 4);
    assert At(data, o + 24, [f.version]);
    hide At;
    HeadParts(data, o, f);
  }

  lemma {:induction false} HeadParts(data: Bytes, o: nat, f: Footer)
    ensures At(data, o, FooterHead(f)) <==>
      && At(data, o, LittleEndian(f.bloomOffset, 8)) && At(data, o + 8, LittleEndian(f.bloomLen, 4))
      && At(data, o + 12, LittleEndian(f.indexOffset, 8)) && At(data, o + 20, LittleEndian(f.indexLen, 4))
      && At(data, o + 24, [f.version])
  {
    hide LittleEndian, At;
    var a, b, c, d, e := LittleEndian(f.bloomOffset, 8), LittleEndian(f.bloomLen, 4),
      LittleEndian(f.indexOffset, 8), LittleEndian(f.indexLen, 4), [f.version];
    AtConcat(data, o, a, b + (c + (d + e)));
    AtConcat(data, o + 8, b, c + (d + e));
    AtConcat(data, o + 12, c, d + e);
    AtConcat(data, o + 20, d, e);
  }

  // ----- index -----

  datatype Meta = Meta(offset: nat, size: nat, lastKey: Bytes)

  function MetaBytes(m: Meta): (r: Bytes)
    ensures |r| == 14 + |m.lastKey|
  {
    LittleEndian(|m.lastKey|, 2) + (m.lastKey + (LittleEndian(m.offset, 8) + LittleEndian(m.size, 4)))
  }

  function MetasBytes(ms: seq<Meta>): Bytes {
    if ms == [] then [] else MetaBytes(ms[0]) + MetasBytes(ms[1..])
  }

  function IndexBytes(firstKey: Bytes, ms: seq<Meta>): Bytes {
    LittleEndian(|firstKey|, 2) + (firstKey + MetasBytes(ms))
  }

  /** Blocks are not empty, do not overlap and have ascending last keys. */
  predicate MetaFollows(done: seq<Meta>, m: Meta) {
    && m.size > 0
    && (done != [] ==>
          var last := done[|done| - 1];
          (last.offset + last.size + 4) % U64 <= m.offset && Less(last.lastKey, m.lastKey))
  }

  /** The index entries from offset o on, behind those already parsed. */
  function ParseMetas(data: Bytes, o: nat, done: seq<Meta>): Result<seq<Meta>>
    requires o <= |data|
    decreases |data| - o
  {
    if o == |data| then Ok(done)
    else if o + 2 > |data| then Err(CorruptIndex)
    else
      var n, k := FieldAt(data, o, 2), o + 2;
      if k + n + 12 > |data| then Err(CorruptIndex)
      else
        var m := Meta(FieldAt(data, k + n, 8), FieldAt(data, k + n + 8, 4), data[k..k + n]);
        if !MetaFollows(done, m) then Err(CorruptIndex)
        else ParseMetas(data, k + n + 12, done + [m])
  }

  function ParseIndex(data: Bytes): Result<(Bytes, seq<Meta>)> {
    if |data| < 2 then Err(CorruptIndex)
    else
      var n := FieldAt(data, 0, 2);
      if 2 + n > |data| then Err(CorruptIndex)
      else
        var ms := ParseMetas(data, 2 + n, []);
        if ms.Err? then Err(ms.error) else Ok((data[2..2 + n], ms.value))
  }

  /** The index loop. */
  method DecodeIndex(data: Bytes) returns (r: Result<(Bytes, seq<Meta>)>)
    ensures r == ParseIndex(data)
  {
    hide FieldAt, Less;
    if |data| < 2 {
      return Err(CorruptIndex);
    }
    var n := FieldAt(data, 0, 2);
    if 2 + n > |data| {
      return Err(CorruptIndex);
    }
    var firstKey := data[2..2 + n];
    var offset := 2 + n;
    var metas: seq<Meta> := [];
    while offset < |data|
      invariant 2 + n <= offset <= |data|
      invariant ParseMetas(data, offset, metas) == ParseMetas(data, 2 + n, [])
      decreases |data| - offset
    {
      if offset + 2 > |data| {
        return Err(CorruptIndex);
      }
      var k := FieldAt(data, offset, 2);
      offset := offset + 2;
      if offset + k + 8 + 4 > |data| {
        return Err(CorruptIndex);
      }
      var lastKey := data[offset..offset + k];
      offset := offset + k;
      var blockOffset := FieldAt(data, offset, 8);
      var blockSize := FieldAt(data, offset + 8, 4);
      offset := offset + 12;
      if blockSize == 0 {
        return Err(CorruptIndex);
      }
      if |metas| > 0 {
        var last := metas[|metas| - 1];
        if blockOffset < (last.offset + last.size + 4) % U64 {
          return Err(CorruptIndex);
        }
        if !Less(last.lastKey, lastKey) {
          return Err(CorruptIndex);
        }
      }
      metas := metas + [Meta(blockOffset, blockSize, lastKey)];
    }
    r := Ok((firstKey, metas));
  }

  predicate MetaFits(m: Meta) {
    |m.lastKey| <= MAX_LEN && m.offset < U64 && m.size < U32
  }

  /** An index the builder may write. */
  predicate MetasOk(ms: seq<Meta>) {
    forall i :: 0 <= i < |ms| ==> MetaFits(ms[i]) && MetaFollows(ms[..i], ms[i])
  }

  lemma {:induction false} ParseOne(data: Bytes, o: nat, done: seq<Meta>, m: Meta)
    requires At(data, o, MetaBytes(m)) && MetaFits(m) && MetaFollows(done, m)
    ensures ParseMetas(data, o, done) == ParseMetas(data, o + |MetaBytes(m)|, done + [m])
  {
    hide LittleEndian, FieldAt, MetaFollows, Pow256;
    var k := m.lastKey;
    AtConcat(data, o, LittleEndian(|k|, 2), k + (LittleEndian(m.offset, 8) + LittleEndian(m.size, 4)));
    AtConcat(data, o + 2, k, LittleEndian(m.offset, 8) + LittleEndian(m.size, 4));
    AtConcat(data, o + 2 + |k|, LittleEndian(m.offset, 8), LittleEndian(m.size, 4));
    WidthLimits();
    FieldReads(data, o, |k|, 2);
    FieldReads(data, o + 2 + |k|, m.offset, 8);
    FieldReads(data, o + 2 + |k| + 8, m.size, 4);
  }

  lemma {:induction false} ParseRest(data: Bytes, o: nat, done: seq<Meta>, rest: seq<Meta>)
    requires At(data, o, MetasBytes(rest)) && o + |MetasBytes(rest)| == |data| && MetasOk(done + rest)
    ensures ParseMetas(data, o, done) == Ok(done + rest)
    decreases |rest|
  {
    hide MetaBytes, MetaFollows, MetaFits, At;
    if rest == [] {
      assert done + rest == done;
      assert ParseMetas(data, o, done) == Ok(done);
    } else {
      var m := rest[0];
      AtConcat(data, o, MetaBytes(m), MetasBytes(rest[1..]));
      assert (done + rest)[|done|] == m && (done + rest)[..|done|] == done;
      ParseOne(data, o, done, m);
      assert done + [m] + rest[1..] == done + rest;
      ParseRest(data, o + |MetaBytes(m)|, done + [m], rest[1..]);
    }
  }

  lemma {:induction false} IndexRoundTrip(firstKey: Bytes, ms: seq<Meta>)
    requires |firstKey| <= MAX_LEN && MetasOk(ms)
    ensures ParseIndex(IndexBytes(firstKey, ms)) == Ok((firstKey, ms))
  {
    hide LittleEndian, FieldAt, MetasOk, MetasBytes, ParseMetas;
    var data := IndexBytes(firstKey, ms);
    AtSelf(data);
    AtConcat(data, 0, LittleEndian(|firstKey|, 2), firstKey + MetasBytes(ms));
    AtConcat(data, 2, firstKey, MetasBytes(ms));
    WidthLimits();
    FieldReads(data, 0, |firstKey|, 2);
    assert [] + ms == ms;
    ParseRest(data, 2 + |firstKey|, [], ms);
  }

  /** Where each field of an index entry stands. */
  lemma {:induction false} MetaLayout(m: Meta)
    ensures var b, n := MetaBytes(m), |m.lastKey|;
      && |b| == 14 + n && b[0..2] == LittleEndian(n, 2) && b[2..2 + n] == m.lastKey
      && b[2 + n..10 + n] == LittleEndian(m.offset, 8) && b[10 + n..] == LittleEndian(m.size, 4)
  {
    hide LittleEndian;
  }

  /** An index is accepted exactly if it is the encoding of what it is read as, with last keys
      ascending and blocks that do not overlap. */
  lemma {:induction false} IndexIff(data: Bytes, firstKey: Bytes, ms: seq<Meta>)
    ensures ParseIndex(data) == Ok((firstKey, ms)) <==>
      |firstKey| < U16 && MetasOk(ms) && data == IndexBytes(firstKey, ms)
  {
    hide ParseIndex, MetasOk, IndexBytes;
    if |firstKey| < U16 && MetasOk(ms) && data == IndexBytes(firstKey, ms) { IndexRoundTrip(firstKey, ms); }
    if ParseIndex(data) == Ok((firstKey, ms)) { IndexHeld(data, firstKey, ms); }
  }

  lemma {:induction false} IndexHeld(data: Bytes, firstKey: Bytes, ms: seq<Meta>)
    requires ParseIndex(data) == Ok((firstKey, ms))
    ensures |firstKey| < U16 && MetasOk(ms) && data == IndexBytes(firstKey, ms)
  {
    hide LittleEndian, FieldAt, ParseMetas, MetasOk, MetasBytes;
    WidthLimits();
    var n := |firstKey|;
    FieldHolds(data, 0, 2);
    FieldBound(data, 0, 2);
    NoMetas();
    assert At(data, 2, firstKey);
    var rest := MetasHeld(data, 2 + n, [], ms);
    assert [] + rest == rest;
    AtConcat(data, 2, firstKey, MetasBytes(ms));
    AtConcat(data, 0, LittleEndian(n, 2), firstKey + MetasBytes(ms));
  }

  lemma {:induction false} NoMetas()
    ensures MetasOk([])
  {
  }

  /** What is read as metas is their encoding, up to the end. */
  lemma {:induction false} MetasHeld(data: Bytes, o: nat, done: seq<Meta>, ms: seq<Meta>) returns (rest: seq<Meta>)
    requires o <= |data| && MetasOk(done) && ParseMetas(data, o, done) == Ok(ms)
    ensures ms == done + rest && MetasOk(ms) && At(data, o, MetasBytes(rest)) && o + |MetasBytes(rest)| == |data|
    decreases |data| - o
  {
    hide *;
    if o == |data| {
      rest := [];
      AtEmpty(data, o);
      MetasNone(rest);
      ParsedNone(data, done);
      assert done + [] == done;
    } else {
      var m := OneHeld(data, o, done, ms);
      MetasMore(done, m);
      AtWithin(data, o, MetaBytes(m));
      var more := MetasHeld(data, o + |MetaBytes(m)|, done + [m], ms);
      rest := [m] + more;
      assert done + [m] + more == done + rest;
      MetasFirst(m, more);
      AtConcat(data, o, MetaBytes(m), MetasBytes(more));
    }
  }

  lemma {:induction false} ParsedNone(data: Bytes, done: seq<Meta>)
    ensures ParseMetas(data, |data|, done) == Ok(done)
  {
  }

  lemma {:induction false} MetasFirst(m: Meta, more: seq<Meta>)
    ensures MetasBytes([m] + more) == MetaBytes(m) + MetasBytes(more)
  {
    assert ([m] + more)[1..] == more;
  }

  lemma {:induction false} OneHeld(data: Bytes, o: nat, done: seq<Meta>, ms: seq<Meta>) returns (m: Meta)
    requires o < |data| && ParseMetas(data, o, done) == Ok(ms)
    ensures MetaFits(m) && MetaFollows(done, m) && At(data, o, MetaBytes(m))
    ensures ParseMetas(data, o + |MetaBytes(m)|, done + [m]) == Ok(ms)
  {
    hide MetaFollows, MetaFits, At, FieldAt;
    var n := FieldAt(data, o, 2);
    m := Meta(FieldAt(data, o + 2 + n, 8), FieldAt(data, o + 2 + n + 8, 4), data[o + 2..o + 2 + n]);
    MetaHeld(data, o, m);
  }

  lemma {:induction false} MetaHeld(data: Bytes, o: nat, m: Meta)
    requires o + 14 + |m.lastKey| <= |data|
    requires var k := o + 2 + |m.lastKey|;
      FieldAt(data, o, 2) == |m.lastKey| && m == Meta(FieldAt(data, k, 8), FieldAt(data, k + 8, 4), data[o + 2..k])
    ensures MetaFits(m) && At(data, o, MetaBytes(m))
  {
    hide LittleEndian, FieldAt;
    var k := o + 2 + |m.lastKey|;
    WidthLimits();
    FieldBound(data, o, 2);
    FieldBound(data, k, 8);
    FieldBound(data, k + 8, 4);
    FieldHolds(data, o, 2);
    FieldHolds(data, k, 8);
    FieldHolds(data, k + 8, 4);
    assert At(data, o + 2, m.lastKey);
    hide At;
    AtConcat(data, k, LittleEndian(m.offset, 8), LittleEndian(m.size, 4));
    AtConcat(data, o + 2, m.lastKey, LittleEndian(m.offset, 8) + LittleEndian(m.size, 4));
    AtConcat(data, o, LittleEndian(|m.lastKey|, 2), m.lastKey + (LittleEndian(m.offset, 8) + LittleEndian(m.size, 4)));
  }

  lemma {:induction false} MetasMore(done: seq<Meta>, m: Meta)
    requires MetasOk(done) && MetaFits(m) && MetaFollows(done, m)
    ensures MetasOk(done + [m])
  {
    hide MetaFits, MetaFollows;
    var next := done + [m];
    forall i | 0 <= i < |next| ensures MetaFits(next[i]) && MetaFollows(next[..i], next[i]) {
      assert next[..i] == done[..i];
    }
  }

  lemma {:induction false} MetasAppend(ms: seq<Meta>, m: Meta)
    ensures MetasBytes(ms + [m]) == MetasBytes(ms) + MetaBytes(m)
  {
    hide MetaBytes;
    if ms == [] {
      assert (ms + [m])[1..] == [];
    } else {
      assert (ms + [m])[1..] == ms[1..] + [m];
      MetasAppend(ms[1..], m);
    }
  }

  /** Keys too long for their length field are refused; otherwise the index is written. */
  method EncodeIndex(firstKey: Bytes, ms: seq<Meta>) returns (r: Result<Bytes>)
    ensures r.Ok? <==> |firstKey| <= MAX_LEN && forall i :: 0 <= i < |ms| ==> |ms[i].lastKey| <= MAX_LEN
    ensures r.Ok? ==> r.value == IndexBytes(firstKey, ms)
  {
    hide LittleEndian, MetasBytes;
    if |firstKey| > MAX_LEN {
      return Err(CorruptIndex);
    }
    for i := 0 to |ms|
      invariant forall j :: 0 <= j < i ==> |ms[j].lastKey| <= MAX_LEN
    {
      if |ms[i].lastKey| > MAX_LEN {
        return Err(CorruptIndex);
      }
    }
    var buf := LittleEndian(|firstKey|, 2) + firstKey;
    assert MetasBytes(ms[..0]) == [] by { MetasNone(ms[..0]); }
    for i := 0 to |ms|
      invariant buf == LittleEndian(|firstKey|, 2) + firstKey + MetasBytes(ms[..i])
    {
      MetasAppend(ms[..i], ms[i]);
      assert ms[..i + 1] == ms[..i] + [ms[i]];
      buf := buf + MetaBytes(ms[i]);
    }
    assert ms[..|ms|] == ms;
    r := Ok(buf);
  }

  lemma {:induction false} MetasNone(ms: seq<Meta>)
    requires ms == []
    ensures MetasBytes(ms) == []
  {
  }

  // ----- the file -----

  function StoredBlock(es: seq<Entry>, crc: Bytes -> Word32): (r: Bytes)
    ensures |r| == |BlockBytes(es)| + 4
  {
    BlockBytes(es) + LittleEndian(crc(BlockBytes(es)), 4)
  }

  function BlocksBytes(blocks: seq<seq<Entry>>, crc: Bytes -> Word32): Bytes {
    if blocks == [] then [] else BlocksBytes(blocks[..|blocks| - 1], crc) + StoredBlock(blocks[|blocks| - 1], crc)
  }

  function LastKeyOf(es: seq<Entry>): Bytes {
    if es == [] then [] else es[|es| - 1].key
  }

  function MetaOf(blocks: seq<seq<Entry>>, crc: Bytes -> Word32, i: nat): Meta
    requires i < |blocks|
  {
    Meta(|BlocksBytes(blocks[..i], crc)|, |BlockBytes(blocks[i])|, LastKeyOf(blocks[i]))
  }

  function Metas(blocks: seq<seq<Entry>>, crc: Bytes -> Word32): (ms: seq<Meta>)
    ensures |ms| == |blocks| && forall i :: 0 <= i < |ms| ==> ms[i] == MetaOf(blocks, crc, i)
  {
    seq(|blocks|, i requires 0 <= i < |blocks| => MetaOf(blocks, crc, i))
  }

  function FirstKeyOf(blocks: seq<seq<Entry>>): Bytes {
    if blocks == [] || blocks[0] == [] then [] else blocks[0][0].key
  }

  function FooterOf(blocks: seq<seq<Entry>>, bloom: Bytes, crc: Bytes -> Word32): Footer {
    var n := |BlocksBytes(blocks, crc)|;
    Footer(n, |bloom|, n + |bloom|, |IndexBytes(FirstKeyOf(blocks), Metas(blocks, crc))|, VERSION)
  }

  function FileBytes(blocks: seq<seq<Entry>>, bloom: Bytes, crc: Bytes -> Word32): Bytes {
    BlocksBytes(blocks, crc) + (bloom + (IndexBytes(FirstKeyOf(blocks), Metas(blocks, crc)) +
                                         FooterBytes(FooterOf(blocks, bloom, crc), crc)))
  }

  // ----- opening -----

  datatype Reader = Reader(data: Bytes, bloom: Bytes, firstKey: Bytes, metas: seq<Meta>)

  /** data[lo:hi] after the uint64 end check; an end that wrapped around makes the slice panic. */
  function Slice(data: Bytes, lo: nat, len: nat): Result<Bytes> {
    var hi := (lo + len) % U64;
    if hi > |data| then Err(PastEnd)
    else if lo > hi then Err(SliceOutOfRange)
    else Ok(data[lo..hi])
  }

  function OpenFromData(data: Bytes, crc: Bytes -> Word32): Result<Reader> {
    var f := DecodeFooter(data, crc);
    if f.Err? then Err(f.error)
    else
      var bloom := Slice(data, f.value.bloomOffset, f.value.bloomLen);
      if bloom.Err? && (bloom.error.PastEnd? || f.value.bloomLen > 0) then Err(bloom.error)
      else
        var indexBytes := Slice(data, f.value.indexOffset, f.value.indexLen);
        if indexBytes.Err? then Err(indexBytes.error)
        else
          var index := ParseIndex(indexBytes.value);
          if index.Err? then Err(index.error)
          else Ok(Reader(data, if f.value.bloomLen > 0 then bloom.value else [], index.value.0, index.value.1))
  }

  /** The block at index i, checked against its stored checksum. */
  function BlockAt(r: Reader, i: nat, crc: Bytes -> Word32): Result<Block> {
    if i >= |r.metas| then Err(PastEnd)
    else
      var lo, end := r.metas[i].offset, (r.metas[i].offset + r.metas[i].size) % U64;
      if (end + 4) % U64 > |r.data| then Err(CorruptBlock)
      else if lo > end || end + 4 > |r.data| then Err(SliceOutOfRange)
      else if FieldAt(r.data, end, 4) != crc(r.data[lo..end]) then Err(BadChecksum)
      else Decoded(r.data[lo..end])
  }

  method ReadBlock(r: Reader, i: nat, crc: Bytes -> Word32) returns (b: Result<Block>)
    ensures b == BlockAt(r, i, crc)
  {
    if i >= |r.metas| {
      return Err(PastEnd);
    }
    var m := r.metas[i];
    var end := (m.offset + m.size) % U64;
    if (end + 4) % U64 > |r.data| {
      return Err(CorruptBlock);
    }
    if m.offset > end || end + 4 > |r.data| {
      return Err(SliceOutOfRange);
    }
    if FieldAt(r.data, end, 4) != crc(r.data[m.offset..end]) {
      return Err(BadChecksum);
    }
    b := DecodeBlock(r.data[m.offset..end]);
  }

  // ----- a written file opens again -----

  /** Blocks and filter a file can hold: the widths of the format suffice. */
  predicate FileOk(blocks: seq<seq<Entry>>, bloom: Bytes, crc: Bytes -> Word32) {
    && blocks != [] && (forall b :: b in blocks ==> BlockOk(b)) && Sorted(Flatten(blocks))
    && |bloom| < U32 && |IndexBytes(FirstKeyOf(blocks), Metas(blocks, crc))| < U32
    && |FileBytes(blocks, bloom, crc)| < U64
  }

  function ReaderOf(blocks: seq<seq<Entry>>, bloom: Bytes, crc: Bytes -> Word32): Reader {
    Reader(FileBytes(blocks, bloom, crc), bloom, FirstKeyOf(blocks), Metas(blocks, crc))
  }

  lemma {:induction false} BlockSize(es: seq<Entry>)
    requires BlockOk(es)
    ensures 0 < |BlockBytes(es)| < U32
  {
    hide EntriesBytes, EntryBytes, TableBytes, LittleEndian;
    var n := |es| - 1;
    OffsetNext(es, n);
    assert es[..|es|] == es;
    assert EntryFits(es[n]) && OffsetOf(es, n) <= MAX_LEN;
  }

  lemma {:induction false} BlocksOffset(blocks: seq<seq<Entry>>, crc: Bytes -> Word32, i: nat)
    requires i < |blocks|
    ensures |BlocksBytes(blocks[..i + 1], crc)| == |BlocksBytes(blocks[..i], crc)| + |BlockBytes(blocks[i])| + 4
  {
    hide BlockBytes;
    assert blocks[..i + 1][..i] == blocks[..i];
  }

  lemma {:induction false} BlocksLast(blocks: seq<seq<Entry>>, crc: Bytes -> Word32)
    requires blocks != []
    ensures BlocksBytes(blocks, crc) ==
            BlocksBytes(blocks[..|blocks| - 1], crc) + StoredBlock(blocks[|blocks| - 1], crc)
  {
  }

  lemma {:induction false} BlockStands(blocks: seq<seq<Entry>>, crc: Bytes -> Word32, i: nat)
    requires i < |blocks|
    ensures At(BlocksBytes(blocks, crc), |BlocksBytes(blocks[..i], crc)|, StoredBlock(blocks[i], crc))
    decreases |blocks|
  {
    hide *;
    BlocksLast(blocks, crc);
    var n, all := |blocks| - 1, BlocksBytes(blocks, crc);
    var init := BlocksBytes(blocks[..n], crc);
    AtSelf(all);
    AtConcat(all, 0, init, StoredBlock(blocks[n], crc));
    if i < n {
      BlockStands(blocks[..n], crc, i);
      assert blocks[..n][..i] == blocks[..i];
      AtInner(all, 0, init, |BlocksBytes(blocks[..i], crc)|, StoredBlock(blocks[i], crc));
    }
  }

  /** Around block i the sorted contents split. */
  lemma {:induction false} FlattenAround(blocks: seq<seq<Entry>>, i: nat)
    requires i < |blocks|
    ensures Flatten(blocks) == Flatten(blocks[..i]) + (blocks[i] + Flatten(blocks[i + 1..]))
    ensures Flatten(blocks[i..]) == blocks[i] + Flatten(blocks[i + 1..])
  {
    assert blocks == blocks[..i] + blocks[i..];
    FlattenConcat(blocks[..i], blocks[i..]);
    assert blocks[i..][1..] == blocks[i + 1..];
  }

  lemma {:induction false} LastKeysAscend(blocks: seq<seq<Entry>>, i: nat, j: nat)
    requires i < j < |blocks| && Sorted(Flatten(blocks)) && forall b :: b in blocks ==> b != []
    ensures Less(LastKeyOf(blocks[i]), LastKeyOf(blocks[j]))
  {
    hide Sorted, Less, Flatten;
    var a, b := blocks[i], blocks[j];
    assert a in blocks && b in blocks;
    FlattenAround(blocks, i);
    SortedSplit(Flatten(blocks[..i]), a + Flatten(blocks[i + 1..]));
    SortedSplit(a, Flatten(blocks[i + 1..]));
    FlattenAround(blocks[i + 1..], j - i - 1);
    assert b == blocks[i + 1..][j - i - 1] && b[|b| - 1] in b;
    assert b[|b| - 1] in Flatten(blocks[i + 1..]) && a[|a| - 1] in a;
  }

  lemma {:induction false} OffsetsWithin(blocks: seq<seq<Entry>>, crc: Bytes -> Word32, i: nat)
    requires i <= |blocks|
    ensures |BlocksBytes(blocks[..i], crc)| <= |BlocksBytes(blocks, crc)|
    decreases |blocks| - i
  {
    hide BlocksBytes;
    if i < |blocks| {
      BlocksOffset(blocks, crc, i);
      OffsetsWithin(blocks, crc, i + 1);
    } else {
      assert blocks[..i] == blocks;
    }
  }

  /** The builder's index passes every check of the index decoder. */
  lemma {:induction false} MetasWritten(blocks: seq<seq<Entry>>, bloom: Bytes, crc: Bytes -> Word32)
    requires FileOk(blocks, bloom, crc)
    ensures MetasOk(Metas(blocks, crc))
  {
    hide BlockBytes, BlocksBytes, IndexBytes, FooterBytes, Sorted, Less, Flatten;
    var ms := Metas(blocks, crc);
    forall i | 0 <= i < |ms| ensures MetaFits(ms[i]) && MetaFollows(ms[..i], ms[i]) {
      var es := blocks[i];
      assert BlockOk(es) && EntryFits(es[|es| - 1]);
      BlockSize(es);
      OffsetsWithin(blocks, crc, i);
      if i > 0 {
        BlocksOffset(blocks, crc, i - 1);
        assert ms[i - 1] == ms[..i][i - 1];
        LastKeysAscend(blocks, i - 1, i);
        NoWrap(ms[i].offset);
      }
    }
  }

  lemma {:induction false} NoWrap(n: nat)
    requires n < U64
    ensures n % U64 == n
  {
  }

  lemma {:induction false} FileParts(blocks: seq<seq<Entry>>, bloom: Bytes, crc: Bytes -> Word32)
    ensures var file, n, index := FileBytes(blocks, bloom, crc), |BlocksBytes(blocks, crc)|,
                                  IndexBytes(FirstKeyOf(blocks), Metas(blocks, crc));
      && At(file, 0, BlocksBytes(blocks, crc)) && At(file, n, bloom) && At(file, n + |bloom|, index)
      && |file| == n + |bloom| + |index| + FOOTER
      && file == (BlocksBytes(blocks, crc) + (bloom + index)) + FooterBytes(FooterOf(blocks, bloom, crc), crc)
  {
    hide BlocksBytes, IndexBytes, FooterBytes;
    var file, x, index, foot := FileBytes(blocks, bloom, crc), BlocksBytes(blocks, crc),
      IndexBytes(FirstKeyOf(blocks), Metas(blocks, crc)), FooterBytes(FooterOf(blocks, bloom, crc), crc);
    AtSelf(file);
    AtConcat(file, 0, x, bloom + (index + foot));
    AtConcat(file, |x|, bloom, index + foot);
    AtConcat(file, |x| + |bloom|, index, foot);
  }

  lemma {:induction false} SliceReads(data: Bytes, lo: nat, piece: Bytes)
    requires At(data, lo, piece) && |data| < U64
    ensures Slice(data, lo, |piece|) == Ok(piece)
  {
    NoWrap(lo + |piece|);
  }

  /** Opening a written file finds its blocks, its filter and its first key. */
  lemma {:induction false} OpenRoundTrip(blocks: seq<seq<Entry>>, bloom: Bytes, crc: Bytes -> Word32)
    requires FileOk(blocks, bloom, crc)
    ensures OpenFromData(FileBytes(blocks, bloom, crc), crc) == Ok(ReaderOf(blocks, bloom, crc))
  {
    hide BlocksBytes, IndexBytes, FooterBytes, FileBytes, DecodeFooter, ParseIndex, BlockOk, At, Slice, Sorted;
    var file, f := FileBytes(blocks, bloom, crc), FooterOf(blocks, bloom, crc);
    var index := IndexBytes(FirstKeyOf(blocks), Metas(blocks, crc));
    FileParts(blocks, bloom, crc);
    FooterRoundTrip(BlocksBytes(blocks, crc) + (bloom + index), f, crc);
    SliceReads(file, f.bloomOffset, bloom);
    SliceReads(file, f.indexOffset, index);
    MetasWritten(blocks, bloom, crc);
    FirstKeyFits(blocks);
    IndexRoundTrip(FirstKeyOf(blocks), Metas(blocks, crc));
  }

  lemma {:induction false} FirstKeyFits(blocks: seq<seq<Entry>>)
    requires blocks != [] && forall b :: b in blocks ==> BlockOk(b)
    ensures |FirstKeyOf(blocks)| <= MAX_LEN
  {
    assert BlockOk(blocks[0]) && EntryFits(blocks[0][0]);
  }

  /** Every block of a written file reads back. */
  lemma {:induction false} BlockReadsBack(blocks: seq<seq<Entry>>, bloom: Bytes, crc: Bytes -> Word32, i: nat)
    requires FileOk(blocks, bloom, crc) && i < |blocks|
    ensures BlockAt(ReaderOf(blocks, bloom, crc), i, crc) == Ok(BlockOf(blocks[i]))
  {
    hide BlocksBytes, IndexBytes, FooterBytes, FileBytes, BlockBytes, FieldAt, Decoded, BlockOf, Sorted, Pow256,
      LittleEndian;
    var file, es := FileBytes(blocks, bloom, crc), blocks[i];
    var m, data := MetaOf(blocks, crc, i), BlockBytes(es);
    FileParts(blocks, bloom, crc);
    BlockStands(blocks, crc, i);
    AtInner(file, 0, BlocksBytes(blocks, crc), m.offset, StoredBlock(es, crc));
    AtConcat(file, m.offset, data, LittleEndian(crc(data), 4));
    WidthLimits();
    FieldReads(file, m.offset + |data|, crc(data), 4);
    NoWrap(m.offset + |data|);
    NoWrap(m.offset + |data| + 4);
    BlockDecodes(es);
  }

  /** A block is accepted exactly if it and its checksum lie in the file, the checksum is that of
      its bytes and they decode. */
  lemma {:induction false} BlockAtIff(r: Reader, i: nat, crc: Bytes -> Word32, b: Block)
    requires i < |r.metas| && MetaFits(r.metas[i]) && |r.data| < U64
    ensures BlockAt(r, i, crc) == Ok(b) <==>
      var lo, n := r.metas[i].offset, r.metas[i].size;
      && lo + n + 4 <= |r.data| && At(r.data, lo + n, LittleEndian(crc(r.data[lo..lo + n]), 4))
      && Decoded(r.data[lo..lo + n]) == Ok(b)
  {
    hide Decoded, FieldAt, LittleEndian, At;
    var lo, n := r.metas[i].offset, r.metas[i].size;
    WidthLimits();
    if lo + n + 4 <= |r.data| {
      NoWrap(lo + n);
      NoWrap(lo + n + 4);
      FieldIff(r.data, lo + n, crc(r.data[lo..lo + n]), 4);
    } else {
      PastWrap(lo, n, |r.data|);
    }
  }

  /** Past the end of the data, wrapped around or not. */
  lemma {:induction false} PastWrap(lo: nat, n: nat, size: nat)
    requires lo < U64 && n < U32 && size < U64 && lo + n + 4 > size
    ensures var end := (lo + n) % U64; (end + 4) % U64 > size || lo > end || end + 4 > size
  {
    if lo + n < U64 {
      NoWrap(lo + n);
    } else {
      ModUnique(lo + n, U64, 1, lo + n - U64);
    }
  }

  /** With a footer accepted, a file opens exactly if its filter and its index lie in it and the
      index is accepted. */
  lemma {:induction false} OpenIff(data: Bytes, crc: Bytes -> Word32, f: Footer, r: Reader)
    requires DecodeFooter(data, crc) == Ok(f) && |data| < U64
    ensures OpenFromData(data, crc) == Ok(r) <==>
      && r.data == data && f.bloomOffset + f.bloomLen <= |data| && f.indexOffset + f.indexLen <= |data|
      && r.bloom == data[f.bloomOffset..f.bloomOffset + f.bloomLen]
      && ParseIndex(data[f.indexOffset..f.indexOffset + f.indexLen]) == Ok((r.firstKey, r.metas))
  {
    hide DecodeFooter, ParseIndex, Slice;
    FooterIff(data, f, crc);
    SliceIff(data, f.bloomOffset, f.bloomLen);
    SliceIff(data, f.indexOffset, f.indexLen);
  }

  lemma {:induction false} SliceIff(data: Bytes, lo: nat, n: nat)
    requires lo < U64 && n < U32 && |data| < U64
    ensures lo + n <= |data| ==> Slice(data, lo, n) == Ok(data[lo..lo + n])
    ensures lo + n > |data| ==> Slice(data, lo, n).Err? && (n == 0 ==> Slice(data, lo, n).error == PastEnd)
  {
    if lo + n < U64 {
      NoWrap(lo + n);
    } else {
      ModUnique(lo + n, U64, 1, lo + n - U64);
    }
  }
}
