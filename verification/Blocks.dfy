/**
Data blocks of an SSTable (sstable/block.go): entries back to back, a table of their
offsets, and their number. A block is built entry by entry and searched by binary search.
*/
module Blocks {
  import opened Optional
  import opened Bytes
  import opened Fields
  import opened Keys
  import opened Versions

  /** Key and value lengths, entry counts and entry offsets are stored in two bytes. */
  const MAX_LEN: nat := 65535
  const HEADER: nat := 5

  datatype Error =
    | KeyTooLarge | ValueTooLarge | TooManyEntries | NotAscending | OffsetTooLarge
    | CorruptBlock | CorruptIndex | BadFooter | BadChecksum | PastEnd | EmptyTable | Finished | SliceOutOfRange

  datatype Result<+T> = Ok(value: T) | Err(error: Error)

  // ----- encoding -----

  function EntryBytes(e: Entry): (r: Bytes)
    ensures |r| == HEADER + |e.key| + |DataOf(e.value)|
  {
    LittleEndian(|e.key|, 2) + (LittleEndian(|DataOf(e.value)|, 2) + ([FlagOf(e.value)] + (e.key + DataOf(e.value))))
  }

  predicate EntryFits(e: Entry) {
    |e.key| <= MAX_LEN && |DataOf(e.value)| <= MAX_LEN
  }

  function EntriesBytes(es: seq<Entry>): Bytes {
    if es == [] then [] else EntriesBytes(es[..|es| - 1]) + EntryBytes(es[|es| - 1])
  }

  function OffsetOf(es: seq<Entry>, i: nat): nat
    requires i <= |es|
  {
    |EntriesBytes(es[..i])|
  }

  function Offsets(es: seq<Entry>): (r: seq<nat>)
    ensures |r| == |es| && forall i :: 0 <= i < |es| ==> r[i] == OffsetOf(es, i)
  {
    seq(|es|, i requires 0 <= i < |es| => OffsetOf(es, i))
  }

  function TableBytes(offsets: seq<nat>): (r: Bytes)
    ensures |r| == 2 * |offsets|
  {
    if offsets == [] then [] else TableBytes(offsets[..|offsets| - 1]) + LittleEndian(offsets[|offsets| - 1], 2)
  }

  function BlockBytes(es: seq<Entry>): Bytes {
    EntriesBytes(es) + (TableBytes(Offsets(es)) + LittleEndian(|es|, 2))
  }

  /** The entries a block can hold: everything stored in two bytes fits. */
  predicate BlockOk(es: seq<Entry>) {
    && 0 < |es| <= MAX_LEN
    && (forall i :: 0 <= i < |es| ==> EntryFits(es[i]))
    && (forall i :: 0 <= i < |es| ==> OffsetOf(es, i) <= MAX_LEN)
  }

  lemma {:induction false} OffsetNext(es: seq<Entry>, i: nat)
    requires i < |es|
    ensures OffsetOf(es, i + 1) == OffsetOf(es, i) + |EntryBytes(es[i])|
  {
    assert es[..i + 1][..i] == es[..i];
  }

  lemma {:induction false} OffsetsAscend(es: seq<Entry>, i: nat, j: nat)
    requires i <= j <= |es|
    ensures OffsetOf(es, i) <= OffsetOf(es, j) <= |EntriesBytes(es)|
    ensures i < j ==> OffsetOf(es, i) + |EntryBytes(es[i])| <= OffsetOf(es, j)
    decreases |es| - i
  {
    assert es[..|es|] == es;
    if i < j {
      OffsetNext(es, i);
      OffsetsAscend(es, i + 1, j);
    } else if j < |es| {
      OffsetNext(es, j);
      OffsetsAscend(es, j + 1, |es|);
    }
  }

  lemma {:induction false} EntryStands(es: seq<Entry>, i: nat)
    requires i < |es|
    ensures At(EntriesBytes(es), OffsetOf(es, i), EntryBytes(es[i]))
    decreases |es|
  {
    hide EntryBytes;
    var n := |es| - 1;
    var init := EntriesBytes(es[..n]);
    if i == n {
      AtWhole(init, EntryBytes(es[n]), []);
      assert init + EntryBytes(es[n]) + [] == EntriesBytes(es);
    } else {
      EntryStands(es[..n], i);
      assert es[..n][..i] == es[..i];
      AtWhole([], init, EntryBytes(es[n]));
      assert [] + init + EntryBytes(es[n]) == EntriesBytes(es);
      AtInner(EntriesBytes(es), 0, init, OffsetOf(es, i), EntryBytes(es[i]));
    }
  }

  lemma {:induction false} OffsetStands(offsets: seq<nat>, i: nat)
    requires i < |offsets|
    ensures At(TableBytes(offsets), 2 * i, LittleEndian(offsets[i], 2))
    decreases |offsets|
  {
    hide LittleEndian;
    var n := |offsets| - 1;
    var init, last := TableBytes(offsets[..n]), LittleEndian(offsets[n], 2);
    if i == n {
      AtWhole(init, last, []);
      assert init + last + [] == TableBytes(offsets);
    } else {
      OffsetStands(offsets[..n], i);
      AtWhole([], init, last);
      assert [] + init + last == TableBytes(offsets);
      AtInner(TableBytes(offsets), 0, init, 2 * i, LittleEndian(offsets[i], 2));
    }
  }

  // ----- decoding -----

  datatype Block = Block(data: Bytes, offsets: seq<nat>, end: nat)

  function CountIn(data: Bytes): nat
    requires |data| >= 2
  {
    FieldAt(data, |data| - 2, 2)
  }

  /** Where the entries end and the offset table starts. */
  function EndOf(data: Bytes): int
    requires |data| >= 2
  {
    |data| - (2 * CountIn(data) + 2)
  }

  predicate TableFits(data: Bytes) {
    |data| >= 2 && CountIn(data) != 0 && EndOf(data) >= 0
  }

  function OffsetIn(data: Bytes, i: nat): nat
    requires TableFits(data) && i < CountIn(data)
  {
    FieldAt(data, EndOf(data) + 2 * i, 2)
  }

  function OffsetsIn(data: Bytes): (r: seq<nat>)
    requires TableFits(data)
    ensures |r| == CountIn(data) && forall i :: 0 <= i < |r| ==> r[i] == OffsetIn(data, i)
  {
    seq(CountIn(data), i requires 0 <= i < CountIn(data) => OffsetIn(data, i))
  }

  /** The offset at i lies among the entries and behind the one before it. */
  predicate OffsetOk(data: Bytes, i: nat)
    requires TableFits(data) && i < CountIn(data)
  {
    OffsetIn(data, i) < EndOf(data) && (i > 0 ==> OffsetIn(data, i - 1) < OffsetIn(data, i))
  }

  predicate TableOk(data: Bytes) {
    TableFits(data) && forall i :: 0 <= i < CountIn(data) ==> OffsetOk(data, i)
  }

  function Decoded(data: Bytes): Result<Block> {
    if TableOk(data) then Ok(Block(data, OffsetsIn(data), EndOf(data))) else Err(CorruptBlock)
  }

  /** Exactly the data with a well-formed offset table is accepted. */
  method DecodeBlock(data: Bytes) returns (r: Result<Block>)
    ensures r == Decoded(data)
  {
    hide FieldAt;
    if |data| < 2 {
      return Err(CorruptBlock);
    }
    var n := CountIn(data);
    if n == 0 {
      return Err(CorruptBlock);
    }
    if |data| < 2 * n + 2 {
      return Err(CorruptBlock);
    }
    var end := |data| - (2 * n + 2);
    assert TableFits(data) && n == CountIn(data) && end == EndOf(data);
    var ok, offsets := ReadOffsets(data, n, end);
    r := if ok then Ok(Block(data, offsets, end)) else Err(CorruptBlock);
  }

  /** Read the offset table, giving up at the first offset out of place. */
  method ReadOffsets(data: Bytes, n: nat, end: nat) returns (ok: bool, offsets: seq<nat>)
    requires TableFits(data) && n == CountIn(data) && end == EndOf(data)
    ensures ok <==> TableOk(data)
    ensures ok ==> offsets == OffsetsIn(data)
  {
    assert |data| == end + 2 * n + 2;
    hide FieldAt, CountIn, EndOf, OffsetsIn;
    offsets := [];
    var i := 0;
    while i < n
      invariant 0 <= i <= n && |offsets| == i
      invariant forall j :: 0 <= j < i ==> offsets[j] == OffsetIn(data, j)
      invariant forall j :: 0 <= j < i ==> OffsetOk(data, j)
    {
      var offset := FieldAt(data, end + 2 * i, 2);
      assert offset == OffsetIn(data, i);
      if offset >= end || (i > 0 && offset <= offsets[i - 1]) {
        assert !OffsetOk(data, i);
        return false, offsets;
      }
      offsets := offsets + [offset];
      i := i + 1;
    }
    assert offsets == OffsetsIn(data);
    ok := true;
  }

  /** The entry at a table index; every length is checked against the entry region. */
  function ReadEntry(b: Block, idx: nat): Result<Entry> {
    if idx >= |b.offsets| || b.end > |b.data| then Err(CorruptBlock)
    else
      var o := b.offsets[idx];
      if o + HEADER > b.end then Err(CorruptBlock)
      else
        var keyLen, valueLen := FieldAt(b.data, o, 2), FieldAt(b.data, o + 2, 2);
        var flag, k := b.data[o + 4], o + HEADER;
        if k + keyLen > b.end then Err(CorruptBlock)
        else
          var key, v := b.data[k..k + keyLen], k + keyLen;
          if flag == 0 then
            if v + valueLen > b.end then Err(CorruptBlock) else Ok(Entry(key, Data(b.data[v..v + valueLen])))
          else if flag == 1 then
            if valueLen != 0 then Err(CorruptBlock) else Ok(Entry(key, Tombstone))
          else Err(CorruptBlock)
  }

  predicate Readable(b: Block) {
    forall i :: 0 <= i < |b.offsets| ==> ReadEntry(b, i).Ok?
  }

  function Contents(b: Block): (es: seq<Entry>)
    requires Readable(b)
    ensures |es| == |b.offsets| && forall i :: 0 <= i < |es| ==> ReadEntry(b, i) == Ok(es[i])
  {
    seq(|b.offsets|, i requires 0 <= i < |b.offsets| => ReadEntry(b, i).value)
  }

  // ----- round trip -----

  /** An encoded entry is the encodings of its parts, one after the other. */
  lemma {:induction false} EntryParts(buf: Bytes, o: nat, e: Entry)
    ensures var d := DataOf(e.value);
      At(buf, o, EntryBytes(e)) <==>
        && At(buf, o, LittleEndian(|e.key|, 2)) && At(buf, o + 2, LittleEndian(|d|, 2))
        && At(buf, o + 4, [FlagOf(e.value)]) && At(buf, o + 5, e.key) && At(buf, o + 5 + |e.key|, d)
  {
    hide LittleEndian, At;
    var d := DataOf(e.value);
    AtConcat(buf, o, LittleEndian(|e.key|, 2), LittleEndian(|d|, 2) + ([FlagOf(e.value)] + (e.key + d)));
    AtConcat(buf, o + 2, LittleEndian(|d|, 2), [FlagOf(e.value)] + (e.key + d));
    AtConcat(buf, o + 4, [FlagOf(e.value)], e.key + d);
    AtConcat(buf, o + 5, e.key, d);
  }

  /** An encoded entry decodes, wherever it stands. */
  lemma {:induction false} EntryReads(b: Block, idx: nat, e: Entry)
    requires idx < |b.offsets| && EntryFits(e) && At(b.data, b.offsets[idx], EntryBytes(e))
    requires b.offsets[idx] + |EntryBytes(e)| <= b.end <= |b.data|
    ensures ReadEntry(b, idx) == Ok(e)
  {
    hide LittleEndian, FieldAt, EntryBytes;
    var o, d := b.offsets[idx], DataOf(e.value);
    EntryParts(b.data, o, e);
    WidthLimits();
    FieldReads(b.data, o, |e.key|, 2);
    FieldReads(b.data, o + 2, |d|, 2);
    assert b.data[o + 4] == b.data[o + 4..o + 5][0];
  }

  /** ... and only an encoded entry does. */
  lemma {:induction false} ReadsEncoded(b: Block, idx: nat)
    requires ReadEntry(b, idx).Ok?
    ensures var e := ReadEntry(b, idx).value;
      && idx < |b.offsets| && EntryFits(e) && At(b.data, b.offsets[idx], EntryBytes(e))
      && b.offsets[idx] + |EntryBytes(e)| <= b.end <= |b.data|
  {
    hide LittleEndian, FieldAt, EntryBytes;
    var o, e := b.offsets[idx], ReadEntry(b, idx).value;
    WidthLimits();
    FieldBound(b.data, o, 2);
    FieldBound(b.data, o + 2, 2);
    FieldHolds(b.data, o, 2);
    FieldHolds(b.data, o + 2, 2);
    EntryParts(b.data, o, e);
  }

  /** Reading accepts exactly the encodings that end before the offset table. */
  lemma {:induction false} ReadEntryIff(b: Block, idx: nat, e: Entry)
    ensures ReadEntry(b, idx) == Ok(e) <==>
      && idx < |b.offsets| && EntryFits(e) && At(b.data, b.offsets[idx], EntryBytes(e))
      && b.offsets[idx] + |EntryBytes(e)| <= b.end <= |b.data|
  {
    hide EntryBytes, ReadEntry, EntryFits;
    if ReadEntry(b, idx) == Ok(e) {
      ReadsEncoded(b, idx);
    } else if idx < |b.offsets| && EntryFits(e) && At(b.data, b.offsets[idx], EntryBytes(e))
      && b.offsets[idx] + |EntryBytes(e)| <= b.end <= |b.data|
    {
      EntryReads(b, idx, e);
    }
  }

  /** Lengths of key and value in two bytes each, a tombstone flag, then key and value. */
  lemma {:induction false} EntryLayout(e: Entry)
    ensures var b, n := EntryBytes(e), |e.key|;
      && |b| == 5 + n + (if e.value.Data? then |e.value.bytes| else 0)
      && b[0..2] == LittleEndian(n, 2) && b[2..4] == LittleEndian(|b| - 5 - n, 2)
      && b[4] == (if e.value.Data? then 0 else 1) && b[5..5 + n] == e.key
      && (e.value.Data? ==> b[5 + n..] == e.value.bytes)
  {
    hide LittleEndian;
  }

  /** An entry fits exactly if both lengths survive in two bytes. */
  lemma {:induction false} EntryFitsIff(e: Entry)
    ensures EntryFits(e) <==>
      FieldAt(EntryBytes(e), 0, 2) == |e.key| && FieldAt(EntryBytes(e), 2, 2) == |DataOf(e.value)|
  {
    hide LittleEndian, FieldAt, EntryBytes;
    EntryLayout(e);
    WidthLimits();
    FieldReads(EntryBytes(e), 0, |e.key|, 2);
    FieldReads(EntryBytes(e), 2, |DataOf(e.value)|, 2);
  }

  /** Decoding accepts exactly the data that ends in a table of ascending offsets, not empty, all
      before the table, and their number. */
  lemma {:induction false} DecodedIff(data: Bytes, b: Block)
    ensures Decoded(data) == Ok(b) <==>
      && b.data == data && 0 < |b.offsets| < U16
      && (forall i :: 0 <= i < |b.offsets| ==> b.offsets[i] < b.end && b.offsets[i] < U16)
      && (forall i :: 0 < i < |b.offsets| ==> b.offsets[i - 1] < b.offsets[i])
      && b.end <= |data| && data[b.end..] == TableBytes(b.offsets) + LittleEndian(|b.offsets|, 2)
  {
    hide TableBytes, LittleEndian, FieldAt;
    if Decoded(data) == Ok(b) {
      TableThere(data);
      forall i | 0 <= i < |b.offsets|
        ensures b.offsets[i] < b.end && b.offsets[i] < U16 && (i > 0 ==> b.offsets[i - 1] < b.offsets[i])
      {
        assert OffsetOk(data, i);
      }
    } else if
      && b.end <= |data| && data[b.end..] == TableBytes(b.offsets) + LittleEndian(|b.offsets|, 2)
      && |b.offsets| < U16 && forall i :: 0 <= i < |b.offsets| ==> b.offsets[i] < U16
    {
      TableReads(data, b);
    }
  }

  /** What is read as the table is one. */
  lemma {:induction false} TableThere(data: Bytes)
    requires TableFits(data)
    ensures data[EndOf(data)..] == TableBytes(OffsetsIn(data)) + LittleEndian(CountIn(data), 2) && CountIn(data) < U16
    ensures forall i :: 0 <= i < CountIn(data) ==> OffsetIn(data, i) < U16
  {
    hide LittleEndian, FieldAt, TableBytes;
    WidthLimits();
    FieldHolds(data, |data| - 2, 2);
    FieldBound(data, |data| - 2, 2);
    TableHolds(data, EndOf(data), OffsetsIn(data));
    assert data[EndOf(data)..] == data[EndOf(data)..|data| - 2] + data[|data| - 2..];
    forall i | 0 <= i < CountIn(data) ensures OffsetIn(data, i) < U16 { FieldBound(data, EndOf(data) + 2 * i, 2); }
  }

  lemma {:induction false} TableHolds(data: Bytes, o: nat, offsets: seq<nat>)
    requires o + 2 * |offsets| <= |data|
    requires forall i :: 0 <= i < |offsets| ==> offsets[i] == FieldAt(data, o + 2 * i, 2)
    ensures At(data, o, TableBytes(offsets))
  {
    hide LittleEndian, FieldAt, At;
    if offsets == [] {
      AtEmpty(data, o);
    } else {
      var n := |offsets| - 1;
      var before := offsets[..n];
      TableHolds(data, o, before);
      FieldHolds(data, o + 2 * n, 2);
      AtConcat(data, o, TableBytes(before), LittleEndian(offsets[n], 2));
    }
  }

  /** A table is read as the offsets it holds. */
  lemma {:induction false} TableReads(data: Bytes, b: Block)
    requires b.end <= |data| && data[b.end..] == TableBytes(b.offsets) + LittleEndian(|b.offsets|, 2)
    requires |b.offsets| < U16 && forall i :: 0 <= i < |b.offsets| ==> b.offsets[i] < U16
    ensures |data| >= 2 && CountIn(data) == |b.offsets| && EndOf(data) == b.end
    ensures b.offsets != [] ==> TableFits(data) && OffsetsIn(data) == b.offsets
  {
    hide LittleEndian, FieldAt, TableBytes;
    WidthLimits();
    var n, tail := |b.offsets|, LittleEndian(|b.offsets|, 2);
    assert At(data, b.end, TableBytes(b.offsets) + tail);
    AtConcat(data, b.end, TableBytes(b.offsets), tail);
    FieldReads(data, b.end + 2 * n, n, 2);
    forall i | 0 <= i < n ensures FieldAt(data, b.end + 2 * i, 2) == b.offsets[i] {
      OffsetStands(b.offsets, i);
      AtInner(data, b.end, TableBytes(b.offsets), 2 * i, LittleEndian(b.offsets[i], 2));
      FieldReads(data, b.end + 2 * i, b.offsets[i], 2);
    }
  }

  /** The block of a list of entries, as decoding its bytes gives it. */
  function BlockOf(es: seq<Entry>): Block {
    Block(BlockBytes(es), Offsets(es), |EntriesBytes(es)|)
  }

  lemma {:induction false} BlockParts(es: seq<Entry>)
    ensures At(BlockBytes(es), 0, EntriesBytes(es))
    ensures At(BlockBytes(es), |EntriesBytes(es)|, TableBytes(Offsets(es)))
    ensures At(BlockBytes(es), |EntriesBytes(es)| + 2 * |es|, LittleEndian(|es|, 2))
    ensures |BlockBytes(es)| == |EntriesBytes(es)| + 2 * |es| + 2
  {
    hide LittleEndian, TableBytes, EntriesBytes;
    var x, y, z := EntriesBytes(es), TableBytes(Offsets(es)), LittleEndian(|es|, 2);
    assert At(BlockBytes(es), 0, x + (y + z));
    AtConcat(BlockBytes(es), 0, x, y + z);
    AtConcat(BlockBytes(es), |x|, y, z);
  }

  /** Decoding what was built finds the same offset table ... */
  lemma {:induction false} BlockDecodes(es: seq<Entry>)
    requires BlockOk(es)
    ensures Decoded(BlockBytes(es)) == Ok(BlockOf(es))
  {
    hide LittleEndian, TableBytes, EntriesBytes, BlockBytes, FieldAt, At;
    var data := BlockBytes(es);
    BlockParts(es);
    WidthLimits();
    FieldReads(data, |data| - 2, |es|, 2);
    assert CountIn(data) == |es| && EndOf(data) == |EntriesBytes(es)|;
    forall i | 0 <= i < |es| ensures OffsetIn(data, i) == OffsetOf(es, i) {
      OffsetStands(Offsets(es), i);
      AtInner(data, EndOf(data), TableBytes(Offsets(es)), 2 * i, LittleEndian(OffsetOf(es, i), 2));
      FieldReads(data, EndOf(data) + 2 * i, OffsetOf(es, i), 2);
    }
    forall i | 0 <= i < |es| ensures OffsetOk(data, i) {
      OffsetsAscend(es, i, |es|);
      assert es[..|es|] == es;
      if i > 0 { OffsetsAscend(es, i - 1, i); }
    }
    assert OffsetsIn(data) == Offsets(es);
  }

  /** ... and the same entries. */
  lemma {:induction false} BlockRoundTrip(es: seq<Entry>)
    requires BlockOk(es)
    ensures Readable(BlockOf(es)) && Contents(BlockOf(es)) == es
  {
    hide EntryBytes, EntriesBytes, BlockBytes, ReadEntry, At;
    var b := BlockOf(es);
    BlockParts(es);
    forall i | 0 <= i < |es| ensures ReadEntry(b, i) == Ok(es[i]) {
      EntryStands(es, i);
      AtInner(b.data, 0, EntriesBytes(es), OffsetOf(es, i), EntryBytes(es[i]));
      OffsetsAscend(es, i, |es|);
      assert es[..|es|] == es;
      EntryReads(b, i, es[i]);
    }
  }

  // ----- searching -----

  /** Binary search for the first entry at or above the target. */
  method SeekBlock(b: Block, target: Bytes) returns (r: Result<nat>)
    ensures Readable(b) ==> r.Ok?
    ensures Readable(b) && Ordered(Contents(b)) ==> r == Ok(LowerBound(Contents(b), target))
  {
    hide ReadEntry, Less, LowerBound;
    var low, high := 0, |b.offsets|;
    while low < high
      invariant 0 <= low <= high <= |b.offsets|
      invariant Readable(b) && Ordered(Contents(b)) ==> low <= LowerBound(Contents(b), target) <= high
    {
      var mid := low + (high - low) / 2;
      var e := ReadEntry(b, mid);
      if e.Err? {
        return Err(e.error);
      }
      if Readable(b) && Ordered(Contents(b)) { BelowBound(Contents(b), target, mid); }
      if Less(e.value.key, target) {
        low := mid + 1;
      } else {
        high := mid;
      }
    }
    r := Ok(low);
  }

  /** The newest version in the block visible at maxSeq. */
  method GetAt(b: Block, userKey: Bytes, maxSeq: SeqNo, ghost keys: iset<Bytes>) returns (r: Result<Option<Value>>)
    ensures Readable(b) ==> r.Ok?
    ensures Readable(b) && Ordered(Contents(b)) && InSpace(Contents(b), keys) && SeparableSpace(keys) ==>
      && r == Ok(Found(FirstVisible(Contents(b), userKey, maxSeq)))
      && Answers(Elements(Contents(b)), userKey, maxSeq, r.value)
  {
    hide ReadEntry, LowerBound, Ordered, InSpace, UserKey, SeqNum, FirstVisible, MakeSearchKey, Answers, Elements;
    var seek := SeekBlock(b, MakeSearchKey(userKey));
    if seek.Err? {
      return Err(seek.error);
    }
    ghost var good := Readable(b) && Ordered(Contents(b)) && InSpace(Contents(b), keys) && SeparableSpace(keys);
    if good {
      SeekAndWalk(Contents(b), keys, userKey, maxSeq);
      OrderedReads(Contents(b), keys, userKey, maxSeq);
    }
    var i := seek.value;
    while i < |b.offsets|
      invariant 0 <= i && (good ==> i <= |b.offsets|)
      invariant good ==>
        WalkVersions(Contents(b), i, userKey, maxSeq) == FirstVisible(Contents(b), userKey, maxSeq)
      decreases |b.offsets| - i
    {
      var e := ReadEntry(b, i);
      if e.Err? {
        return Err(e.error);
      }
      if UserKey(e.value.key) != userKey {
        break;
      }
      if SeqNum(e.value.key) <= maxSeq {
        return Ok(Some(e.value.value));
      }
      i := i + 1;
    }
    r := Ok(None);
  }

  // ----- building -----

  /** Added; Full: start a new block; or refused. */
  datatype AddResult = Added | Full | Refused(error: Error)

  predicate Follows(lastKey: Bytes, e: Entry) {
    lastKey == [] || Less(lastKey, e.key)
  }

  lemma {:induction false} EntriesAppend(es: seq<Entry>, e: Entry)
    ensures EntriesBytes(es + [e]) == EntriesBytes(es) + EntryBytes(e)
    ensures Offsets(es + [e]) == Offsets(es) + [|EntriesBytes(es)|]
    ensures BlockOk(es + [e]) <==>
      (es == [] || BlockOk(es)) && |es| < MAX_LEN && EntryFits(e) && |EntriesBytes(es)| <= MAX_LEN
  {
    hide EntryBytes, EntriesBytes;
    var es' := es + [e];
    assert EntriesBytes(es') == EntriesBytes(es) + EntryBytes(e) by { AppendBytes(es, e); }
    assert es'[..|es|] == es;
    assert forall i :: 0 <= i < |es| ==> es'[..i] == es[..i];
    assert forall i :: 0 <= i < |es| ==> es'[i] == es[i] && OffsetOf(es', i) == OffsetOf(es, i);
    assert es'[|es|] == e && OffsetOf(es', |es|) == |EntriesBytes(es)|;
  }

  lemma {:induction false} AppendBytes(es: seq<Entry>, e: Entry)
    ensures EntriesBytes(es + [e]) == EntriesBytes(es) + EntryBytes(e)
  {
    assert (es + [e])[..|es|] == es;
  }

  /** Every entry takes its header, its offset and the count. */
  lemma {:induction false} BlockSizeBound(es: seq<Entry>)
    ensures |EntriesBytes(es)| >= HEADER * |es|
    ensures es == [] ==> EntriesBytes(es) == []
  {
    if es != [] { BlockSizeBound(es[..|es| - 1]); }
  }

  class BlockBuilder {
    const size: int                    // target block size
    var data: Bytes
    var offsets: seq<nat>
    var lastKey: Bytes
    ghost var entries: seq<Entry>

    ghost predicate Valid()
      reads this
    {
      && data == EntriesBytes(entries) && offsets == Offsets(entries)
      && lastKey == (if entries == [] then [] else entries[|entries| - 1].key)
      && (entries == [] || BlockOk(entries))
      && (|entries| > 1 ==> |BlockBytes(entries)| <= size)
    }

    constructor (size: int)
      ensures Valid() && entries == [] && this.size == size
    {
      this.size, data, offsets, lastKey, entries := size, [], [], [], [];
    }

    /** A refusal names what does not fit. A block that is not the first entry's alone never
        outgrows its target, so with a target the offsets can express nothing but the entry
        itself is ever refused. */
    method Add(e: Entry) returns (r: AddResult)
      requires Valid()
      modifies this
      ensures Valid() && entries == old(entries) + (if r.Added? then [e] else [])
      ensures r.Refused? ==> !EntryFits(e) || !Follows(old(lastKey), e) || size > MAX_LEN
      ensures !EntryFits(e) || !Follows(old(lastKey), e) ==> r.Refused?
      ensures r.Full? ==> old(entries) != [] && |BlockBytes(old(entries) + [e])| > size
      ensures r.Added? ==> old(entries) == [] || |BlockBytes(entries)| <= size
    {
      hide EntryBytes, EntriesBytes, TableBytes, LittleEndian, BlockOk, OffsetOf, Less;
      if |e.key| > MAX_LEN {
        return Refused(KeyTooLarge);
      }
      if e.value.Data? && |e.value.bytes| > MAX_LEN {
        return Refused(ValueTooLarge);
      }
      EntriesAppend(entries, e);
      BlockSizeBound(entries);
      if |offsets| >= MAX_LEN {
        return Refused(TooManyEntries);
      }
      if lastKey != [] && !Less(lastKey, e.key) {
        return Refused(NotAscending);
      }
      var entrySize := HEADER + |e.key| + |DataOf(e.value)|;
      var newTotal := |data| + entrySize + 2 * (|offsets| + 1) + 2;
      assert newTotal == |BlockBytes(entries + [e])|;
      if |offsets| > 0 && newTotal > size {
        return Full;
      }
      if |data| > MAX_LEN {
        return Refused(OffsetTooLarge);
      }
      offsets := offsets + [|data|];
      lastKey := e.key;
      data := data + EntryBytes(e);
      entries := entries + [e];
      r := Added;
    }

    /** Serialization. */
    method Build() returns (buf: Bytes)
      requires Valid()
      ensures buf == BlockBytes(entries)
    {
      hide EntriesBytes, LittleEndian, BlockOk;
      buf := data;
      var i := 0;
      while i < |offsets|
        invariant 0 <= i <= |offsets|
        invariant buf == data + TableBytes(offsets[..i])
      {
        assert offsets[..i + 1][..i] == offsets[..i];
        buf := buf + LittleEndian(offsets[i], 2);
        i := i + 1;
      }
      assert offsets[..|offsets|] == offsets;
      buf := buf + LittleEndian(|offsets|, 2);
    }

    method Reset()
      modifies this
      ensures Valid() && entries == []
    {
      data, offsets, lastKey, entries := [], [], [], [];
    }
  }
}
