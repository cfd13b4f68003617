/**
Building an SSTable and reading it (sstable/builder.go, sstable/reader.go). The result: a
lookup in the bytes written for a sorted list of entries answers as the list itself does,
also for a user key whose versions spill over several blocks.
*/
module SSTable {
  import opened Optional
  import opened Bytes
  import opened Keys
  import opened Versions
  import opened Blocks
  import opened Iterators
  import opened Tables
  import opened Bloom
  import opened TableFile

  // ----- reading -----

  /** No key of the entries is missing from the filter. */
  ghost predicate Sound(bloom: Bytes, es: seq<Entry>, hash: Bytes -> Word32) {
    forall e :: e in es ==> MayContain(bloom, hash(UserKeyOf(e)))
  }

  /** The reader was opened on a file holding these blocks. */
  ghost predicate Holds(r: Reader, blocks: seq<seq<Entry>>, crc: Bytes -> Word32, hash: Bytes -> Word32) {
    && r == ReaderOf(blocks, r.bloom, crc) && FileOk(blocks, r.bloom, crc)
    && Sound(r.bloom, Flatten(blocks), hash)
  }

  predicate LastKeysSorted(ms: seq<Meta>) {
    forall i, j :: 0 <= i < j < |ms| ==> Less(ms[i].lastKey, ms[j].lastKey)
  }

  /** The first block whose last key is at or above the key, or -1. */
  method FindBlock(r: Reader, key: Bytes) returns (idx: int)
    ensures -1 <= idx < |r.metas|
    ensures LastKeysSorted(r.metas) ==>
      && (idx >= 0 ==> LessEq(key, r.metas[idx].lastKey))
      && (forall i :: 0 <= i < (if idx < 0 then |r.metas| else idx) ==> Less(r.metas[i].lastKey, key))
  {
    hide Less;
    var low, high := 0, |r.metas| - 1;
    while low <= high
      invariant 0 <= low <= high + 1 <= |r.metas|
      invariant LastKeysSorted(r.metas) ==>
        && (forall i :: 0 <= i < low ==> Less(r.metas[i].lastKey, key))
        && (forall i :: high < i < |r.metas| ==> LessEq(key, r.metas[i].lastKey))
      decreases high - low
    {
      var mid := low + (high - low) / 2;
      if LastKeysSorted(r.metas) { SplitAt(r.metas, key, mid); }
      if Less(r.metas[mid].lastKey, key) {
        low := mid + 1;
      } else {
        high := mid - 1;
      }
    }
    if low >= |r.metas| {
      return -1;
    }
    return low;
  }

  lemma {:induction false} SplitAt(ms: seq<Meta>, key: Bytes, mid: nat)
    requires LastKeysSorted(ms) && mid < |ms|
    ensures Less(ms[mid].lastKey, key) ==> forall i :: 0 <= i <= mid ==> Less(ms[i].lastKey, key)
    ensures !Less(ms[mid].lastKey, key) ==> forall i :: mid <= i < |ms| ==> LessEq(key, ms[i].lastKey)
  {
    hide Less;
    if Less(ms[mid].lastKey, key) {
      forall i | 0 <= i <= mid ensures Less(ms[i].lastKey, key) {
        if i < mid { LessTransitive(ms[i].lastKey, ms[mid].lastKey, key); }
      }
    } else {
      forall i | mid <= i < |ms| ensures LessEq(key, ms[i].lastKey) {
        if i > mid { LessEqLess(key, ms[mid].lastKey, ms[i].lastKey); LessAsymmetric(key, ms[i].lastKey); }
      }
    }
  }

  function LastEntry(b: Block): Result<Entry> {
    if b.offsets == [] then Err(CorruptBlock) else ReadEntry(b, |b.offsets| - 1)
  }

  lemma {:induction false} NothingFiltered(bloom: Bytes, es: seq<Entry>, hash: Bytes -> Word32, userKey: Bytes,
                                           maxSeq: nat)
    requires Sound(bloom, es, hash) && !MayContain(bloom, hash(userKey))
    ensures FirstVisible(es, userKey, maxSeq) == None
  {
    hide FirstVisible, MayContain, UserKey, SeqNum;
    var r := FirstVisible(es, userKey, maxSeq);
    assert forall e :: e in es && UserKeyOf(e) == userKey ==> MayContain(bloom, hash(userKey));
  }

  lemma {:induction false} BlocksAscend(blocks: seq<seq<Entry>>, bloom: Bytes, crc: Bytes -> Word32)
    requires FileOk(blocks, bloom, crc)
    ensures LastKeysSorted(Metas(blocks, crc))
  {
    hide Less, Sorted, Flatten, FileBytes, IndexBytes, BlockBytes, BlocksBytes;
    var ms := Metas(blocks, crc);
    assert forall b :: b in blocks ==> BlockOk(b) && b != [];
    forall i, j | 0 <= i < j < |ms| ensures Less(ms[i].lastKey, ms[j].lastKey) {
      LastKeysAscend(blocks, i, j);
    }
  }

  /** A block decodes to its entries, which are in order. */
  lemma {:induction false} BlockAnswers(blocks: seq<seq<Entry>>, bloom: Bytes, crc: Bytes -> Word32,
                                        keys: iset<Bytes>, i: nat)
    requires FileOk(blocks, bloom, crc) && InSpace(Flatten(blocks), keys) && i < |blocks|
    ensures var es := blocks[i];
      && es != [] && Sorted(es) && Ordered(es) && InSpace(es, keys)
      && Readable(BlockOf(es)) && Contents(BlockOf(es)) == es && LastEntry(BlockOf(es)) == Ok(es[|es| - 1])
  {
    hide Sorted, Less, Ordered, Flatten, ReadEntry, FileBytes, IndexBytes, BlockBytes, UserKey, InSpace, BlockOk;
    var es, before, after := blocks[i], Flatten(blocks[..i]), Flatten(blocks[i + 1..]);
    assert es in blocks && BlockOk(es);
    NotEmpty(es);
    BlockRoundTrip(es);
    FlattenAround(blocks, i);
    SortedSplit(before, es + after);
    SortedSplit(es, after);
    SortedIsOrdered(es);
    InSpaceInner(before, es, after, keys);
  }

  lemma {:induction false} NotEmpty(es: seq<Entry>)
    requires BlockOk(es)
    ensures es != []
  {
  }

  lemma {:induction false} InSpaceInner(before: seq<Entry>, es: seq<Entry>, after: seq<Entry>, keys: iset<Bytes>)
    requires InSpace(before + (es + after), keys)
    ensures InSpace(es, keys)
  {
    hide UserKey;
    var all := before + (es + after);
    assert forall j :: 0 <= j < |es| ==> es[j] == all[|before| + j];
  }

  lemma {:induction false} KeysUpToLast(es: seq<Entry>, j: nat)
    requires Sorted(es) && j < |es|
    ensures es[j].key == LastKeyOf(es) || Less(es[j].key, LastKeyOf(es))
  {
    hide Less;
  }

  /** A block that ends below the search key holds no version of the user key. */
  lemma {:induction false} BlockBelow(es: seq<Entry>, keys: iset<Bytes>, userKey: Bytes, maxSeq: nat)
    requires es != [] && Sorted(es) && InSpace(es, keys) && Less(LastKeyOf(es), MakeSearchKey(userKey))
    ensures FirstVisible(es, userKey, maxSeq) == None
  {
    hide Less, Sorted, FirstVisible, UserKey, SeqNum, MakeSearchKey;
    var r := FirstVisible(es, userKey, maxSeq);
    if r.Some? {
      var j :| 0 <= j < |es| && es[j] == r.value;
      KeysUpToLast(es, j);
      if es[j].key != LastKeyOf(es) { LessTransitive(es[j].key, LastKeyOf(es), MakeSearchKey(userKey)); }
      NotBelowSearchKey(es[j], userKey);
    }
  }

  /** Skipping the blocks below the search key loses nothing. */
  lemma {:induction false} BlocksBelow(blocks: seq<seq<Entry>>, bloom: Bytes, crc: Bytes -> Word32, keys: iset<Bytes>,
                                       userKey: Bytes, maxSeq: nat, n: nat)
    requires FileOk(blocks, bloom, crc) && InSpace(Flatten(blocks), keys) && n <= |blocks|
    requires forall i :: 0 <= i < n ==> Less(LastKeyOf(blocks[i]), MakeSearchKey(userKey))
    ensures FirstVisible(Flatten(blocks), userKey, maxSeq) == FirstVisible(Flatten(blocks[n..]), userKey, maxSeq)
    ensures n == |blocks| ==> FirstVisible(Flatten(blocks), userKey, maxSeq) == None
  {
    hide Less, FirstVisible, Flatten, FileOk, InSpace, MakeSearchKey, LastKeyOf;
    if n > 0 {
      BlocksBelow(blocks, bloom, crc, keys, userKey, maxSeq, n - 1);
      SkipBlock(blocks, bloom, crc, keys, userKey, maxSeq, n - 1);
    } else {
      assert blocks[0..] == blocks;
    }
    if n == |blocks| { FlattenNone(blocks[n..], userKey, maxSeq); }
  }

  lemma {:induction false} SkipBlock(blocks: seq<seq<Entry>>, bloom: Bytes, crc: Bytes -> Word32, keys: iset<Bytes>,
                                     userKey: Bytes, maxSeq: nat, i: nat)
    requires FileOk(blocks, bloom, crc) && InSpace(Flatten(blocks), keys) && i < |blocks|
    requires Less(LastKeyOf(blocks[i]), MakeSearchKey(userKey))
    ensures FirstVisible(Flatten(blocks[i..]), userKey, maxSeq) ==
      FirstVisible(Flatten(blocks[i + 1..]), userKey, maxSeq)
  {
    hide Less, Sorted, FirstVisible, Flatten, FileOk, InSpace, MakeSearchKey, Ordered, Readable, Contents, LastKeyOf,
      BlockOf, LastEntry;
    BlockAnswers(blocks, bloom, crc, keys, i);
    BlockBelow(blocks[i], keys, userKey, maxSeq);
    FlattenAround(blocks, i);
    FirstVisibleConcat(blocks[i], Flatten(blocks[i + 1..]), userKey, maxSeq);
  }

  lemma {:induction false} FlattenNone(blocks: seq<seq<Entry>>, userKey: Bytes, maxSeq: nat)
    requires blocks == []
    ensures FirstVisible(Flatten(blocks), userKey, maxSeq) == None
  {
  }

  /** Past a block at or above the search key: its own answer decides unless it has none, and
      then only a user key that runs to its end can continue. */
  lemma {:induction false} NextBlock(blocks: seq<seq<Entry>>, bloom: Bytes, crc: Bytes -> Word32, keys: iset<Bytes>,
                                     userKey: Bytes, maxSeq: nat, i: nat)
    requires FileOk(blocks, bloom, crc) && InSpace(Flatten(blocks), keys) && SeparableSpace(keys) && i < |blocks|
    requires LessEq(MakeSearchKey(userKey), LastKeyOf(blocks[i]))
    ensures var here, rest := FirstVisible(blocks[i], userKey, maxSeq),
                              FirstVisible(Flatten(blocks[i + 1..]), userKey, maxSeq);
      && FirstVisible(Flatten(blocks[i..]), userKey, maxSeq) == (if here.Some? then here else rest)
      && (UserKey(LastKeyOf(blocks[i])) != userKey || i + 1 == |blocks| ==> rest == None)
      && (i + 1 < |blocks| ==> LessEq(MakeSearchKey(userKey), LastKeyOf(blocks[i + 1])))
  {
    hide Less, Sorted, FirstVisible, Flatten, FileOk, MakeSearchKey, Ordered, Readable, Contents, SeparableSpace,
      UserKey;
    var es, after := blocks[i], Flatten(blocks[i + 1..]);
    FlattenAround(blocks, i);
    FirstVisibleConcat(es, after, userKey, maxSeq);
    BlockAnswers(blocks, bloom, crc, keys, i);
    if i + 1 == |blocks| { FlattenNone(blocks[i + 1..], userKey, maxSeq); }
    if UserKey(LastKeyOf(es)) != userKey { RunEnds(blocks, bloom, crc, keys, userKey, maxSeq, i); }
    if i + 1 < |blocks| {
      BlocksAscend(blocks, bloom, crc);
      var ms := Metas(blocks, crc);
      assert Less(ms[i].lastKey, ms[i + 1].lastKey);
      LessEqLess(MakeSearchKey(userKey), LastKeyOf(es), LastKeyOf(blocks[i + 1]));
      LessAsymmetric(MakeSearchKey(userKey), LastKeyOf(blocks[i + 1]));
    }
  }

  lemma {:induction false} RunEnds(blocks: seq<seq<Entry>>, bloom: Bytes, crc: Bytes -> Word32, keys: iset<Bytes>,
                                   userKey: Bytes, maxSeq: nat, i: nat)
    requires FileOk(blocks, bloom, crc) && InSpace(Flatten(blocks), keys) && SeparableSpace(keys) && i < |blocks|
    requires LessEq(MakeSearchKey(userKey), LastKeyOf(blocks[i])) && UserKey(LastKeyOf(blocks[i])) != userKey
    ensures FirstVisible(Flatten(blocks[i + 1..]), userKey, maxSeq) == None
  {
    hide Less, FirstVisible, Flatten, MakeSearchKey, SeparableSpace, UserKey, SeqNum, FileOk, AllBefore, InSpace;
    var es, after := blocks[i], Flatten(blocks[i + 1..]);
    var r := FirstVisible(after, userKey, maxSeq);
    if r.Some? {
      AroundBlock(blocks, bloom, crc, keys, i);
      VisibleIn(after, userKey, maxSeq);
      var last := es[|es| - 1];
      BeforeAfter(es, after, last, r.value);
      InSpaceAt(es, keys, last);
      InSpaceAt(after, keys, r.value);
      LessAsymmetric(last.key, r.value.key);
      PastTheRun(last, r.value, keys, userKey);
    }
  }

  lemma {:induction false} VisibleIn(es: seq<Entry>, userKey: Bytes, maxSeq: nat)
    requires FirstVisible(es, userKey, maxSeq).Some?
    ensures var e := FirstVisible(es, userKey, maxSeq).value; e in es && Visible(e, userKey, maxSeq)
  {
    hide UserKey, SeqNum;
    var p := FirstVisibleIndex(es, userKey, maxSeq);
  }

  lemma {:induction false} BeforeAfter(a: seq<Entry>, b: seq<Entry>, x: Entry, y: Entry)
    requires AllBefore(a, b) && x in a && y in b
    ensures Less(x.key, y.key)
  {
    hide Less;
  }

  lemma {:induction false} InSpaceAt(es: seq<Entry>, keys: iset<Bytes>, e: Entry)
    requires InSpace(es, keys) && e in es
    ensures |e.key| >= SEQ_SIZE && UserKeyOf(e) in keys
  {
    hide UserKey;
  }

  lemma {:induction false} AroundBlock(blocks: seq<seq<Entry>>, bloom: Bytes, crc: Bytes -> Word32, keys: iset<Bytes>,
                                       i: nat)
    requires FileOk(blocks, bloom, crc) && InSpace(Flatten(blocks), keys) && i < |blocks|
    ensures var es, after := blocks[i], Flatten(blocks[i + 1..]);
      es != [] && InSpace(es, keys) && InSpace(after, keys) && AllBefore(es, after)
  {
    hide Less, Sorted, Flatten, FileBytes, IndexBytes, BlockOk, AllBefore, InSpace;
    var es, before, after := blocks[i], Flatten(blocks[..i]), Flatten(blocks[i + 1..]);
    assert es in blocks && BlockOk(es);
    NotEmpty(es);
    FlattenAround(blocks, i);
    SortedSplit(before, es + after);
    SortedSplit(es, after);
    InSpaceInner(before, es, after, keys);
    assert Flatten(blocks) == (before + es) + (after + []);
    assert after + [] == after;
    InSpaceInner(before + es, after, [], keys);
  }

  /** A table the lookup is promised to work on. */
  ghost predicate Intact(r: Reader, blocks: seq<seq<Entry>>, crc: Bytes -> Word32, hash: Bytes -> Word32,
                         keys: iset<Bytes>) {
    Holds(r, blocks, crc, hash) && InSpace(Flatten(blocks), keys) && SeparableSpace(keys)
  }

  /** What was searched before block i holds nothing, and block i is not below the search key. */
  ghost predicate Reached(blocks: seq<seq<Entry>>, userKey: Bytes, maxSeq: nat, i: int) {
    && 0 <= i <= |blocks|
    && FirstVisible(Flatten(blocks), userKey, maxSeq) == FirstVisible(Flatten(blocks[i..]), userKey, maxSeq)
    && (i == |blocks| ==> FirstVisible(Flatten(blocks), userKey, maxSeq) == None)
    && (i < |blocks| ==> LessEq(MakeSearchKey(userKey), LastKeyOf(blocks[i])))
  }

  lemma {:induction false} Start(r: Reader, blocks: seq<seq<Entry>>, crc: Bytes -> Word32, hash: Bytes -> Word32,
                                 keys: iset<Bytes>, userKey: Bytes, maxSeq: nat, i: nat)
    requires Intact(r, blocks, crc, hash, keys) && i <= |r.metas|
    requires forall j :: 0 <= j < i ==> Less(r.metas[j].lastKey, MakeSearchKey(userKey))
    requires i < |r.metas| ==> LessEq(MakeSearchKey(userKey), r.metas[i].lastKey)
    ensures Reached(blocks, userKey, maxSeq, i)
  {
    hide Less, FirstVisible, Flatten, FileOk, MakeSearchKey, InSpace, SeparableSpace;
    forall j | 0 <= j < i ensures Less(LastKeyOf(blocks[j]), MakeSearchKey(userKey)) {
      assert r.metas[j] == MetaOf(blocks, crc, j);
    }
    BlocksBelow(blocks, r.bloom, crc, keys, userKey, maxSeq, i);
  }

  lemma {:induction false} Step(r: Reader, blocks: seq<seq<Entry>>, crc: Bytes -> Word32, hash: Bytes -> Word32,
                                keys: iset<Bytes>, userKey: Bytes, maxSeq: nat, i: nat)
    requires Intact(r, blocks, crc, hash, keys) && i < |r.metas| && Reached(blocks, userKey, maxSeq, i)
    ensures var b, all := BlockAt(r, i, crc), FirstVisible(Flatten(blocks), userKey, maxSeq);
      && b.Ok? && Readable(b.value) && LastEntry(b.value).Ok?
      && Ordered(Contents(b.value)) && InSpace(Contents(b.value), keys) && SeparableSpace(keys)
      && var here := FirstVisible(Contents(b.value), userKey, maxSeq);
      && (here.Some? ==> all == here)
      && (here.None? && UserKey(LastEntry(b.value).value.key) != userKey ==> all == None)
      && (here.None? && UserKey(LastEntry(b.value).value.key) == userKey ==> Reached(blocks, userKey, maxSeq, i + 1))
  {
    hide Less, FirstVisible, Flatten, FileOk, MakeSearchKey, InSpace, SeparableSpace, BlockAt, UserKey, Sorted, Ordered,
      Contents, Readable, LastEntry;
    BlockReadsBack(blocks, r.bloom, crc, i);
    BlockAnswers(blocks, r.bloom, crc, keys, i);
    NextBlock(blocks, r.bloom, crc, keys, userKey, maxSeq, i);
  }

  lemma {:induction false} IntactShape(r: Reader, blocks: seq<seq<Entry>>, crc: Bytes -> Word32, hash: Bytes -> Word32,
                                       keys: iset<Bytes>)
    requires Intact(r, blocks, crc, hash, keys)
    ensures |r.metas| == |blocks| && LastKeysSorted(r.metas) && Sound(r.bloom, Flatten(blocks), hash)
  {
    hide FileOk, Flatten;
    BlocksAscend(blocks, r.bloom, crc);
  }

  /** One block: its answer, if it has one or no further block can. */
  method SearchBlock(r: Reader, i: nat, userKey: Bytes, maxSeq: SeqNo, crc: Bytes -> Word32,
                     ghost hash: Bytes -> Word32, ghost blocks: seq<seq<Entry>>, ghost keys: iset<Bytes>)
    returns (done: bool, v: Result<Option<Value>>)
    requires i < |r.metas|
    ensures Intact(r, blocks, crc, hash, keys) && Reached(blocks, userKey, maxSeq, i) ==>
      if done then v == Ok(Found(FirstVisible(Flatten(blocks), userKey, maxSeq)))
      else Reached(blocks, userKey, maxSeq, i + 1)
  {
    hide FirstVisible, UserKey, BlockAt, LastEntry, Flatten, InSpace, SeparableSpace, Contents, Readable, Ordered,
      Intact, Reached;
    if Intact(r, blocks, crc, hash, keys) && Reached(blocks, userKey, maxSeq, i) {
      Step(r, blocks, crc, hash, keys, userKey, maxSeq, i);
    }
    var block := ReadBlock(r, i, crc);
    if block.Err? {
      return true, Err(block.error);
    }
    var hit := Blocks.GetAt(block.value, userKey, maxSeq, keys);
    if hit.Err? {
      return true, Err(hit.error);
    }
    if hit.value.Some? {
      return true, hit;
    }
    var last := LastEntry(block.value);
    if last.Err? {
      return true, Err(last.error);
    }
    return UserKey(last.value.key) != userKey, Ok(None);
  }

  /** From a block on, as long as the user key runs on. */
  method SearchFrom(r: Reader, from: nat, userKey: Bytes, maxSeq: SeqNo, crc: Bytes -> Word32,
                    ghost hash: Bytes -> Word32, ghost blocks: seq<seq<Entry>>, ghost keys: iset<Bytes>)
    returns (v: Result<Option<Value>>)
    requires from <= |r.metas|
    ensures Intact(r, blocks, crc, hash, keys) && Reached(blocks, userKey, maxSeq, from) ==>
      v == Ok(Found(FirstVisible(Flatten(blocks), userKey, maxSeq)))
  {
    hide FirstVisible, Flatten, Intact, Reached;
    ghost var good := Intact(r, blocks, crc, hash, keys) && Reached(blocks, userKey, maxSeq, from);
    if good { IntactShape(r, blocks, crc, hash, keys); }
    var idx := from;
    while idx < |r.metas|
      invariant 0 <= idx <= |r.metas|
      invariant good ==> Reached(blocks, userKey, maxSeq, idx)
    {
      var done, hit := SearchBlock(r, idx, userKey, maxSeq, crc, hash, blocks, keys);
      if done {
        return hit;
      }
      idx := idx + 1;
    }
    if good { ReachedEnd(blocks, userKey, maxSeq); }
    v := Ok(None);
  }

  lemma {:induction false} ReachedEnd(blocks: seq<seq<Entry>>, userKey: Bytes, maxSeq: nat)
    requires Reached(blocks, userKey, maxSeq, |blocks|)
    ensures FirstVisible(Flatten(blocks), userKey, maxSeq) == None
  {
  }

  lemma {:induction false} IntactReads(r: Reader, blocks: seq<seq<Entry>>, crc: Bytes -> Word32, hash: Bytes -> Word32,
                                       keys: iset<Bytes>, userKey: Bytes, maxSeq: nat)
    requires Intact(r, blocks, crc, hash, keys)
    ensures Answers(Elements(Flatten(blocks)), userKey, maxSeq, Found(FirstVisible(Flatten(blocks), userKey, maxSeq)))
  {
    hide BlockOk, FileBytes, IndexBytes, Flatten, Less, Sound, InSpace, SeparableSpace, FirstVisible, Answers, Elements;
    SortedIsOrdered(Flatten(blocks));
    OrderedReads(Flatten(blocks), keys, userKey, maxSeq);
  }

  /** Whatever the user key and the snapshot, the file answers as its entries do. */
  method GetAt(r: Reader, userKey: Bytes, maxSeq: SeqNo, crc: Bytes -> Word32, hash: Bytes -> Word32,
               ghost blocks: seq<seq<Entry>>, ghost keys: iset<Bytes>) returns (v: Result<Option<Value>>)
    requires Representable(r.bloom)
    ensures Intact(r, blocks, crc, hash, keys) ==>
      && v == Ok(Found(FirstVisible(Flatten(blocks), userKey, maxSeq)))
      && Answers(Elements(Flatten(blocks)), userKey, maxSeq, v.value)
  {
    hide FirstVisible, Less, MayContain, Flatten, Intact, Reached, MakeSearchKey, Sound, Answers, Elements;
    ghost var good := Intact(r, blocks, crc, hash, keys);
    if good {
      IntactShape(r, blocks, crc, hash, keys);
      IntactReads(r, blocks, crc, hash, keys, userKey, maxSeq);
    }
    var maybe := BloomMayContain(r.bloom, hash(userKey));
    if !maybe {
      if good { NothingFiltered(r.bloom, Flatten(blocks), hash, userKey, maxSeq); }
      return Ok(None);
    }
    var idx := FindBlock(r, MakeSearchKey(userKey));
    if good { Start(r, blocks, crc, hash, keys, userKey, maxSeq, if idx < 0 then |r.metas| else idx); }
    if idx < 0 {
      if good { ReachedEnd(blocks, userKey, maxSeq); }
      return Ok(None);
    }
    v := SearchFrom(r, idx, userKey, maxSeq, crc, hash, blocks, keys);
  }

  // ----- building -----

  const DEFAULT_BLOCK_SIZE: int := 4096

  function TargetSize(blockSize: int): int {
    if blockSize <= 0 then DEFAULT_BLOCK_SIZE else blockSize
  }

  function HashesOf(es: seq<Entry>, hash: Bytes -> Word32): (hs: seq<Word32>)
    ensures |hs| == |es| && forall i :: 0 <= i < |es| ==> hs[i] == hash(UserKeyOf(es[i]))
  {
    if es == [] then [] else HashesOf(es[..|es| - 1], hash) + [hash(UserKeyOf(es[|es| - 1]))]
  }

  /** Appending a block at the end of the file. */
  lemma {:induction false} BlocksAppend(blocks: seq<seq<Entry>>, es: seq<Entry>, crc: Bytes -> Word32)
    ensures BlocksBytes(blocks + [es], crc) == BlocksBytes(blocks, crc) + StoredBlock(es, crc)
    ensures Metas(blocks + [es], crc) ==
            Metas(blocks, crc) + [Meta(|BlocksBytes(blocks, crc)|, |BlockBytes(es)|, LastKeyOf(es))]
    ensures Flatten(blocks + [es]) == Flatten(blocks) + es
  {
    hide BlocksBytes, BlockBytes, StoredBlock, Flatten;
    var all := blocks + [es];
    BlocksLast(all, crc);
    assert all[..|blocks|] == blocks;
    assert forall i :: 0 <= i < |blocks| ==> all[..i] == blocks[..i];
    FlattenConcat(blocks, [es]);
    FlattenSingle(es);
  }

  /** The order the builder checks: it takes an empty key for no key at all. */
  predicate Ascends(es: seq<Entry>) {
    forall i, j :: 0 <= i < j < |es| && es[i].key != [] ==> Less(es[i].key, es[j].key)
  }

  predicate Keyed(es: seq<Entry>) {
    forall i :: 0 <= i < |es| ==> es[i].key != []
  }

  lemma {:induction false} KeyedSorted(es: seq<Entry>)
    ensures Sorted(es) ==> Ascends(es)
    ensures Keyed(es) && Ascends(es) ==> Sorted(es)
  {
    hide Less;
  }

  lemma {:induction false} AscendsAppend(es: seq<Entry>, e: Entry)
    requires Ascends(es)
    ensures Ascends(es + [e]) <==> Follows(LastKeyOf(es), e)
  {
    hide Less;
    var all, n := es + [e], |es| - 1;
    if Follows(LastKeyOf(es), e) {
      forall i, j | 0 <= i < j < |all| && all[i].key != [] ensures Less(all[i].key, all[j].key) {
        if j == |es| && i < n {
          assert Less(es[i].key, es[n].key);
          NotBelowEmpty(es[i].key, es[n].key);
          LessTransitive(es[i].key, es[n].key, e.key);
        }
      }
    } else {
      assert all[n] == es[n] && all[n + 1] == e;
    }
  }

  lemma {:induction false} NotBelowEmpty(a: Bytes, b: Bytes)
    requires Less(a, b)
    ensures b != []
  {
  }

  /** Greedy packing into blocks: an entry that would outgrow the target starts the next one. */
  function Packed(es: seq<Entry>, size: int): (r: seq<seq<Entry>>)
    ensures es == [] <==> r == []
  {
    if es == [] then []
    else
      var n, p := |es| - 1, Packed(es[..|es| - 1], size);
      if p == [] then [[es[n]]]
      else
        var last := p[|p| - 1];
        if |BlockBytes(last + [es[n]])| > size then p + [[es[n]]] else p[..|p| - 1] + [last + [es[n]]]
  }

  /** One entry more, in the block still open or in a new one. */
  lemma {:induction false} PackedNext(es: seq<Entry>, e: Entry, size: int, blocks: seq<seq<Entry>>, open: seq<Entry>)
    requires Packed(es, size) == blocks + (if open == [] then [] else [open]) && (open == [] ==> blocks == [])
    ensures open == [] || |BlockBytes(open + [e])| <= size ==> Packed(es + [e], size) == blocks + [open + [e]]
    ensures open != [] && |BlockBytes(open + [e])| > size ==> Packed(es + [e], size) == blocks + [open] + [[e]]
  {
    hide BlockBytes;
    assert (es + [e])[..|es|] == es;
    if open == [] {
      assert open + [e] == [e] && blocks + [[e]] == [[e]];
    } else {
      assert (blocks + [open])[..|blocks|] == blocks;
    }
  }

  /** A block of more than one entry does not exceed the size. */
  predicate Within(b: seq<Entry>, size: int) {
    b != [] && (|b| > 1 ==> |BlockBytes(b)| <= size)
  }

  /** With the first entry of the next one a block would have exceeded the size. */
  predicate Full(b: seq<Entry>, next: seq<Entry>, size: int) {
    next != [] && |BlockBytes(b + [next[0]])| > size
  }

  /** Every block is within the size, and every one but the last is as full as it can be. */
  ghost predicate Greedy(p: seq<seq<Entry>>, size: int) {
    && (forall i :: 0 <= i < |p| ==> Within(p[i], size))
    && (forall i, j :: 0 <= i < j < |p| && j == i + 1 ==> Full(p[i], p[j], size))
  }

  lemma {:induction false} PackedGreedy(es: seq<Entry>, size: int)
    ensures Greedy(Packed(es, size), size)
  {
    hide BlockBytes, Within, Full;
    if es != [] {
      hide Greedy;
      var n := |es| - 1;
      var before, e := es[..n], es[n];
      PackedGreedy(before, size);
      var p := Packed(before, size);
      if p == [] { GreedyOne(e, size); } else { GreedyNext(p, e, size); }
    }
  }

  lemma {:induction false} GreedyOne(e: Entry, size: int)
    ensures Greedy([[e]], size)
  {
  }

  lemma {:induction false} GreedyNext(p: seq<seq<Entry>>, e: Entry, size: int)
    requires p != [] && Greedy(p, size)
    ensures var k := |p| - 1;
      Greedy(if |BlockBytes(p[k] + [e])| > size then p + [[e]] else p[..k] + [p[k] + [e]], size)
  {
    hide BlockBytes;
    var k := |p| - 1;
    if |BlockBytes(p[k] + [e])| <= size {
      assert Within(p[k], size);
      var r := p[..k] + [p[k] + [e]];
      forall i, j | 0 <= i < j < |r| && j == i + 1 ensures Full(r[i], r[j], size) {
        assert Full(p[i], p[j], size) && r[j][0] == p[j][0] && r[i] == p[i];
      }
    }
  }

  lemma {:induction false} PackedFlat(es: seq<Entry>, size: int)
    ensures Flatten(Packed(es, size)) == es
  {
    hide BlockBytes, Flatten;
    if es == [] {
      NoBlocks([]);
    } else {
      var n := |es| - 1;
      var p, e := Packed(es[..n], size), es[n];
      PackedFlat(es[..n], size);
      assert es == es[..n] + [e];
      FlattenSingle([e]);
      if p == [] {
        NoBlocks(p);
      } else {
        var m := |p| - 1;
        var last := p[m];
        assert p == p[..m] + [last];
        FlattenConcat(p, [[e]]);
        FlattenConcat(p[..m], [last]);
        FlattenConcat(p[..m], [last + [e]]);
        FlattenSingle(last);
        FlattenSingle(last + [e]);
        assert Flatten(p[..m]) + (last + [e]) == Flatten(p[..m]) + last + [e];
      }
    }
  }

  lemma {:induction false} NoBlocks(blocks: seq<seq<Entry>>)
    requires blocks == []
    ensures Flatten(blocks) == []
  {
  }

  lemma {:induction false} NothingYet(size: int, crc: Bytes -> Word32, hash: Bytes -> Word32)
    ensures Flatten([]) == [] && BlocksBytes([], crc) == [] && Metas([], crc) == [] && HashesOf([], hash) == []
    ensures LastKeyOf([]) == [] && Ascends([]) && Packed([], size) == []
  {
  }

  class Builder {
    const crc: Bytes -> Word32
    const hash: Bytes -> Word32
    const block: BlockBuilder
    var metas: seq<Meta>
    var hashes: seq<Word32>
    var firstKey: Option<Bytes>
    var prevKey: Bytes
    var offset: nat
    var buf: Bytes
    var finished: bool
    ghost var blocks: seq<seq<Entry>>  // the blocks flushed so far

    ghost function Entries(): seq<Entry>
      reads this, block
    {
      Flatten(blocks) + block.entries
    }

    /** The bytes, offsets and index entries written so far. */
    ghost predicate Written()
      reads this, block
    {
      && block.Valid() && (forall b :: b in blocks ==> BlockOk(b))
      && buf == BlocksBytes(blocks, crc) && offset == |buf| && metas == Metas(blocks, crc)
    }

    /** What is remembered about the entries added so far. */
    ghost predicate Tracks(es: seq<Entry>)
      reads this
    {
      && hashes == HashesOf(es, hash) && prevKey == LastKeyOf(es)
      && firstKey == (if es == [] then None else Some(es[0].key))
    }

    ghost predicate Valid()
      reads this, block
    {
      && Written() && Tracks(Entries()) && Ascends(Entries()) && (blocks != [] ==> block.entries != [])
      && Packed(Entries(), block.size) == blocks + (if block.entries == [] then [] else [block.entries])
    }

    constructor (blockSize: int, crc: Bytes -> Word32, hash: Bytes -> Word32)
      ensures Valid() && Entries() == [] && !finished && fresh(block)
      ensures this.crc == crc && this.hash == hash
      ensures block.size == TargetSize(blockSize) == if blockSize > 0 then blockSize else 4096
    {
      this.crc, this.hash := crc, hash;
      block := new BlockBuilder(TargetSize(blockSize));
      metas, hashes, firstKey, prevKey, offset, buf, finished, blocks := [], [], None, [], 0, [], false, [];
      hide Flatten, BlocksBytes, Metas, HashesOf, LastKeyOf, Ascends, Packed, BlockOk;
      NothingYet(TargetSize(blockSize), crc, hash);
    }

    /** The current block goes to the file. The uint32 check on its size cannot fail. */
    method FlushBlock()
      requires Written()
      modifies this`metas, this`buf, this`offset, this`blocks, block
      ensures Written() && block.entries == []
      ensures blocks == old(blocks) + (if old(block.entries) == [] then [] else [old(block.entries)])
      ensures Entries() == old(Entries())
    {
      hide BlocksBytes, BlockBytes, Metas, Flatten, BlockOk;
      if block.offsets == [] {
        return;
      }
      ghost var es := block.entries;
      var data := block.Build();
      BlockSize(es);
      assert |data| < U32;
      BlocksAppend(blocks, es, crc);
      metas := metas + [Meta(offset, |data|, block.lastKey)];
      buf := buf + data;
      offset := offset + |data|;
      buf := buf + LittleEndian(crc(data), 4);
      offset := offset + 4;
      block.Reset();
      blocks := blocks + [es];
    }

    /** With a block size the format can express, exactly the entries that are too large or out
        of order are refused. */
    method Add(e: Entry) returns (r: Result<()>)
      requires Valid()
      modifies this, block
      ensures finished == old(finished)
      ensures r.Ok? ==> Valid() && Entries() == old(Entries()) + [e]
      ensures r.Ok? ==> EntryFits(e) && Follows(LastKeyOf(old(Entries())), e)
      ensures block.size <= MAX_LEN ==>
        (r.Ok? <==> !old(finished) && EntryFits(e) && Follows(LastKeyOf(old(Entries())), e))
    {
      hide Ascends, Less, Packed, EntryFits, Flatten, BlockBuilder.Valid, LastKeyOf, BlockOk, BlocksBytes, Metas,
        HashesOf;
      if finished {
        return Err(Finished);
      }
      if prevKey != [] && !Less(prevKey, e.key) {
        return Err(NotAscending);
      }
      ghost var es := Entries();
      AscendsAppend(es, e);
      BlockLast();
      Remember(e, es);
      r := Place(e);
    }

    /** The block in progress ends where the entries end. */
    lemma {:induction false} BlockLast()
      requires block.Valid()
      ensures block.lastKey == [] || block.lastKey == LastKeyOf(Entries())
    {
    }

    /** First key, last key and hash of an entry. */
    method Remember(e: Entry, ghost es: seq<Entry>)
      requires Tracks(es)
      modifies this`firstKey, this`hashes, this`prevKey
      ensures Tracks(es + [e])
    {
      hide UserKey, HashesOf;
      TrackNext(es, e);
      if firstKey.None? {
        firstKey := Some(e.key);
      }
      hashes := hashes + [hash(UserKey(e.key))];
      prevKey := e.key;
    }

    /** Into the current block or, when that is full, into the next. */
    method Place(e: Entry) returns (r: Result<()>)
      requires Written() && (blocks != [] ==> block.entries != [])
      requires Packed(Entries(), block.size) == blocks + (if block.entries == [] then [] else [block.entries])
      modifies this`metas, this`buf, this`offset, this`blocks, block
      ensures r.Ok? ==> Written() && Entries() == old(Entries()) + [e] && block.entries != []
      ensures r.Ok? ==> Packed(Entries(), block.size) == blocks + [block.entries]
      ensures !EntryFits(e) || !Follows(old(block.lastKey), e) ==> r.Err?
      ensures r.Err? ==> !EntryFits(e) || !Follows(old(block.lastKey), e) || block.size > MAX_LEN
    {
      hide BlocksBytes, BlockBytes, Metas, Flatten, BlockOk, Less, EntryFits, EntriesBytes, Offsets, Packed;
      ghost var es := Entries();
      PackedNext(es, e, block.size, blocks, block.entries);
      var added := block.Add(e);
      if added.Refused? {
        return Err(added.error);
      }
      if added.Full? {
        assert block.entries == old(block.entries) && Entries() == es;
        FlushBlock();
        assert Entries() == Flatten(blocks);
        added := block.Add(e);
        if added.Refused? {
          return Err(added.error);
        }
        assert block.entries == [e];
      }
      assert Entries() == es + [e];
      r := Ok(());
    }

    lemma {:induction false} TrackNext(es: seq<Entry>, e: Entry)
      requires Tracks(es)
      ensures HashesOf(es + [e], hash) == hashes + [hash(UserKey(e.key))]
      ensures LastKeyOf(es + [e]) == e.key
      ensures (es + [e])[0].key == if firstKey.None? then e.key else firstKey.value
    {
    }

    /** The finished file: all entries, block by block, under a filter that misses none. */
    method Finish() returns (r: Result<Bytes>, ghost bloom: Bytes)
      requires Valid() && BloomFits(|Entries()|)
      modifies this, block
      ensures finished
      ensures r.Ok? <==> !old(finished) && old(Entries()) != []
      ensures r.Ok? ==> r.value == FileBytes(blocks, bloom, crc) && Flatten(blocks) == old(Entries())
      ensures r.Ok? ==> blocks == Packed(old(Entries()), block.size)
      ensures r.Ok? ==> blocks != [] && (forall b :: b in blocks ==> BlockOk(b)) && Ascends(Flatten(blocks))
      ensures r.Ok? ==> Representable(bloom) && |bloom| == BytesFor(|old(Entries())|) + 1
      ensures r.Ok? ==> Sound(bloom, Flatten(blocks), hash)
    {
      hide BlocksBytes, BlockBytes, Flatten, BlockOk, Ascends, MayContain, IndexBytes, FooterBytes, HashesOf,
        BlockBuilder.Valid, Representable, Packed, BytesFor;
      bloom := [];
      if finished {
        return Err(Finished), bloom;
      }
      finished := true;
      if firstKey.None? {
        return Err(EmptyTable), bloom;
      }
      ghost var es := Entries();
      assert Tracks(es) && es != [];
      FlushBlock();
      assert Flatten(blocks) == Entries() == es;
      FlattenedKeys(blocks);
      var filter := BuildBloomFilter(hashes);
      bloom := filter;
      SoundFilter(filter, es, hash);
      var index := EncodeIndex(firstKey.value, metas);
      assert index.Ok?;
      var footer := Footer(offset, |filter|, offset + |filter|, |index.value|, VERSION);
      Assembled(buf, filter, index.value, FooterBytes(footer, crc));
      r := Ok(buf + filter + index.value + FooterBytes(footer, crc));
    }
  }

  lemma {:induction false} Assembled(a: Bytes, b: Bytes, c: Bytes, d: Bytes)
    ensures a + b + c + d == a + (b + (c + d))
  {
  }

  /** The keys the index stores are entry keys. */
  lemma {:induction false} FlattenedKeys(blocks: seq<seq<Entry>>)
    requires Flatten(blocks) != [] && forall b :: b in blocks ==> BlockOk(b)
    ensures blocks != [] && FirstKeyOf(blocks) == Flatten(blocks)[0].key && |FirstKeyOf(blocks)| <= MAX_LEN
    ensures forall b :: b in blocks ==> |LastKeyOf(b)| <= MAX_LEN
  {
    hide EntriesBytes;
    FirstKeyFits(blocks);
    assert blocks[0] in blocks && BlockOk(blocks[0]);
    forall b | b in blocks ensures |LastKeyOf(b)| <= MAX_LEN {
      assert BlockOk(b) && EntryFits(b[|b| - 1]);
    }
  }

  lemma {:induction false} SoundFilter(bloom: Bytes, es: seq<Entry>, hash: Bytes -> Word32)
    requires forall h :: h in HashesOf(es, hash) ==> MayContain(bloom, h)
    ensures Sound(bloom, es, hash)
  {
    hide MayContain, HashesOf;
    forall e | e in es ensures MayContain(bloom, hash(UserKeyOf(e))) {
      var i :| 0 <= i < |es| && es[i] == e;
      assert HashesOf(es, hash)[i] == hash(UserKeyOf(e));
    }
  }

  predicate AllFit(es: seq<Entry>) {
    forall i :: 0 <= i < |es| ==> EntryFits(es[i])
  }

  /** The lengths that the footer stores in four bytes: those of the filter and of the index. */
  predicate FooterRoom(es: seq<Entry>, blocks: seq<seq<Entry>>, crc: Bytes -> Word32) {
    BytesFor(|es|) + 1 < U32 && |IndexBytes(FirstKeyOf(blocks), Metas(blocks, crc))| < U32
  }

  /** A flush: every entry of the list goes into a new table, which is opened again. What is
      refused is exactly what is empty, too large or out of order; otherwise the table holds the
      list, as long as filter and index stay within their four-byte lengths. */
  method WriteTable(es: seq<Entry>, blockSize: int, crc: Bytes -> Word32, hash: Bytes -> Word32)
    returns (r: Result<Reader>)
    requires BloomFits(|es|)
    ensures r.Ok? ==> es != [] && Ascends(es) && AllFit(es)
    ensures var blocks := Packed(es, TargetSize(blockSize));
      FooterRoom(es, blocks, crc) && Sorted(es) ==>
        && (blockSize <= MAX_LEN && es != [] && AllFit(es) ==> r.Ok?)
        && (r.Ok? ==> Holds(r.value, blocks, crc, hash) && Flatten(blocks) == es && Representable(r.value.bloom))
  {
    hide Sorted, Less, Flatten, BlockOk, FileBytes, OpenFromData, Sound, Representable, Builder.Valid, Packed, AllFit,
      Ascends, FooterRoom;
    var b := new Builder(blockSize, crc, hash);
    KeyedSorted(es);
    var added := AddAll(b, es);
    if added.Err? {
      return Err(added.error);
    }
    var out, bloom := b.Finish();
    if out.Err? {
      return Err(out.error);
    }
    PackedFlat(es, b.block.size);
    if FooterRoom(es, b.blocks, crc) && Sorted(es) {
      RoomyFile(es, b.blocks, bloom, crc);
      OpenRoundTrip(b.blocks, bloom, crc);
    }
    r := OpenFromData(out.value, crc);
  }

  method AddAll(b: Builder, es: seq<Entry>) returns (r: Result<()>)
    requires b.Valid() && b.Entries() == [] && !b.finished
    modifies b, b.block
    ensures b.block.size <= MAX_LEN && Ascends(es) && AllFit(es) ==> r.Ok?
    ensures r.Ok? ==> b.Valid() && b.Entries() == es && !b.finished && Ascends(es) && AllFit(es)
  {
    hide Ascends, Less, Flatten, Builder.Valid, EntryFits;
    var i := 0;
    AscendsNone(es[..0]);
    while i < |es|
      invariant 0 <= i <= |es| && b.Valid() && !b.finished && b.Entries() == es[..i]
      invariant Ascends(es[..i]) && AllFit(es[..i])
    {
      assert es[..i + 1] == es[..i] + [es[i]];
      AscendsAppend(es[..i], es[i]);
      AscendsPrefix(es, i + 1);
      var added := b.Add(es[i]);
      if added.Err? {
        return Err(added.error);
      }
      i := i + 1;
    }
    assert es[..|es|] == es;
    r := Ok(());
  }

  lemma {:induction false} AscendsNone(es: seq<Entry>)
    requires es == []
    ensures Ascends(es)
  {
  }

  lemma {:induction false} AscendsPrefix(es: seq<Entry>, i: nat)
    requires i <= |es|
    ensures Ascends(es) ==> Ascends(es[..i])
  {
    hide Less;
  }

  /** The most an entry can take: header, key, value, offset, and the block's count and checksum. */
  const MAX_ENTRY: nat := HEADER + 2 * MAX_LEN + 8

  function Most(n: nat): nat {
    n * MAX_ENTRY
  }

  lemma {:induction false} EntriesBound(es: seq<Entry>)
    requires AllFit(es)
    ensures |EntriesBytes(es)| <= |es| * (HEADER + 2 * MAX_LEN)
  {
    if es != [] {
      hide EntriesBytes, EntryBytes;
      var n := |es| - 1;
      var before := es[..n];
      EntriesBound(before);
      assert es == before + [es[n]] && EntryFits(es[n]);
      AppendBytes(before, es[n]);
    }
  }

  lemma {:induction false} BlockBound(es: seq<Entry>, crc: Bytes -> Word32)
    requires BlockOk(es)
    ensures |StoredBlock(es, crc)| <= Most(|es|)
  {
    hide EntriesBytes, LittleEndian, TableBytes, OffsetOf;
    EntriesBound(es);
  }

  lemma {:induction false} BlocksBoundNext(blocks: seq<seq<Entry>>, es: seq<Entry>, crc: Bytes -> Word32)
    requires |BlocksBytes(blocks, crc)| <= Most(|Flatten(blocks)|) && BlockOk(es)
    ensures |BlocksBytes(blocks + [es], crc)| <= Most(|Flatten(blocks + [es])|)
  {
    hide BlockOk, StoredBlock, Flatten, BlocksBytes, Most, Metas;
    BlocksAppend(blocks, es, crc);
    BlockBound(es, crc);
    MostAdds(|Flatten(blocks)|, |es|);
  }

  lemma {:induction false} BlocksBound(blocks: seq<seq<Entry>>, crc: Bytes -> Word32)
    requires forall i :: 0 <= i < |blocks| ==> BlockOk(blocks[i])
    ensures |BlocksBytes(blocks, crc)| <= Most(|Flatten(blocks)|)
  {
    if blocks != [] {
      hide *;
      var n := |blocks| - 1;
      var before := blocks[..n];
      assert blocks == before + [blocks[n]];
      BlocksBound(before, crc);
      BlocksBoundNext(before, blocks[n], crc);
    }
  }

  lemma {:induction false} MostAdds(a: nat, b: nat)
    ensures Most(a + b) == Most(a) + Most(b)
  {
  }

  lemma {:induction false} RoomyFile(es: seq<Entry>, blocks: seq<seq<Entry>>, bloom: Bytes, crc: Bytes -> Word32)
    requires blocks != [] && (forall b :: b in blocks ==> BlockOk(b)) && Flatten(blocks) == es && Sorted(es)
    requires FooterRoom(es, blocks, crc) && |bloom| == BytesFor(|es|) + 1
    ensures FileOk(blocks, bloom, crc)
  {
    hide Sorted, Flatten, BlockOk, FileBytes, IndexBytes, BlocksBytes;
    FileParts(blocks, bloom, crc);
    assert forall i :: 0 <= i < |blocks| ==> blocks[i] in blocks;
    BlocksBound(blocks, crc);
    assert Most(|es|) <= U32 * MAX_ENTRY;
  }

  /** What the index takes if every block holds a single entry. */
  function KeyRoom(es: seq<Entry>): nat {
    if es == [] then 0 else KeyRoom(es[..|es| - 1]) + 14 + |es[|es| - 1].key|
  }

  /** A bound on the keys alone that leaves room: blocks are not empty, so the index is no larger. */
  lemma {:induction false} KeysLeaveRoom(es: seq<Entry>, size: int, crc: Bytes -> Word32)
    requires es != [] && 2 + |es[0].key| + KeyRoom(es) < U32
    ensures FooterRoom(es, Packed(es, size), crc)
  {
    hide Packed, IndexBytes, KeyRoom, Metas, Flatten;
    var blocks := Packed(es, size);
    PackedFlat(es, size);
    PackedBlocks(es, size);
    IndexBound(blocks, crc);
    ManyKeys(es);
    assert blocks[0] in blocks;
    FirstOfFlat(blocks);
  }

  lemma {:induction false} ManyKeys(es: seq<Entry>)
    ensures KeyRoom(es) >= 14 * |es|
  {
    if es != [] { ManyKeys(es[..|es| - 1]); }
  }

  lemma {:induction false} PackedBlocks(es: seq<Entry>, size: int)
    ensures forall b :: b in Packed(es, size) ==> b != []
  {
    hide BlockBytes;
    if es != [] {
      var n := |es| - 1;
      var p := Packed(es[..n], size);
      PackedBlocks(es[..n], size);
      assert forall b :: b in Packed(es, size) ==> b in p || b == [es[n]] || (p != [] && b == p[|p| - 1] + [es[n]]);
    }
  }

  lemma {:induction false} FirstOfFlat(blocks: seq<seq<Entry>>)
    requires blocks != [] && blocks[0] != []
    ensures Flatten(blocks) != [] && FirstKeyOf(blocks) == Flatten(blocks)[0].key
  {
  }

  lemma {:induction false} IndexBound(blocks: seq<seq<Entry>>, crc: Bytes -> Word32)
    requires forall b :: b in blocks ==> b != []
    ensures |IndexBytes(FirstKeyOf(blocks), Metas(blocks, crc))| <= 2 + |FirstKeyOf(blocks)| + KeyRoom(Flatten(blocks))
  {
    hide Metas, MetasBytes, KeyRoom, Flatten, FirstKeyOf;
    MetasBound(blocks, crc);
  }

  lemma {:induction false} MetasBound(blocks: seq<seq<Entry>>, crc: Bytes -> Word32)
    requires forall b :: b in blocks ==> b != []
    ensures |MetasBytes(Metas(blocks, crc))| <= KeyRoom(Flatten(blocks))
  {
    hide MetaBytes, KeyRoom, Flatten, BlocksBytes, BlockBytes, MetasBytes;
    if blocks == [] {
      MetasNone(Metas(blocks, crc));
    } else {
      var n := |blocks| - 1;
      var last := blocks[n];
      assert blocks == blocks[..n] + [last] && last in blocks;
      assert forall b :: b in blocks[..n] ==> b in blocks;
      MetasBound(blocks[..n], crc);
      BlocksAppend(blocks[..n], last, crc);
      MetasAppend(Metas(blocks[..n], crc), Meta(|BlocksBytes(blocks[..n], crc)|, |BlockBytes(last)|, LastKeyOf(last)));
      KeyRoomConcat(Flatten(blocks[..n]), last);
      LastKeyRoom(last);
    }
  }

  lemma {:induction false} KeyRoomConcat(a: seq<Entry>, b: seq<Entry>)
    ensures KeyRoom(a + b) == KeyRoom(a) + KeyRoom(b)
    decreases |b|
  {
    if b == [] {
      assert a + b == a;
    } else {
      assert (a + b)[..|a + b| - 1] == a + b[..|b| - 1];
      KeyRoomConcat(a, b[..|b| - 1]);
    }
  }

  lemma {:induction false} LastKeyRoom(es: seq<Entry>)
    requires es != []
    ensures 14 + |LastKeyOf(es)| <= KeyRoom(es)
  {
  }
}
