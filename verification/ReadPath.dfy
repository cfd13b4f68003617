/**
The read path on the real data structures (db/read.go): skip lists for the memtables and opened
table files for L0 and the levels, asked one after the other until one has the key.
*/
module ReadPath {
  import opened Optional
  import opened Bytes
  import opened Keys
  import opened Versions
  import opened Bloom
  import opened Tables
  import opened Iterators
  import opened Compaction
  import opened Engine
  import opened SkipLists
  import S = SSTable
  import F = TableFile

  /** The memtables, each holding what the list says. */
  ghost predicate Hold(ms: seq<SkipList>, lists: seq<seq<Entry>>, keys: iset<Bytes>)
    reads *
  {
    |ms| == |lists| && forall i :: 0 <= i < |ms| ==>
      ms[i].Valid() && ms[i].Contents() == lists[i] && InSpace(lists[i], keys)
  }

  /** Newest first. */
  method SearchMemtables(ms: seq<SkipList>, key: Bytes, maxSeq: SeqNo, ghost lists: seq<seq<Entry>>,
                         ghost keys: iset<Bytes>)
    returns (r: Option<Value>)
    requires Hold(ms, lists, keys) && SeparableSpace(keys)
    ensures r == Found(FirstVisible(Flatten(lists), key, maxSeq))
    ensures VersionsDescend(Flatten(lists)) ==> Answers(Elements(Flatten(lists)), key, maxSeq, r)
  {
    hide FirstVisible, InSpace, SeparableSpace, Answers, Elements, VersionsDescend;
    DescendingAnswers(Flatten(lists), key, maxSeq);
    assert lists[0..] == lists;
    for i := 0 to |ms|
      invariant Found(FirstVisible(Flatten(lists[i..]), key, maxSeq)) ==
        Found(FirstVisible(Flatten(lists), key, maxSeq))
    {
      assert lists[i..][0] == lists[i] && lists[i..][1..] == lists[i + 1..];
      FirstVisibleConcat(lists[i], Flatten(lists[i + 1..]), key, maxSeq);
      r := ms[i].GetAt(key, maxSeq, keys);
      if r.Some? {
        return;
      }
    }
    assert lists[|ms|..] == [];
    NothingVisible(key, maxSeq);
    r := None;
  }

  lemma {:induction false} DescendingAnswers(es: seq<Entry>, key: Bytes, maxSeq: nat)
    ensures VersionsDescend(es) ==> Answers(Elements(es), key, maxSeq, Found(FirstVisible(es, key, maxSeq)))
  {
    hide VersionsDescend, FirstVisible, Answers, ReadsNewest;
    if VersionsDescend(es) {
      FirstVisibleIsNewest(es, key, maxSeq);
      FoundAnswers(Elements(es), key, maxSeq, FirstVisible(es, key, maxSeq));
    }
  }

  lemma {:induction false} NothingVisible(key: Bytes, maxSeq: nat)
    ensures FirstVisible(Flatten([]), key, maxSeq) == None
  {
  }

  /** A memtable of the engine is charged for a write what its skip list is. */
  lemma {:induction false} ChargedAlike(op: Op, s: SeqNo)
    ensures OpSize(op) == |VersionOf(op, s).key| + EncodedSize(VersionOf(op, s).value)
    ensures OpSize(op) == |op.key| + 8 + 1 + (if op.value.Data? then |op.value.bytes| else 0)
    ensures OpsSize([op]) == OpSize(op)
  {
    assert [op][1..] == [];
  }

  /** The opened files, each written from these blocks. */
  ghost predicate Intact(rs: seq<F.Reader>, blocks: seq<seq<seq<Entry>>>, lists: seq<seq<Entry>>, crc: Bytes -> Word32,
                         hash: Bytes -> Word32, keys: iset<Bytes>) {
    && |rs| == |blocks| == |lists|
    && forall i :: 0 <= i < |rs| ==>
         Representable(rs[i].bloom) && S.Intact(rs[i], blocks[i], crc, hash, keys) && Flatten(blocks[i]) == lists[i]
  }

  /** In search order; a file that cannot be read is skipped. */
  method SearchFiles(rs: seq<F.Reader>, key: Bytes, maxSeq: SeqNo, crc: Bytes -> Word32, hash: Bytes -> Word32,
                     ghost blocks: seq<seq<seq<Entry>>>, ghost lists: seq<seq<Entry>>, ghost keys: iset<Bytes>)
    returns (r: Option<Value>)
    requires Intact(rs, blocks, lists, crc, hash, keys)
    ensures r == Found(FirstVisible(Flatten(lists), key, maxSeq))
    ensures VersionsDescend(Flatten(lists)) ==> Answers(Elements(Flatten(lists)), key, maxSeq, r)
  {
    hide FirstVisible, Representable, S.Intact, Answers, Elements, VersionsDescend;
    DescendingAnswers(Flatten(lists), key, maxSeq);
    assert lists[0..] == lists;
    for i := 0 to |rs|
      invariant Found(FirstVisible(Flatten(lists[i..]), key, maxSeq)) ==
        Found(FirstVisible(Flatten(lists), key, maxSeq))
    {
      assert lists[i..][0] == lists[i] && lists[i..][1..] == lists[i + 1..];
      FirstVisibleConcat(lists[i], Flatten(lists[i + 1..]), key, maxSeq);
      var v := S.GetAt(rs[i], key, maxSeq, crc, hash, blocks[i], keys);
      if v.Ok? && v.value.Some? {
        return v.value;
      }
    }
    assert lists[|rs|..] == [];
    NothingVisible(key, maxSeq);
    r := None;
  }

  /** Skip lists and files that hold the memtables and tables of a state answer every read as the
      search order of the state does. */
  method GetAt(mems: seq<SkipList>, files: seq<F.Reader>, key: Bytes, maxSeq: SeqNo, crc: Bytes -> Word32,
               hash: Bytes -> Word32, ghost s: State, ghost blocks: seq<seq<seq<Entry>>>, ghost keys: iset<Bytes>)
    returns (r: Option<Value>)
    requires Hold(mems, MemLists([s.active] + s.immutables), keys) && SeparableSpace(keys)
    requires Intact(files, blocks, EntryLists(Searched(s)), crc, hash, keys)
    ensures r == Found(FirstVisible(Flat(s), key, maxSeq))
    ensures VersionsDescend(Flat(s)) ==> Answers(Elements(Flat(s)), key, maxSeq, r)
  {
    DescendingAnswers(Flat(s), key, maxSeq);
    hide VersionsDescend, Answers, Elements;
    hide FirstVisible, Hold, Intact, SeparableSpace, TablesFlat, Searched, MemLists, EntryLists, Flatten;
    ghost var all := [s.active] + s.immutables;
    FlattenMemLists(all);
    FlattenEntryLists(Searched(s));
    assert all[0] == s.active && all[1..] == s.immutables;
    assert Flat(s) == MemsFlat(all) + TablesFlat(Searched(s));
    FirstVisibleConcat(MemsFlat(all), TablesFlat(Searched(s)), key, maxSeq);
    r := SearchMemtables(mems, key, maxSeq, MemLists(all), keys);
    if r.Some? {
      return;
    }
    r := SearchFiles(files, key, maxSeq, crc, hash, blocks, EntryLists(Searched(s)), keys);
  }
}
