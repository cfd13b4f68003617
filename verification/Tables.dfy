/**
SSTables as the engine handles them: identity, sorted entries, bloom filter and file
size. Module SSTable shows that the bytes on disk answer reads as these entries do.
*/
module Tables {
  import opened Bytes
  import opened Versions
  import opened Bloom

  datatype Table = Table(id: nat, entries: seq<Entry>, bloom: Bytes, fileSize: nat)

  function FirstKey(t: Table): Bytes {
    if t.entries == [] then [] else t.entries[0].key
  }

  function LastKey(t: Table): Bytes {
    if t.entries == [] then [] else t.entries[|t.entries| - 1].key
  }

  /** The builder's guarantees: some entries, strictly sorted, all known to the filter. */
  ghost predicate TableValid(t: Table, hash: Bytes -> Word32) {
    && t.entries != []
    && Sorted(t.entries)
    && Representable(t.bloom)
    && forall e :: e in t.entries ==> MayContain(t.bloom, hash(UserKeyOf(e)))
  }

  ghost predicate TablesValid(ts: seq<Table>, hash: Bytes -> Word32) {
    forall i :: 0 <= i < |ts| ==> TableValid(ts[i], hash)
  }

  /** All entries of the tables, in search order. */
  function TablesFlat(ts: seq<Table>): seq<Entry> {
    if ts == [] then [] else ts[0].entries + TablesFlat(ts[1..])
  }

  lemma {:induction false} TablesFlatConcat(a: seq<Table>, b: seq<Table>)
    ensures TablesFlat(a + b) == TablesFlat(a) + TablesFlat(b)
  {
    if a == [] {
      assert a + b == b;
    } else {
      assert (a + b)[0] == a[0] && (a + b)[1..] == a[1..] + b;
      TablesFlatConcat(a[1..], b);
    }
  }

  lemma {:induction false} TablesFlatSingle(t: Table)
    ensures TablesFlat([t]) == t.entries
  {
    assert [t][1..] == [];
  }

  lemma {:induction false} TableInFlat(ts: seq<Table>, i: nat)
    requires i < |ts|
    ensures forall e :: e in ts[i].entries ==> e in TablesFlat(ts)
  {
    if i > 0 { TableInFlat(ts[1..], i - 1); }
  }

  lemma {:induction false} FlatInTable(ts: seq<Table>, e: Entry) returns (i: nat)
    requires e in TablesFlat(ts)
    ensures i < |ts| && e in ts[i].entries
  {
    if e in ts[0].entries {
      i := 0;
    } else {
      var j := FlatInTable(ts[1..], e);
      i := j + 1;
    }
  }

  // ----- sorted lists of entries, concatenated -----

  /** Every key of a sorts before every key of b. */
  predicate AllBefore(a: seq<Entry>, b: seq<Entry>) {
    forall x, y :: x in a && y in b ==> Less(x.key, y.key)
  }

  lemma {:induction false} SortedConcat(a: seq<Entry>, b: seq<Entry>)
    requires Sorted(a) && Sorted(b) && AllBefore(a, b)
    ensures Sorted(a + b)
  {
    var c := a + b;
    forall i, j | 0 <= i < j < |c| ensures Less(c[i].key, c[j].key) {
      if i < |a| <= j { assert c[i] in a && c[j] in b; }
    }
  }

  lemma {:induction false} SortedSplit(a: seq<Entry>, b: seq<Entry>)
    requires Sorted(a + b)
    ensures Sorted(a) && Sorted(b) && AllBefore(a, b)
  {
    var c := a + b;
    assert forall i :: 0 <= i < |a| ==> c[i] == a[i];
    assert forall i :: 0 <= i < |b| ==> c[|a| + i] == b[i];
    forall x, y | x in a && y in b ensures Less(x.key, y.key) {
      var i :| 0 <= i < |a| && a[i] == x;
      var j :| 0 <= j < |b| && b[j] == y;
      assert c[i] == x && c[|a| + j] == y;
    }
  }

  // ----- dropping obsolete tables -----

  predicate DistinctIds(ts: seq<Table>) {
    forall i, j :: 0 <= i < j < |ts| ==> ts[i].id != ts[j].id
  }

  function IdsOf(ts: seq<Table>): set<nat> {
    set t | t in ts :: t.id
  }

  function DropIds(ts: seq<Table>, obsolete: set<nat>): seq<Table> {
    if ts == [] then []
    else if ts[0].id in obsolete then DropIds(ts[1..], obsolete)
    else [ts[0]] + DropIds(ts[1..], obsolete)
  }

  lemma {:induction false} DropIdsConcat(a: seq<Table>, b: seq<Table>, obsolete: set<nat>)
    ensures DropIds(a + b, obsolete) == DropIds(a, obsolete) + DropIds(b, obsolete)
  {
    if a == [] {
      assert a + b == b;
    } else {
      assert (a + b)[0] == a[0] && (a + b)[1..] == a[1..] + b;
      DropIdsConcat(a[1..], b, obsolete);
    }
  }

  lemma {:induction false} DropIdsAll(ts: seq<Table>, obsolete: set<nat>)
    requires forall t :: t in ts ==> t.id in obsolete
    ensures DropIds(ts, obsolete) == []
  {
    if ts != [] { DropIdsAll(ts[1..], obsolete); }
  }

  lemma {:induction false} DropIdsNone(ts: seq<Table>, obsolete: set<nat>)
    requires forall t :: t in ts ==> t.id !in obsolete
    ensures DropIds(ts, obsolete) == ts
  {
    if ts != [] { DropIdsNone(ts[1..], obsolete); }
  }

  method DropObsolete(ts: seq<Table>, obsolete: set<nat>) returns (kept: seq<Table>)
    ensures kept == DropIds(ts, obsolete)
  {
    kept := [];
    for i := 0 to |ts|
      invariant kept == DropIds(ts[..i], obsolete)
    {
      assert ts[..i + 1] == ts[..i] + [ts[i]];
      DropIdsConcat(ts[..i], [ts[i]], obsolete);
      if ts[i].id !in obsolete {
        kept := kept + [ts[i]];
      }
    }
    assert ts[..|ts|] == ts;
  }

  // ----- sorting by first key -----

  predicate ByFirstKey(ts: seq<Table>) {
    forall i, j :: 0 <= i < j < |ts| ==> LessEq(FirstKey(ts[i]), FirstKey(ts[j]))
  }

  predicate StrictlyByFirstKey(ts: seq<Table>) {
    forall i, j :: 0 <= i < j < |ts| ==> Less(FirstKey(ts[i]), FirstKey(ts[j]))
  }

  function InsertTable(ts: seq<Table>, t: Table): seq<Table> {
    if ts == [] || Less(FirstKey(t), FirstKey(ts[0])) then [t] + ts
    else [ts[0]] + InsertTable(ts[1..], t)
  }

  /** sort.Slice by first key, as an insertion sort. */
  function SortTables(ts: seq<Table>): seq<Table> {
    if ts == [] then [] else InsertTable(SortTables(ts[..|ts| - 1]), ts[|ts| - 1])
  }

  lemma {:induction false} InsertTablePermutes(ts: seq<Table>, t: Table)
    ensures multiset(InsertTable(ts, t)) == multiset(ts) + multiset{t}
  {
    if ts != [] && !Less(FirstKey(t), FirstKey(ts[0])) {
      InsertTablePermutes(ts[1..], t);
      assert ts == [ts[0]] + ts[1..];
    }
  }

  lemma {:induction false} InsertTableSorts(ts: seq<Table>, t: Table)
    requires ByFirstKey(ts)
    ensures ByFirstKey(InsertTable(ts, t))
  {
    hide Less, FirstKey;
    if ts == [] {
    } else if Less(FirstKey(t), FirstKey(ts[0])) {
      LessAsymmetric(FirstKey(t), FirstKey(ts[0]));
      forall i | 0 <= i < |ts| ensures LessEq(FirstKey(t), FirstKey(ts[i])) {
        if i > 0 { LessEqTransitive(FirstKey(t), FirstKey(ts[0]), FirstKey(ts[i])); }
      }
    } else {
      InsertTableSorts(ts[1..], t);
      InsertTableFrom(ts[1..], t, FirstKey(ts[0]));
    }
  }

  lemma {:induction false} InsertTableFrom(ts: seq<Table>, t: Table, low: Bytes)
    requires LessEq(low, FirstKey(t)) && forall i :: 0 <= i < |ts| ==> LessEq(low, FirstKey(ts[i]))
    ensures forall i :: 0 <= i < |InsertTable(ts, t)| ==> LessEq(low, FirstKey(InsertTable(ts, t)[i]))
  {
    hide Less, FirstKey;
    if ts != [] { InsertTableFrom(ts[1..], t, low); }
  }

  lemma {:induction false} SortTablesSorts(ts: seq<Table>)
    ensures ByFirstKey(SortTables(ts))
    ensures multiset(SortTables(ts)) == multiset(ts)
  {
    if ts != [] {
      SortTablesSorts(ts[..|ts| - 1]);
      InsertTableSorts(SortTables(ts[..|ts| - 1]), ts[|ts| - 1]);
      InsertTablePermutes(SortTables(ts[..|ts| - 1]), ts[|ts| - 1]);
      assert ts == ts[..|ts| - 1] + [ts[|ts| - 1]];
    }
  }

  lemma {:induction false} HeadsAgree(a: seq<Table>, b: seq<Table>)
    requires ByFirstKey(a) && StrictlyByFirstKey(b) && multiset(a) == multiset(b) && a != [] && b != []
    ensures a[0] == b[0]
  {
    hide Less, FirstKey;
    assert a[0] in multiset(b) && b[0] in multiset(a);
    var i :| 0 <= i < |b| && b[i] == a[0];
    var j :| 0 <= j < |a| && a[j] == b[0];
    LessIrreflexive(FirstKey(a[0]));
    assert LessEq(FirstKey(a[0]), FirstKey(a[j]));
  }

  /** Distinct first keys leave a sort no choice. */
  lemma {:induction false} SortedPermutationUnique(a: seq<Table>, b: seq<Table>)
    requires ByFirstKey(a) && StrictlyByFirstKey(b) && multiset(a) == multiset(b)
    ensures a == b
  {
    hide Less, FirstKey;
    assert |multiset(a)| == |a| && |multiset(b)| == |b|;
    if a != [] {
      HeadsAgree(a, b);
      assert a == [a[0]] + a[1..] && b == [b[0]] + b[1..];
      assert multiset(a[1..]) == multiset(a) - multiset{a[0]};
      assert multiset(b[1..]) == multiset(b) - multiset{b[0]};
      SortedPermutationUnique(a[1..], b[1..]);
    }
  }

  lemma {:induction false} SortTablesIs(a: seq<Table>, b: seq<Table>)
    requires StrictlyByFirstKey(b) && multiset(a) == multiset(b)
    ensures SortTables(a) == b
  {
    SortTablesSorts(a);
    SortedPermutationUnique(SortTables(a), b);
  }

  /** In a sorted level of non-empty tables, first keys are strictly increasing. */
  lemma {:induction false} SortedLevelByFirstKey(ts: seq<Table>)
    requires Sorted(TablesFlat(ts))
    requires forall i :: 0 <= i < |ts| ==> ts[i].entries != []
    ensures StrictlyByFirstKey(ts)
  {
    hide Less;
    if ts != [] {
      SortedSplit(ts[0].entries, TablesFlat(ts[1..]));
      SortedLevelByFirstKey(ts[1..]);
      forall j | 1 <= j < |ts| ensures Less(FirstKey(ts[0]), FirstKey(ts[j])) {
        TableInFlat(ts[1..], j - 1);
        assert ts[j].entries[0] in TablesFlat(ts[1..]);
        assert ts[0].entries[0] in ts[0].entries;
      }
    }
  }
}
