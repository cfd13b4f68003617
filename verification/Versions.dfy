/**
Versioned entries, and what it means to read the newest version of a user key that a
snapshot can see. Every source the engine searches (memtable, table, whole database) is
specified by the same linear scan, FirstVisible.
*/
module Versions {
  import opened Optional
  import opened Bytes
  import opened Keys

  /** A stored value: data, or a deletion marker (kv/value.go). */
  datatype Value = Data(bytes: Bytes) | Tombstone

  datatype Entry = Entry(key: Bytes, value: Value)

  /** The bytes and the flag a value is stored as. */
  function DataOf(v: Value): Bytes {
    if v.Data? then v.bytes else []
  }

  function FlagOf(v: Value): Byte {
    if v.Tombstone? then 1 else 0
  }

  function UserKeyOf(e: Entry): Bytes {
    UserKey(e.key)
  }

  function SeqOf(e: Entry): SeqNo {
    SeqNum(e.key)
  }

  predicate Visible(e: Entry, userKey: Bytes, maxSeq: nat) {
    UserKeyOf(e) == userKey && SeqOf(e) <= maxSeq
  }

  // ----- order of entry lists -----

  predicate Ordered(es: seq<Entry>) {
    forall i, j :: 0 <= i < j < |es| ==> LessEq(es[i].key, es[j].key)
  }

  predicate Sorted(es: seq<Entry>) {
    forall i, j :: 0 <= i < j < |es| ==> Less(es[i].key, es[j].key)
  }

  ghost predicate InSpace(es: seq<Entry>, keys: iset<Bytes>) {
    forall i :: 0 <= i < |es| ==> |es[i].key| >= SEQ_SIZE && UserKeyOf(es[i]) in keys
  }

  /** Along the list, the versions of one user key get older and older. */
  predicate VersionsDescend(es: seq<Entry>) {
    forall i, j :: 0 <= i < j < |es| && UserKeyOf(es[i]) == UserKeyOf(es[j]) ==> SeqOf(es[i]) > SeqOf(es[j])
  }

  lemma {:induction false} SortedIsOrdered(es: seq<Entry>)
    requires Sorted(es)
    ensures Ordered(es)
  {
    forall i, j | 0 <= i < j < |es| ensures LessEq(es[i].key, es[j].key) {
      LessAsymmetric(es[i].key, es[j].key);
    }
  }

  /** Byte order of two stored entries is: user key ascending, sequence descending. */
  lemma {:induction false} EntryOrder(a: Entry, b: Entry)
    requires |a.key| >= SEQ_SIZE && |b.key| >= SEQ_SIZE
    requires Separable(UserKeyOf(a), UserKeyOf(b))
    ensures Less(a.key, b.key) <==> VersionBefore(UserKeyOf(a), SeqOf(a), UserKeyOf(b), SeqOf(b))
  {
    MakeOfSplit(a.key);
    MakeOfSplit(b.key);
    InternalKeyOrder(UserKeyOf(a), SeqOf(a), UserKeyOf(b), SeqOf(b));
  }

  lemma {:induction false} SortedDescends(es: seq<Entry>, keys: iset<Bytes>)
    requires Sorted(es) && InSpace(es, keys) && SeparableSpace(keys)
    ensures VersionsDescend(es)
  {
    forall i, j | 0 <= i < j < |es| && UserKeyOf(es[i]) == UserKeyOf(es[j])
      ensures SeqOf(es[i]) > SeqOf(es[j])
    {
      EntryOrder(es[i], es[j]);
      LessIrreflexive(UserKeyOf(es[i]));
    }
  }

  // ----- reading -----

  /** The first entry, in list order, that is a visible version of the user key. */
  function FirstVisible(es: seq<Entry>, userKey: Bytes, maxSeq: nat): (r: Option<Entry>)
    ensures r.Some? ==> r.value in es && Visible(r.value, userKey, maxSeq)
    ensures r.None? ==> forall e :: e in es ==> !Visible(e, userKey, maxSeq)
  {
    if es == [] then None
    else if Visible(es[0], userKey, maxSeq) then Some(es[0])
    else FirstVisible(es[1..], userKey, maxSeq)
  }

  /** What was found, without its key: kv.Value and found. */
  function Found(r: Option<Entry>): Option<Value> {
    if r.Some? then Some(r.value.value) else None
  }

  lemma {:induction false} FirstVisibleConcat(a: seq<Entry>, b: seq<Entry>, userKey: Bytes, maxSeq: nat)
    ensures FirstVisible(a + b, userKey, maxSeq) ==
            if FirstVisible(a, userKey, maxSeq).Some? then FirstVisible(a, userKey, maxSeq)
            else FirstVisible(b, userKey, maxSeq)
  {
    if a == [] {
      assert a + b == b;
    } else {
      assert (a + b)[0] == a[0] && (a + b)[1..] == a[1..] + b;
      FirstVisibleConcat(a[1..], b, userKey, maxSeq);
    }
  }

  /** e is a version of userKey visible at maxSeq, and no visible version is newer. */
  ghost predicate IsNewest(es: iset<Entry>, userKey: Bytes, maxSeq: nat, e: Entry) {
    && e in es
    && Visible(e, userKey, maxSeq)
    && forall f :: f in es && Visible(f, userKey, maxSeq) ==> SeqOf(f) <= SeqOf(e)
  }

  /** What a read must return for a given store: the newest visible version, or nothing. */
  ghost predicate ReadsNewest(es: iset<Entry>, userKey: Bytes, maxSeq: nat, r: Option<Entry>) {
    match r
    case Some(e) => IsNewest(es, userKey, maxSeq, e)
    case None => forall f :: f in es ==> !Visible(f, userKey, maxSeq)
  }

  /** The same for the value alone: that of the newest visible version, or none. */
  ghost predicate Answers(es: iset<Entry>, userKey: Bytes, maxSeq: nat, v: Option<Value>) {
    match v
    case Some(x) => exists e :: IsNewest(es, userKey, maxSeq, e) && e.value == x
    case None => forall f :: f in es ==> !Visible(f, userKey, maxSeq)
  }

  lemma {:induction false} FoundAnswers(es: iset<Entry>, userKey: Bytes, maxSeq: nat, r: Option<Entry>)
    requires ReadsNewest(es, userKey, maxSeq, r)
    ensures Answers(es, userKey, maxSeq, Found(r))
  {
    hide Visible;
    if r.Some? { assert IsNewest(es, userKey, maxSeq, r.value); }
  }

  ghost function Elements(es: seq<Entry>): iset<Entry> {
    iset e | e in es
  }

  /** In a list ordered by internal key the first hit is the newest, also if a key occurs twice. */
  lemma {:induction false} OrderedReads(es: seq<Entry>, keys: iset<Bytes>, userKey: Bytes, maxSeq: nat)
    requires Ordered(es) && InSpace(es, keys) && SeparableSpace(keys)
    ensures ReadsNewest(Elements(es), userKey, maxSeq, FirstVisible(es, userKey, maxSeq))
    ensures Answers(Elements(es), userKey, maxSeq, Found(FirstVisible(es, userKey, maxSeq)))
  {
    hide UserKey, SeqNum, Less;
    var p := FirstVisibleIndex(es, userKey, maxSeq);
    if p < |es| {
      forall f | f in es && Visible(f, userKey, maxSeq) ensures SeqOf(f) <= SeqOf(es[p]) {
        var j :| 0 <= j < |es| && es[j] == f;
        if p < j { EntryOrder(es[j], es[p]); }
      }
    }
    FoundAnswers(Elements(es), userKey, maxSeq, FirstVisible(es, userKey, maxSeq));
  }

  /** Stopping at the first hit is right when versions descend along the list. */
  lemma {:induction false} FirstVisibleIsNewest(es: seq<Entry>, userKey: Bytes, maxSeq: nat)
    requires VersionsDescend(es)
    ensures ReadsNewest(Elements(es), userKey, maxSeq, FirstVisible(es, userKey, maxSeq))
  {
    var p := FirstVisibleIndex(es, userKey, maxSeq);
    if p < |es| {
      forall f | f in es && Visible(f, userKey, maxSeq) ensures SeqOf(f) <= SeqOf(es[p]) {
        var j :| 0 <= j < |es| && es[j] == f;
      }
    }
  }

  lemma {:induction false} FirstVisibleIndex(es: seq<Entry>, userKey: Bytes, maxSeq: nat) returns (p: nat)
    ensures p <= |es|
    ensures forall i :: 0 <= i < p ==> !Visible(es[i], userKey, maxSeq)
    ensures p < |es| ==> Visible(es[p], userKey, maxSeq) && FirstVisible(es, userKey, maxSeq) == Some(es[p])
    ensures p == |es| ==> FirstVisible(es, userKey, maxSeq) == None
  {
    if es == [] || Visible(es[0], userKey, maxSeq) {
      p := 0;
    } else {
      var q := FirstVisibleIndex(es[1..], userKey, maxSeq);
      p := q + 1;
    }
  }

  /** Any two versions of a key in the wrong order make a read stale, unless the newer one also
      stands before the older: the read at its sequence number misses it. */
  lemma {:induction false} MisorderedReadIsStale(es: seq<Entry>, i: nat, j: nat)
    requires i < j < |es| && UserKeyOf(es[i]) == UserKeyOf(es[j]) && SeqOf(es[i]) < SeqOf(es[j])
    requires forall k :: 0 <= k < i && UserKeyOf(es[k]) == UserKeyOf(es[i]) ==> SeqOf(es[k]) != SeqOf(es[j])
    ensures var u, m := UserKeyOf(es[j]), SeqOf(es[j]);
      && FirstVisible(es, u, m).Some? && SeqOf(FirstVisible(es, u, m).value) < m
      && !ReadsNewest(Elements(es), u, m, FirstVisible(es, u, m))
  {
    var p := FirstVisibleIndex(es, UserKeyOf(es[j]), SeqOf(es[j]));
    assert Visible(es[i], UserKeyOf(es[j]), SeqOf(es[j]));
    assert p <= i;
    assert es[j] in Elements(es);
  }

  // ----- seeking in an ordered list -----

  /** The number of leading entries whose key is below `key`. */
  function LowerBound(es: seq<Entry>, key: Bytes): (p: nat)
    ensures p <= |es|
    ensures forall i :: 0 <= i < p ==> Less(es[i].key, key)
    ensures p < |es| ==> LessEq(key, es[p].key)
  {
    if es == [] || !Less(es[0].key, key) then 0 else 1 + LowerBound(es[1..], key)
  }

  /** In an ordered list, exactly the entries before the lower bound are below the target. */
  lemma {:induction false} BelowBound(es: seq<Entry>, target: Bytes, j: nat)
    requires Ordered(es) && j < |es|
    ensures j < LowerBound(es, target) <==> Less(es[j].key, target)
  {
    hide Less;
    var k := LowerBound(es, target);
    if k <= j {
      if k < j { LessEqTransitive(target, es[k].key, es[j].key); }
    }
  }

  /** Walk forward from position p through the versions of one user key. */
  function WalkVersions(es: seq<Entry>, p: nat, userKey: Bytes, maxSeq: nat): Option<Entry>
    requires p <= |es|
    decreases |es| - p
  {
    if p == |es| || UserKeyOf(es[p]) != userKey then None
    else if SeqOf(es[p]) <= maxSeq then Some(es[p])
    else WalkVersions(es, p + 1, userKey, maxSeq)
  }

  /** Seeking to the search key and walking its run finds what a full scan finds. */
  lemma {:induction false} SeekAndWalk(es: seq<Entry>, keys: iset<Bytes>, userKey: Bytes, maxSeq: nat)
    requires Ordered(es) && InSpace(es, keys) && SeparableSpace(keys)
    ensures WalkVersions(es, LowerBound(es, MakeSearchKey(userKey)), userKey, maxSeq)
            == FirstVisible(es, userKey, maxSeq)
  {
    var p := LowerBound(es, MakeSearchKey(userKey));
    forall i | 0 <= i < p ensures UserKeyOf(es[i]) != userKey {
      NotBelowSearchKey(es[i], userKey);
    }
    SkipInvisible(es, p, userKey, maxSeq);
    WalkIsScan(es, p, keys, userKey, maxSeq);
  }

  /** No version of a user key sorts below its search key. */
  lemma {:induction false} NotBelowSearchKey(e: Entry, userKey: Bytes)
    requires |e.key| >= SEQ_SIZE && Less(e.key, MakeSearchKey(userKey))
    ensures UserKeyOf(e) != userKey
  {
    if UserKeyOf(e) == userKey {
      MakeOfSplit(e.key);
      InternalKeyOrder(userKey, SeqOf(e), userKey, MAX_SEQ);
      LessIrreflexive(userKey);
    }
  }

  lemma {:induction false} SkipInvisible(es: seq<Entry>, p: nat, userKey: Bytes, maxSeq: nat)
    requires p <= |es|
    requires forall i :: 0 <= i < p ==> UserKeyOf(es[i]) != userKey
    ensures FirstVisible(es, userKey, maxSeq) == FirstVisible(es[p..], userKey, maxSeq)
  {
    if p == 0 {
      assert es[0..] == es;
    } else {
      SkipInvisible(es[1..], p - 1, userKey, maxSeq);
      assert es[1..][p - 1..] == es[p..];
    }
  }

  lemma {:induction false} WalkIsScan(es: seq<Entry>, p: nat, keys: iset<Bytes>, userKey: Bytes, maxSeq: nat)
    requires Ordered(es) && InSpace(es, keys) && SeparableSpace(keys)
    requires p <= |es|
    requires p < |es| ==> LessEq(MakeSearchKey(userKey), es[p].key)
    ensures WalkVersions(es, p, userKey, maxSeq) == FirstVisible(es[p..], userKey, maxSeq)
    decreases |es| - p
  {
    if p < |es| {
      assert es[p..][0] == es[p] && es[p..][1..] == es[p + 1..];
      if UserKeyOf(es[p]) != userKey {
        forall j | p <= j < |es| ensures UserKeyOf(es[j]) != userKey {
          if j > p { PastTheRun(es[p], es[j], keys, userKey); }
        }
        SkipInvisible(es[p..], |es| - p, userKey, maxSeq);
        assert es[p..][|es| - p..] == [];
      } else if SeqOf(es[p]) > maxSeq {
        if p + 1 < |es| { LessEqTransitive(MakeSearchKey(userKey), es[p].key, es[p + 1].key); }
        WalkIsScan(es, p + 1, keys, userKey, maxSeq);
      }
    }
  }

  /** Beyond a foreign key at or above the search key, the user key does not come back. */
  lemma {:induction false} PastTheRun(a: Entry, b: Entry, keys: iset<Bytes>, userKey: Bytes)
    requires SeparableSpace(keys) && UserKeyOf(a) in keys && UserKeyOf(b) in keys
    requires |a.key| >= SEQ_SIZE && |b.key| >= SEQ_SIZE
    requires LessEq(MakeSearchKey(userKey), a.key) && LessEq(a.key, b.key)
    requires UserKeyOf(a) != userKey
    ensures UserKeyOf(b) != userKey
  {
    if UserKeyOf(b) == userKey {
      var s := Entry(MakeSearchKey(userKey), Tombstone);
      SplitOfMake(userKey, MAX_SEQ);
      EntryOrder(a, s);
      EntryOrder(b, a);
      LessConnected(userKey, UserKeyOf(a));
    }
  }

  // ----- inserting into an ordered list -----

  function Insert(es: seq<Entry>, e: Entry): (r: seq<Entry>)
    ensures |r| == |es| + 1
  {
    var p := LowerBound(es, e.key);
    es[..p] + [e] + es[p..]
  }

  lemma {:induction false} InsertKeepsElements(es: seq<Entry>, e: Entry)
    ensures multiset(Insert(es, e)) == multiset(es) + multiset{e}
    ensures Elements(Insert(es, e)) == Elements(es) + iset{e}
  {
    hide LowerBound, Less;
    var p := LowerBound(es, e.key);
    assert es == es[..p] + es[p..];
    forall x ensures x in Insert(es, e) <==> x in es || x == e {
      assert x in es <==> x in es[..p] || x in es[p..];
    }
  }

  lemma {:induction false} InsertKeepsOrder(es: seq<Entry>, e: Entry)
    requires Ordered(es)
    ensures Ordered(Insert(es, e))
  {
    var p := LowerBound(es, e.key);
    var r := Insert(es, e);
    forall i, j | 0 <= i < j < |r| ensures LessEq(r[i].key, r[j].key) {
      if i < p { LessAsymmetric(es[i].key, e.key); }
      if i == p && j > p + 1 { LessEqTransitive(e.key, es[p].key, es[j - 1].key); }
      if i < p && j > p { assert j == p || r[j] == es[j - 1]; }
    }
  }

  lemma {:induction false} InsertKeepsSorted(es: seq<Entry>, e: Entry)
    requires Sorted(es)
    requires forall i :: 0 <= i < |es| ==> es[i].key != e.key
    ensures Sorted(Insert(es, e))
  {
    var p := LowerBound(es, e.key);
    var r := Insert(es, e);
    forall i, j | 0 <= i < j < |r| ensures Less(r[i].key, r[j].key) {
      if i == p {
        assert r[j] == es[j - 1];
        LessConnected(e.key, es[p].key);
        if j > p + 1 { LessTransitive(e.key, es[p].key, es[j - 1].key); }
      } else if j == p {
        assert r[i] == es[i];
      } else {
        var i', j' := if i < p then i else i - 1, if j < p then j else j - 1;
        assert r[i] == es[i'] && r[j] == es[j'];
      }
    }
  }
}
