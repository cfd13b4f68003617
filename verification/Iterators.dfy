/**
The scan path: a k-way merge of sorted iterators (iterator/merge.go), and the filter that
keeps the newest visible version of each user key (iterator/snapshot.go).
*/
module Iterators {
  import opened Optional
  import opened Bytes
  import opened Keys
  import opened Versions

  function Flatten(inputs: seq<seq<Entry>>): seq<Entry> {
    if inputs == [] then [] else inputs[0] + Flatten(inputs[1..])
  }

  lemma {:induction false} FlattenConcat(a: seq<seq<Entry>>, b: seq<seq<Entry>>)
    ensures Flatten(a + b) == Flatten(a) + Flatten(b)
  {
    if a == [] {
      assert a + b == b;
    } else {
      assert (a + b)[0] == a[0] && (a + b)[1..] == a[1..] + b;
      FlattenConcat(a[1..], b);
    }
  }

  lemma {:induction false} FlattenSingle(a: seq<Entry>)
    ensures Flatten([a]) == a
  {
    assert [a][1..] == [];
  }

  // ----- merge -----

  /** The entries the iterators have not passed yet. */
  ghost function Rest(inputs: seq<seq<Entry>>, pos: seq<nat>): multiset<Entry>
    requires |pos| == |inputs|
    requires forall i :: 0 <= i < |inputs| ==> pos[i] <= |inputs[i]|
  {
    if inputs == [] then multiset{}
    else multiset(inputs[0][pos[0]..]) + Rest(inputs[1..], pos[1..])
  }

  lemma {:induction false} RestAtStart(inputs: seq<seq<Entry>>, pos: seq<nat>)
    requires |pos| == |inputs| && forall i :: 0 <= i < |inputs| ==> pos[i] == 0
    ensures Rest(inputs, pos) == multiset(Flatten(inputs))
  {
    if inputs != [] {
      RestAtStart(inputs[1..], pos[1..]);
      assert inputs[0][0..] == inputs[0];
    }
  }

  lemma {:induction false} RestAtEnd(inputs: seq<seq<Entry>>, pos: seq<nat>)
    requires |pos| == |inputs| && forall i :: 0 <= i < |inputs| ==> pos[i] == |inputs[i]|
    ensures Rest(inputs, pos) == multiset{}
  {
    if inputs != [] {
      RestAtEnd(inputs[1..], pos[1..]);
    }
  }

  lemma {:induction false} RestAdvance(inputs: seq<seq<Entry>>, pos: seq<nat>, i: nat)
    requires |pos| == |inputs|
    requires forall k :: 0 <= k < |inputs| ==> pos[k] <= |inputs[k]|
    requires i < |inputs| && pos[i] < |inputs[i]|
    ensures Rest(inputs, pos) == Rest(inputs, pos[i := pos[i] + 1]) + multiset{inputs[i][pos[i]]}
  {
    var pos' := pos[i := pos[i] + 1];
    var tail, p, p' := inputs[1..], pos[1..], pos'[1..];
    if i == 0 {
      assert inputs[0][pos[0]..] == [inputs[0][pos[0]]] + inputs[0][pos'[0]..];
      assert p' == p;
    } else {
      assert p' == p[i - 1 := p[i - 1] + 1];
      RestAdvance(tail, p, i - 1);
      assert tail[i - 1] == inputs[i] && p[i - 1] == pos[i];
    }
  }

  datatype HeapItem = HeapItem(key: Bytes, idx: nat)

  /** mergeHeap.Less: by key, then by iterator index. */
  predicate ItemLess(a: HeapItem, b: HeapItem) {
    Less(a.key, b.key) || (a.key == b.key && a.idx < b.idx)
  }

  lemma {:induction false} ItemLessTransitive(a: HeapItem, b: HeapItem, c: HeapItem)
    requires ItemLess(a, b) && ItemLess(b, c)
    ensures ItemLess(a, c)
  {
    if Less(a.key, b.key) && Less(b.key, c.key) { LessTransitive(a.key, b.key, c.key); }
  }

  lemma {:induction false} ItemLessConnected(a: HeapItem, b: HeapItem)
    requires a != b
    ensures ItemLess(a, b) || ItemLess(b, a)
  {
    if a.key != b.key { LessConnected(a.key, b.key); }
  }

  /** heap.Pop by its contract: take out an item that precedes all the others. */
  method PopLeast(h: set<HeapItem>) returns (item: HeapItem)
    requires h != {}
    ensures item in h
    ensures forall x :: x in h && x != item ==> ItemLess(item, x)
  {
    item :| item in h;
    var todo := h - {item};
    while todo != {}
      invariant item in h && item !in todo && todo <= h
      invariant forall x :: x in h - todo && x != item ==> ItemLess(item, x)
      decreases todo
    {
      var x :| x in todo;
      ItemLessConnected(x, item);
      if ItemLess(x, item) {
        forall y | y in h - todo && y != item ensures ItemLess(x, y) {
          ItemLessTransitive(x, item, y);
        }
        item := x;
      }
      todo := todo - {x};
    }
  }

  /** The heap holds one item per unfinished iterator, except that of index `skip`. */
  function Facing(inputs: seq<seq<Entry>>, pos: seq<nat>, skip: Option<nat>): set<HeapItem>
    requires |pos| == |inputs|
  {
    set i | 0 <= i < |inputs| && pos[i] < |inputs[i]| && skip != Some(i) :: HeapItem(inputs[i][pos[i]].key, i)
  }

  /** Moving the least iterator on changes one item, and nothing falls below the old least. */
  lemma {:induction false} FacingAdvance(inputs: seq<seq<Entry>>, pos: seq<nat>, item: HeapItem)
    requires |pos| == |inputs| && item in Facing(inputs, pos, None)
    requires forall x :: x in Facing(inputs, pos, Some(item.idx)) ==> ItemLess(item, x)
    requires Ordered(inputs[item.idx])
    ensures var i := item.idx;
            var pos' := pos[i := pos[i] + 1];
            && Facing(inputs, pos', None) ==
                 Facing(inputs, pos, Some(i)) +
                 (if pos'[i] < |inputs[i]| then {HeapItem(inputs[i][pos'[i]].key, i)} else {})
            && forall x :: x in Facing(inputs, pos', None) ==> LessEq(item.key, x.key)
  {
    var i := item.idx;
    var pos' := pos[i := pos[i] + 1];
    assert Facing(inputs, pos', Some(i)) == Facing(inputs, pos, Some(i));
    forall x | x in Facing(inputs, pos, Some(i)) ensures LessEq(item.key, x.key) {
      if Less(item.key, x.key) { LessAsymmetric(item.key, x.key); }
      LessIrreflexive(item.key);
    }
  }

  class MergeIterator {
    const inputs: seq<seq<Entry>>
    var pos: seq<nat>
    var h: set<HeapItem>
    var cur: Option<HeapItem>

    predicate Positioned()
      reads this
    {
      && |pos| == |inputs|
      && forall i :: 0 <= i < |inputs| ==> pos[i] <= |inputs[i]|
    }

    /** The current item is taken out of the heap and precedes everything left there. */
    ghost predicate Valid()
      reads this
    {
      && Positioned()
      && match cur
         case None => Facing(inputs, pos, None) == {}
         case Some(item) =>
           && item in Facing(inputs, pos, None)
           && h == Facing(inputs, pos, Some(item.idx))
           && forall x :: x in h ==> ItemLess(item, x)
    }

    ghost function Remaining(): multiset<Entry>
      requires Positioned()
      reads this
    {
      Rest(inputs, pos)
    }

    constructor (inputs: seq<seq<Entry>>)
      ensures this.inputs == inputs && Valid()
      ensures Remaining() == multiset(Flatten(inputs))
    {
      this.inputs := inputs;
      pos := seq(|inputs|, _ => 0);
      h := {};
      cur := None;
      new;
      for i := 0 to |inputs|
        invariant pos == seq(|inputs|, _ => 0)
        invariant h == set k | 0 <= k < i && pos[k] < |inputs[k]| :: HeapItem(inputs[k][pos[k]].key, k)
      {
        if pos[i] < |inputs[i]| {
          h := h + {HeapItem(inputs[i][pos[i]].key, i)};
        }
      }
      RestAtStart(inputs, pos);
      assert h == Facing(inputs, pos, None);
      Advance();
    }

    method Advance()
      requires Positioned() && h == Facing(inputs, pos, None)
      modifies this`h, this`cur
      ensures Valid()
      ensures cur.Some? ==> cur.value in old(h)
    {
      if h == {} {
        cur := None;
        return;
      }
      var item := PopLeast(h);
      assert Facing(inputs, pos, Some(item.idx)) == h - {item};
      h := h - {item};
      cur := Some(item);
    }

    function Current(): (e: Entry)
      requires Valid() && cur.Some?
      reads this
      ensures e.key == cur.value.key
    {
      inputs[cur.value.idx][pos[cur.value.idx]]
    }

    method Next()
      requires Valid() && cur.Some?
      requires forall i :: 0 <= i < |inputs| ==> Ordered(inputs[i])
      modifies this
      ensures Valid()
      ensures old(Remaining()) == Remaining() + multiset{old(Current())}
      ensures cur.Some? ==> LessEq(old(Current()).key, Current().key)
    {
      hide Less, Rest, Ordered;
      var i := cur.value.idx;
      RestAdvance(inputs, pos, i);
      FacingAdvance(inputs, pos, cur.value);
      pos := pos[i := pos[i] + 1];
      if pos[i] < |inputs[i]| {
        h := h + {HeapItem(inputs[i][pos[i]].key, i)};
      }
      Advance();
    }
  }

  lemma {:induction false} AppendKeepsOrder(out: seq<Entry>, e: Entry)
    requires Ordered(out)
    requires out != [] ==> LessEq(out[|out| - 1].key, e.key)
    ensures Ordered(out + [e])
  {
    forall i | 0 <= i < |out| ensures LessEq(out[i].key, e.key) {
      if i < |out| - 1 { LessEqTransitive(out[i].key, out[|out| - 1].key, e.key); }
    }
  }

  /** Draining a merge emits a sorted permutation of everything in its inputs. */
  method MergeAll(inputs: seq<seq<Entry>>) returns (out: seq<Entry>)
    requires forall i :: 0 <= i < |inputs| ==> Ordered(inputs[i])
    ensures multiset(out) == multiset(Flatten(inputs))
    ensures Ordered(out)
  {
    hide Less, Facing, Rest;
    var m := new MergeIterator(inputs);
    out := [];
    while m.cur.Some?
      invariant fresh(m) && m.inputs == inputs && m.Valid()
      invariant multiset(out) + m.Remaining() == multiset(Flatten(inputs))
      invariant Ordered(out)
      invariant out != [] && m.cur.Some? ==> LessEq(out[|out| - 1].key, m.Current().key)
      decreases |m.Remaining()|
    {
      var e := m.Current();
      AppendKeepsOrder(out, e);
      out := out + [e];
      m.Next();
    }
    FacingNothing(m.inputs, m.pos);
    RestAtEnd(m.inputs, m.pos);
  }

  lemma {:induction false} FacingNothing(inputs: seq<seq<Entry>>, pos: seq<nat>)
    requires |pos| == |inputs| && Facing(inputs, pos, None) == {}
    ensures forall i :: 0 <= i < |inputs| ==> pos[i] >= |inputs[i]|
  {
    forall i | 0 <= i < |inputs| ensures pos[i] >= |inputs[i]| {
      if pos[i] < |inputs[i]| { FacingMember(inputs, pos, i); }
    }
  }

  lemma {:induction false} FacingMember(inputs: seq<seq<Entry>>, pos: seq<nat>, i: nat)
    requires |pos| == |inputs| && i < |inputs| && pos[i] < |inputs[i]|
    ensures HeapItem(inputs[i][pos[i]].key, i) in Facing(inputs, pos, None)
  {
  }

  // ----- uniqueness of a sorted permutation -----

  predicate UniqueKeys(m: multiset<Entry>) {
    && (forall x :: x in m ==> m[x] == 1)
    && (forall x, y :: x in m && y in m && x.key == y.key ==> x == y)
  }

  lemma {:induction false} RepeatedElement<T>(es: seq<T>, i: nat, j: nat)
    requires i < j < |es| && es[i] == es[j]
    ensures multiset(es)[es[i]] >= 2
  {
    assert es == es[..j] + es[j..];
    assert es[i] in es[..j] && es[j] in es[j..];
  }

  lemma {:induction false} OrderedUniqueIsSorted(es: seq<Entry>)
    requires Ordered(es) && UniqueKeys(multiset(es))
    ensures Sorted(es)
  {
    forall i, j | 0 <= i < j < |es| ensures Less(es[i].key, es[j].key) {
      if es[i].key == es[j].key {
        assert es[i] in multiset(es) && es[j] in multiset(es);
        RepeatedElement(es, i, j);
      } else {
        LessConnected(es[i].key, es[j].key);
      }
    }
  }

  lemma {:induction false} SortedIsUnique(es: seq<Entry>)
    requires Sorted(es)
    ensures UniqueKeys(multiset(es))
  {
    hide Less;
    forall i, j | 0 <= i < |es| && 0 <= j < |es| && es[i].key == es[j].key ensures i == j {
      LessIrreflexive(es[i].key);
    }
    forall x | x in multiset(es) ensures multiset(es)[x] == 1 {
      var i :| 0 <= i < |es| && es[i] == x;
      assert es == es[..i] + [es[i]] + es[i + 1..];
      assert x !in es[..i] && x !in es[i + 1..];
      assert multiset(es[..i])[x] == 0 && multiset(es[i + 1..])[x] == 0;
    }
    forall x, y | x in multiset(es) && y in multiset(es) && x.key == y.key ensures x == y {
      var i :| 0 <= i < |es| && es[i] == x;
      var j :| 0 <= j < |es| && es[j] == y;
    }
  }

  // ----- snapshot filter -----

  /** lastUserKey = append(lastUserKey[:0], userKey...): stays nil on an empty first key. */
  function Remember(last: Option<Bytes>, userKey: Bytes): Option<Bytes> {
    if last.None? && userKey == [] then None else Some(userKey)
  }

  /** What the filter emits from here on, having last emitted `last`. */
  function Emitted(es: seq<Entry>, last: Option<Bytes>, maxSeq: nat): seq<Entry> {
    if es == [] then []
    else if SeqOf(es[0]) > maxSeq || last == Some(UserKeyOf(es[0])) then Emitted(es[1..], last, maxSeq)
    else [es[0]] + Emitted(es[1..], Remember(last, UserKeyOf(es[0])), maxSeq)
  }

  /** The filter, positioned at an inner iterator that emits `entries`. */
  class SnapshotIterator {
    const entries: seq<Entry>
    const maxSeq: nat
    var pos: nat
    var lastUserKey: Option<Bytes>
    var valid: bool

    /** Everything still to be emitted, the current entry included. */
    ghost function Pending(): seq<Entry>
      requires Valid()
      reads this
    {
      if valid then [entries[pos]] + Emitted(entries[pos + 1..], lastUserKey, maxSeq) else []
    }

    ghost predicate Valid()
      reads this
    {
      pos <= |entries| && (valid ==> pos < |entries|)
    }

    constructor (entries: seq<Entry>, maxSeq: nat)
      ensures Valid() && this.entries == entries && this.maxSeq == maxSeq
      ensures Pending() == Emitted(entries, None, maxSeq)
    {
      this.entries, this.maxSeq := entries, maxSeq;
      pos, lastUserKey, valid := 0, None, false;
      new;
      assert entries[0..] == entries;
      Advance();
    }

    method Advance()
      requires pos <= |entries|
      modifies this
      ensures Valid() && old(pos) <= pos
      ensures Pending() == Emitted(entries[old(pos)..], old(lastUserKey), maxSeq)
    {
      valid := false;
      while pos < |entries|
        invariant old(pos) <= pos <= |entries| && !valid
        invariant lastUserKey == old(lastUserKey)
        invariant Emitted(entries[pos..], lastUserKey, maxSeq) == Emitted(entries[old(pos)..], old(lastUserKey), maxSeq)
      {
        var e := entries[pos];
        assert entries[pos..][0] == e && entries[pos..][1..] == entries[pos + 1..];
        if SeqOf(e) > maxSeq {
          pos := pos + 1;
        } else if lastUserKey.Some? && UserKeyOf(e) == lastUserKey.value {
          pos := pos + 1;
        } else {
          lastUserKey := Remember(lastUserKey, UserKeyOf(e));
          valid := true;
          return;
        }
      }
      assert entries[pos..] == [];
    }

    method Next()
      requires Valid() && valid
      modifies this
      ensures Valid() && old(pos) < pos
      ensures Pending() == old(Pending())[1..]
    {
      pos := pos + 1;
      Advance();
    }
  }

  method SnapshotScan(entries: seq<Entry>, maxSeq: nat) returns (out: seq<Entry>)
    ensures out == Emitted(entries, None, maxSeq)
  {
    hide Emitted;
    var it := new SnapshotIterator(entries, maxSeq);
    out := [];
    while it.valid
      invariant fresh(it) && it.Valid() && it.entries == entries
      invariant out + it.Pending() == Emitted(entries, None, maxSeq)
      decreases |entries| - it.pos
    {
      TakeFirst(out, it.Pending());
      out := out + [it.entries[it.pos]];
      it.Next();
    }
  }

  lemma {:induction false} TakeFirst(out: seq<Entry>, rest: seq<Entry>)
    requires rest != []
    ensures (out + [rest[0]]) + rest[1..] == out + rest
  {
  }

  // ----- what a scan means -----

  predicate UserKeysAscend(out: seq<Entry>) {
    forall i, j :: 0 <= i < j < |out| ==> Less(UserKeyOf(out[i]), UserKeyOf(out[j]))
  }

  /** A scan agrees with point reads: one entry per readable user key, the one a read returns. */
  ghost predicate AgreesWithReads(out: seq<Entry>, es: seq<Entry>, maxSeq: nat) {
    && UserKeysAscend(out)
    && (forall e :: e in out ==> FirstVisible(es, UserKeyOf(e), maxSeq) == Some(e))
    && (forall u :: FirstVisible(es, u, maxSeq).Some? ==> FirstVisible(es, u, maxSeq).value in out)
  }

  predicate NoneBelow(es: seq<Entry>, last: Option<Bytes>) {
    last.Some? ==> forall i :: 0 <= i < |es| ==> !Less(UserKeyOf(es[i]), last.value)
  }

  lemma {:induction false} FirstUserKeyLeast(es: seq<Entry>, keys: iset<Bytes>)
    requires Sorted(es) && InSpace(es, keys) && SeparableSpace(keys) && es != []
    ensures NoneBelow(es[1..], Some(UserKeyOf(es[0])))
  {
    var u0 := UserKeyOf(es[0]);
    forall i | 0 <= i < |es| - 1 ensures !Less(UserKeyOf(es[1..][i]), u0) {
      EntryOrder(es[0], es[i + 1]);
      LessIrreflexive(u0);
      if Less(u0, UserKeyOf(es[i + 1])) { LessAsymmetric(u0, UserKeyOf(es[i + 1])); }
    }
  }

  /** Emitted entries come from the list, are visible, and lie beyond the last emitted key. */
  lemma {:induction false} EmittedBeyond(es: seq<Entry>, last: Option<Bytes>, maxSeq: nat, keys: iset<Bytes>)
    requires Sorted(es) && InSpace(es, keys) && SeparableSpace(keys) && [] !in keys
    requires NoneBelow(es, last)
    ensures forall e :: e in Emitted(es, last, maxSeq) ==>
              e in es && SeqOf(e) <= maxSeq && (last.Some? ==> Less(last.value, UserKeyOf(e)))
  {
    if es != [] {
      var u0 := UserKeyOf(es[0]);
      if SeqOf(es[0]) > maxSeq || last == Some(u0) {
        EmittedBeyond(es[1..], last, maxSeq, keys);
      } else {
        FirstUserKeyLeast(es, keys);
        EmittedBeyond(es[1..], Some(u0), maxSeq, keys);
        if last.Some? {
          LessConnected(last.value, u0);
          forall x | x in Emitted(es[1..], Some(u0), maxSeq) ensures Less(last.value, UserKeyOf(x)) {
            LessTransitive(last.value, u0, UserKeyOf(x));
          }
        }
      }
    }
  }

  lemma {:induction false} EmittedAscends(es: seq<Entry>, last: Option<Bytes>, maxSeq: nat, keys: iset<Bytes>)
    requires Sorted(es) && InSpace(es, keys) && SeparableSpace(keys) && [] !in keys
    requires NoneBelow(es, last)
    ensures UserKeysAscend(Emitted(es, last, maxSeq))
  {
    hide Less;
    if es != [] {
      var u0 := UserKeyOf(es[0]);
      if SeqOf(es[0]) > maxSeq || last == Some(u0) {
        EmittedAscends(es[1..], last, maxSeq, keys);
      } else {
        FirstUserKeyLeast(es, keys);
        EmittedBeyond(es[1..], Some(u0), maxSeq, keys);
        EmittedAscends(es[1..], Some(u0), maxSeq, keys);
      }
    }
  }

  lemma {:induction false} EmittedAreFirst(es: seq<Entry>, last: Option<Bytes>, maxSeq: nat, keys: iset<Bytes>)
    requires Sorted(es) && InSpace(es, keys) && SeparableSpace(keys) && [] !in keys
    requires NoneBelow(es, last)
    ensures forall e :: e in Emitted(es, last, maxSeq) ==> FirstVisible(es, UserKeyOf(e), maxSeq) == Some(e)
  {
    if es != [] {
      var u0 := UserKeyOf(es[0]);
      LessIrreflexive(u0);
      if SeqOf(es[0]) > maxSeq || last == Some(u0) {
        EmittedBeyond(es[1..], last, maxSeq, keys);
        EmittedAreFirst(es[1..], last, maxSeq, keys);
      } else {
        FirstUserKeyLeast(es, keys);
        EmittedBeyond(es[1..], Some(u0), maxSeq, keys);
        EmittedAreFirst(es[1..], Some(u0), maxSeq, keys);
      }
    }
  }

  lemma {:induction false} EmittedComplete(es: seq<Entry>, last: Option<Bytes>, maxSeq: nat, u: Bytes)
    requires last != Some(u) && FirstVisible(es, u, maxSeq).Some?
    ensures FirstVisible(es, u, maxSeq).value in Emitted(es, last, maxSeq)
  {
    if SeqOf(es[0]) > maxSeq || last == Some(UserKeyOf(es[0])) {
      EmittedComplete(es[1..], last, maxSeq, u);
    } else if UserKeyOf(es[0]) != u {
      EmittedComplete(es[1..], Remember(last, UserKeyOf(es[0])), maxSeq, u);
    }
  }

  /** On a sorted list over non-empty, separable user keys, scans agree with point reads. */
  lemma {:induction false} ScanAgreesWithReads(es: seq<Entry>, maxSeq: nat, keys: iset<Bytes>)
    requires Sorted(es) && InSpace(es, keys) && SeparableSpace(keys) && [] !in keys
    ensures AgreesWithReads(Emitted(es, None, maxSeq), es, maxSeq)
  {
    EmittedAscends(es, None, maxSeq, keys);
    EmittedAreFirst(es, None, maxSeq, keys);
    forall u | FirstVisible(es, u, maxSeq).Some?
      ensures FirstVisible(es, u, maxSeq).value in Emitted(es, None, maxSeq)
    {
      EmittedComplete(es, None, maxSeq, u);
    }
  }

  // ----- the empty user key -----

  function VisibleVersions(es: seq<Entry>, userKey: Bytes, maxSeq: nat): seq<Entry> {
    if es == [] then []
    else if Visible(es[0], userKey, maxSeq) then [es[0]] + VisibleVersions(es[1..], userKey, maxSeq)
    else VisibleVersions(es[1..], userKey, maxSeq)
  }

  lemma {:induction false} VisibleVersionsHead(es: seq<Entry>, userKey: Bytes, maxSeq: nat)
    ensures var v := VisibleVersions(es, userKey, maxSeq);
            && (forall e :: e in v ==> Visible(e, userKey, maxSeq))
            && FirstVisible(es, userKey, maxSeq) == if v == [] then None else Some(v[0])
  {
    if es != [] { VisibleVersionsHead(es[1..], userKey, maxSeq); }
  }

  lemma {:induction false} VisibleVersionsConcat(a: seq<Entry>, b: seq<Entry>, userKey: Bytes, maxSeq: nat)
    ensures VisibleVersions(a + b, userKey, maxSeq) ==
            VisibleVersions(a, userKey, maxSeq) + VisibleVersions(b, userKey, maxSeq)
  {
    if a == [] {
      assert a + b == b;
    } else {
      assert (a + b)[0] == a[0] && (a + b)[1..] == a[1..] + b;
      VisibleVersionsConcat(a[1..], b, userKey, maxSeq);
    }
  }

  lemma {:induction false} VisibleVersionsAbsent(es: seq<Entry>, userKey: Bytes, maxSeq: nat)
    requires forall i :: 0 <= i < |es| ==> UserKeyOf(es[i]) != userKey
    ensures VisibleVersions(es, userKey, maxSeq) == []
  {
    if es != [] { VisibleVersionsAbsent(es[1..], userKey, maxSeq); }
  }

  /** Every visible version of a leading empty key is emitted. */
  lemma {:induction false} EmptyKeyEmitted(a: seq<Entry>, b: seq<Entry>, maxSeq: nat)
    requires forall i :: 0 <= i < |a| ==> UserKeyOf(a[i]) == []
    ensures Emitted(a + b, None, maxSeq) == VisibleVersions(a, [], maxSeq) + Emitted(b, None, maxSeq)
  {
    if a == [] {
      assert a + b == b;
    } else {
      assert (a + b)[0] == a[0] && (a + b)[1..] == a[1..] + b;
      EmptyKeyEmitted(a[1..], b, maxSeq);
    }
  }

  /** The versions of the empty key come before all others. */
  lemma {:induction false} EmptyKeyRun(es: seq<Entry>, keys: iset<Bytes>) returns (p: nat)
    requires Sorted(es) && InSpace(es, keys) && SeparableSpace(keys)
    ensures p <= |es|
    ensures forall i :: 0 <= i < p ==> UserKeyOf(es[i]) == []
    ensures forall i :: p <= i < |es| ==> UserKeyOf(es[i]) != []
  {
    if es == [] {
      p := 0;
    } else if UserKeyOf(es[0]) != [] {
      p := 0;
      FirstUserKeyLeast(es, keys);
      forall i | 0 <= i < |es| ensures UserKeyOf(es[i]) != [] {
        if i > 0 { assert es[i] == es[1..][i - 1]; }
      }
    } else {
      var q := EmptyKeyRun(es[1..], keys);
      p := q + 1;
    }
  }

  lemma {:induction false} TakenOut(a: seq<Entry>, b: seq<Entry>, i: nat)
    requires a != [] && i < |b| && b[i] == a[0] && multiset(a) == multiset(b)
    ensures multiset(a[1..]) == multiset(b[..i] + b[i + 1..]) && b == b[..i] + ([b[i]] + b[i + 1..])
  {
    var front, back := b[..i], b[i + 1..];
    assert a == [a[0]] + a[1..];
    assert b == front + ([b[i]] + back);
    assert multiset(b) == multiset(front) + (multiset{b[i]} + multiset(back));
    assert multiset(a) == multiset{a[0]} + multiset(a[1..]);
    assert multiset(front + back) == multiset(front) + multiset(back);
    assert multiset(a[1..]) == multiset(a) - multiset{a[0]};
  }

  /** How many versions are visible does not depend on the order. */
  lemma {:induction false} VisibleCount(a: seq<Entry>, b: seq<Entry>, userKey: Bytes, maxSeq: nat)
    requires multiset(a) == multiset(b)
    ensures |VisibleVersions(a, userKey, maxSeq)| == |VisibleVersions(b, userKey, maxSeq)|
    decreases |a|
  {
    hide Visible;
    if a == [] {
      assert |multiset(b)| == 0;
    } else {
      assert a[0] in multiset(b);
      var i :| 0 <= i < |b| && b[i] == a[0];
      var front, back := b[..i], b[i + 1..];
      TakenOut(a, b, i);
      VisibleVersionsConcat(front, [b[i]] + back, userKey, maxSeq);
      VisibleVersionsConcat(front, back, userKey, maxSeq);
      assert ([b[i]] + back)[1..] == back;
      VisibleCount(a[1..], front + back, userKey, maxSeq);
    }
  }

  /** A scan agrees with point reads exactly when the empty user key has at most one visible
      version: the filter cannot remember having emitted an empty first key. */
  lemma {:induction false} ScanAgreesIff(es: seq<Entry>, maxSeq: nat, keys: iset<Bytes>)
    requires Sorted(es) && InSpace(es, keys) && SeparableSpace(keys)
    ensures AgreesWithReads(Emitted(es, None, maxSeq), es, maxSeq) <==> |VisibleVersions(es, [], maxSeq)| <= 1
  {
    hide Less, Emitted, FirstVisible, VisibleVersions, UserKey, UserKeysAscend, SeparableSpace;
    var p := EmptyKeyRun(es, keys);
    var a, b := es[..p], es[p..];
    assert es == a + b;
    assert forall e :: e in a ==> UserKeyOf(e) == [];
    assert forall e :: e in b ==> UserKeyOf(e) != [];
    EmptyKeyEmitted(a, b, maxSeq);
    VisibleVersionsConcat(a, b, [], maxSeq);
    VisibleVersionsAbsent(b, [], maxSeq);
    VisibleVersionsHead(a, [], maxSeq);
    var v, w := VisibleVersions(a, [], maxSeq), Emitted(b, None, maxSeq);
    if |v| > 1 {
      TwiceTheSameKey(v, w, maxSeq);
    } else {
      ScanBehindEmptyKey(es, p, maxSeq, keys);
      OneEmptyVersion(a, b, v, w, maxSeq);
    }
  }

  lemma {:induction false} ScanBehindEmptyKey(es: seq<Entry>, p: nat, maxSeq: nat, keys: iset<Bytes>)
    requires Sorted(es) && InSpace(es, keys) && SeparableSpace(keys) && p <= |es|
    requires forall i :: p <= i < |es| ==> UserKeyOf(es[i]) != []
    ensures AgreesWithReads(Emitted(es[p..], None, maxSeq), es[p..], maxSeq)
  {
    hide Less, Emitted, FirstVisible, UserKey, AgreesWithReads;
    ScanAgreesWithReads(es[p..], maxSeq, keys - iset{[]});
  }

  lemma {:induction false} TwiceTheSameKey(v: seq<Entry>, w: seq<Entry>, maxSeq: nat)
    requires |v| > 1 && forall e :: e in v ==> Visible(e, [], maxSeq)
    ensures !UserKeysAscend(v + w)
  {
    assert (v + w)[0] in v && (v + w)[1] in v;
    LessIrreflexive([]);
  }

  lemma {:induction false} EmptyKeySplit(a: seq<Entry>, b: seq<Entry>, u: Bytes, maxSeq: nat)
    requires forall e :: e in a ==> UserKeyOf(e) == []
    requires forall e :: e in b ==> UserKeyOf(e) != []
    ensures FirstVisible(a + b, u, maxSeq) ==
            if u == [] then FirstVisible(a, [], maxSeq) else FirstVisible(b, u, maxSeq)
  {
    hide FirstVisible, UserKey;
    FirstVisibleConcat(a, b, u, maxSeq);
  }

  lemma {:induction false} OneEmptyVersion(a: seq<Entry>, b: seq<Entry>, v: seq<Entry>, w: seq<Entry>, maxSeq: nat)
    requires forall e :: e in a ==> UserKeyOf(e) == []
    requires forall e :: e in b ==> UserKeyOf(e) != []
    requires AgreesWithReads(w, b, maxSeq)
    requires |v| <= 1 && forall e :: e in v ==> UserKeyOf(e) == []
    requires FirstVisible(a, [], maxSeq) == if v == [] then None else Some(v[0])
    ensures AgreesWithReads(v + w, a + b, maxSeq)
  {
    hide Less, FirstVisible, UserKey, UserKeysAscend;
    var out := v + w;
    forall e | e in w ensures UserKeyOf(e) != [] {
      assert FirstVisible(b, UserKeyOf(e), maxSeq).value in b;
    }
    EmptyKeyFirst(v, w);
    forall e | e in out ensures FirstVisible(a + b, UserKeyOf(e), maxSeq) == Some(e) {
      EmptyKeySplit(a, b, UserKeyOf(e), maxSeq);
      assert e in v || e in w;
    }
    forall u | FirstVisible(a + b, u, maxSeq).Some? ensures FirstVisible(a + b, u, maxSeq).value in out {
      EmptyKeySplit(a, b, u, maxSeq);
    }
  }

  lemma {:induction false} EmptyKeyFirst(v: seq<Entry>, w: seq<Entry>)
    requires |v| <= 1 && forall e :: e in v ==> UserKeyOf(e) == []
    requires UserKeysAscend(w) && forall e :: e in w ==> UserKeyOf(e) != []
    ensures UserKeysAscend(v + w)
  {
    var out := v + w;
    forall i, j | 0 <= i < j < |out| ensures Less(UserKeyOf(out[i]), UserKeyOf(out[j])) {
      assert out[j] == w[j - |v|];
      if i < |v| { assert out[i] in v && out[j] in w; }
    }
  }
}
