/**
What a leaf of the anti-entropy tree tells apart (cluster/antientropy/tree.go:158-168,223-242).
An entry is hashed by combining the hashes of its key, of its timestamp and of its deletion
mark with exclusive or, and a leaf combines its entries in the same way: only which parts occur
an odd number of times is left, not which part belongs to which entry.
*/
module LeafHash {
  import opened Bytes
  import opened Timestamps
  import opened Merkle
  import opened MerkleTree

  datatype Part = KeyPart(key: Bytes) | TimePart(ts: Timestamp) | DeletedPart

  const ONE: Hash := Zeros(63) + [true]

  /** sum is xxhash, encode the canonical bytes of a timestamp. */
  function PartHash(p: Part, sum: Bytes -> Hash, encode: Timestamp -> Bytes): Hash {
    match p
    case KeyPart(k) => sum(k)
    case TimePart(ts) => sum(encode(ts))
    case DeletedPart => ONE
  }

  function PartsOf(e: Entry): seq<Part> {
    [KeyPart(e.key), TimePart(e.ts)] + if e.deleted then [DeletedPart] else []
  }

  /** keyH ^ tsH ^ delByte, for whatever hashes the parts have. */
  function EntryHash(e: Entry, h: Part -> Hash): Hash {
    Xor(Xor(h(KeyPart(e.key)), h(TimePart(e.ts))), if e.deleted then h(DeletedPart) else NIL)
  }

  /** The parts of all entries of bucket b. */
  function Parts(es: seq<Entry>, b: nat, bucket: Bytes -> nat): seq<Part> {
    if es == [] then []
    else
      var e := es[|es| - 1];
      Parts(es[..|es| - 1], b, bucket) + if bucket(e.key) == b then PartsOf(e) else []
  }

  function XorAll(ps: seq<Part>, h: Part -> Hash): Hash {
    if ps == [] then NIL else Xor(XorAll(ps[..|ps| - 1], h), h(ps[|ps| - 1]))
  }

  lemma {:induction false} XorAssociates(a: Hash, b: Hash, c: Hash)
    ensures Xor(a, Xor(b, c)) == Xor(Xor(a, b), c)
  {
    var x, y := Xor(a, Xor(b, c)), Xor(Xor(a, b), c);
    forall i | 0 <= i < 64 ensures x[i] == y[i] {
    }
  }

  lemma {:induction false} XorSelf(a: Hash, b: Hash)
    ensures Xor(a, b) == NIL <==> a == b
  {
    var x := Xor(a, b);
    ZerosAre(64);
    if x == NIL {
      forall i | 0 <= i < 64 ensures a[i] == b[i] { assert x[i] == (a[i] != b[i]); }
    }
    if a == b {
      forall i | 0 <= i < 64 ensures x[i] == NIL[i] {
      }
    }
  }

  lemma {:induction false} XorAllConcat(ps: seq<Part>, qs: seq<Part>, h: Part -> Hash)
    ensures XorAll(ps + qs, h) == Xor(XorAll(ps, h), XorAll(qs, h))
    decreases |qs|
  {
    hide Xor;
    if qs == [] {
      assert ps + qs == ps;
      XorNil(XorAll(ps, h));
    } else {
      var n := |qs| - 1;
      assert (ps + qs)[..|ps + qs| - 1] == ps + qs[..n] && (ps + qs)[|ps + qs| - 1] == qs[n];
      XorAllConcat(ps, qs[..n], h);
      XorAssociates(XorAll(ps, h), XorAll(qs[..n], h), h(qs[n]));
    }
  }

  lemma {:induction false} XorAllAppend(ps: seq<Part>, p: Part, h: Part -> Hash)
    ensures XorAll(ps + [p], h) == Xor(XorAll(ps, h), h(p)) && XorAll([], h) == NIL
  {
    assert (ps + [p])[..|ps|] == ps;
  }

  lemma {:induction false} EntryParts(e: Entry, h: Part -> Hash)
    ensures XorAll(PartsOf(e), h) == EntryHash(e, h)
  {
    hide Xor, XorAll;
    var k, t := KeyPart(e.key), TimePart(e.ts);
    XorAllAppend([], k, h);
    XorAllAppend([] + [k], t, h);
    assert [] + [k] + [t] == [k, t];
    NilXor(h(k));
    if e.deleted {
      XorAllAppend([k, t], DeletedPart, h);
    } else {
      assert PartsOf(e) == [k, t];
      XorNil(XorAll([k, t], h));
    }
  }

  lemma {:induction false} NilXor(a: Hash)
    ensures Xor(NIL, a) == a
  {
    ZerosAre(64);
  }

  /** A leaf is the exclusive or of all the parts of its entries. */
  lemma {:induction false} LeafIsParts(es: seq<Entry>, b: nat, bucket: Bytes -> nat, h: Part -> Hash, eh: Entry -> Hash)
    requires forall e :: eh(e) == EntryHash(e, h)
    ensures Leaf(es, b, bucket, eh) == XorAll(Parts(es, b, bucket), h)
  {
    hide Xor, EntryHash, PartsOf;
    if es != [] {
      var n := |es| - 1;
      LeafIsParts(es[..n], b, bucket, h, eh);
      EntryParts(es[n], h);
      var added := if bucket(es[n].key) == b then PartsOf(es[n]) else [];
      XorAllConcat(Parts(es[..n], b, bucket), added, h);
    }
  }

  // ----- what cancels -----

  /** The parts that occur an odd number of times. */
  ghost function Odd(ps: seq<Part>): iset<Part> {
    iset p | multiset(ps)[p] % 2 == 1
  }

  lemma {:induction false} XorAllWithout(ps: seq<Part>, j: nat, h: Part -> Hash)
    requires j < |ps|
    ensures XorAll(ps, h) == Xor(XorAll(ps[..j] + ps[j + 1..], h), h(ps[j]))
  {
    hide Xor;
    var a, b := ps[..j], ps[j + 1..];
    assert ps == (a + [ps[j]]) + b;
    XorAllConcat(a + [ps[j]], b, h);
    XorAllConcat(a, b, h);
    assert (a + [ps[j]])[..|a|] == a;
    XorRight(XorAll(a, h), h(ps[j]), XorAll(b, h));
  }

  lemma {:induction false} XorRight(a: Hash, x: Hash, b: Hash)
    ensures Xor(Xor(a, x), b) == Xor(Xor(a, b), x)
  {
    XorSwap(a, x, b);
  }

  lemma {:induction false} WithoutPart(ps: seq<Part>, j: nat)
    requires j < |ps|
    ensures multiset(ps[..j] + ps[j + 1..]) == multiset(ps) - multiset{ps[j]}
  {
    assert ps == ps[..j] + [ps[j]] + ps[j + 1..];
  }

  /** The last part has a partner. */
  lemma {:induction false} Partner(ps: seq<Part>) returns (j: nat)
    requires ps != [] && Odd(ps) == iset{}
    ensures j < |ps| - 1 && ps[j] == ps[|ps| - 1]
    ensures Odd(ps[..|ps| - 1][..j] + ps[..|ps| - 1][j + 1..]) == iset{}
  {
    var init, p := ps[..|ps| - 1], ps[|ps| - 1];
    assert ps == init + [p];
    assert p in multiset(init) by { assert p !in Odd(ps); assert multiset(ps)[p] == multiset(init)[p] + 1; }
    hide Odd;
    j :| 0 <= j < |init| && init[j] == p;
    var rest := init[..j] + init[j + 1..];
    WithoutPart(init, j);
    PairGone(ps, rest, p);
  }

  lemma {:induction false} PairGone(ps: seq<Part>, rest: seq<Part>, p: Part)
    requires multiset(ps) == multiset(rest) + multiset{p} + multiset{p} && Odd(ps) == iset{}
    ensures Odd(rest) == iset{}
  {
    forall q: Part ensures q !in Odd(rest) {
      assert q !in Odd(ps);
      assert multiset(ps)[q] == multiset(rest)[q] + (if q == p then 2 else 0);
    }
  }

  /** Parts that all occur an even number of times cancel out. */
  lemma {:induction false} EvenCancels(ps: seq<Part>, h: Part -> Hash)
    requires Odd(ps) == iset{}
    ensures XorAll(ps, h) == NIL
    decreases |ps|
  {
    hide Xor, Odd;
    if ps != [] {
      var init, p := ps[..|ps| - 1], ps[|ps| - 1];
      var j := Partner(ps);
      var rest := init[..j] + init[j + 1..];
      XorAllWithout(init, j, h);
      XorTwice(XorAll(rest, h), h(p));
      EvenCancels(rest, h);
    }
  }

  lemma {:induction false} OddConcat(ps: seq<Part>, qs: seq<Part>)
    ensures Odd(ps + qs) == iset{} <==> Odd(ps) == Odd(qs)
  {
    assert forall p: Part :: multiset(ps + qs)[p] == multiset(ps)[p] + multiset(qs)[p];
    if Odd(ps + qs) == iset{} {
      forall p: Part ensures p in Odd(ps) <==> p in Odd(qs) { assert p !in Odd(ps + qs); }
    }
    if Odd(ps) == Odd(qs) {
      forall p: Part ensures p !in Odd(ps + qs) { assert p in Odd(ps) <==> p in Odd(qs); }
    }
  }

  /** Parts that do not cancel out hash to nothing all the same. */
  ghost predicate Collide(ps: seq<Part>, h: Part -> Hash) {
    Odd(ps) != iset{} && XorAll(ps, h) == NIL
  }

  /** Two lists of entries share a leaf exactly if the same keys, the same timestamps and the same
      deletion mark occur in them an odd number of times, unless the parts collide. */
  lemma {:induction false} SameLeafIff(es: seq<Entry>, fs: seq<Entry>, b: nat, bucket: Bytes -> nat, h: Part -> Hash,
                                       eh: Entry -> Hash)
    requires forall e :: eh(e) == EntryHash(e, h)
    requires !Collide(Parts(es, b, bucket) + Parts(fs, b, bucket), h)
    ensures Leaf(es, b, bucket, eh) == Leaf(fs, b, bucket, eh) <==>
      Odd(Parts(es, b, bucket)) == Odd(Parts(fs, b, bucket))
  {
    hide Xor, EntryHash, Parts, Odd, XorAll, Leaf;
    var ps, qs := Parts(es, b, bucket), Parts(fs, b, bucket);
    LeafIsParts(es, b, bucket, h, eh);
    LeafIsParts(fs, b, bucket, h, eh);
    XorAllConcat(ps, qs, h);
    XorSelf(XorAll(ps, h), XorAll(qs, h));
    OddConcat(ps, qs);
    if Odd(ps + qs) == iset{} { EvenCancels(ps + qs, h); }
  }

  /** So replicas that hold the timestamps of two keys of a bucket the other way round have the
      same leaf, whatever the hashes, and are never compared further. */
  lemma {:induction false} SwappedTimestamps(es: seq<Entry>, k: Bytes, l: Bytes, s: Timestamp, t: Timestamp, x: bool,
                                             y: bool, b: nat, bucket: Bytes -> nat, h: Part -> Hash,
                                             eh: Entry -> Hash)
    requires (forall e :: eh(e) == EntryHash(e, h)) && bucket(k) == bucket(l)
    ensures Leaf(es + [Entry(k, s, x), Entry(l, t, y)], b, bucket, eh) ==
      Leaf(es + [Entry(k, t, x), Entry(l, s, y)], b, bucket, eh)
  {
    hide Xor, Leaf;
    TwoMore(es, Entry(k, s, x), Entry(l, t, y), b, bucket, eh);
    TwoMore(es, Entry(k, t, x), Entry(l, s, y), b, bucket, eh);
    if bucket(k) == b {
      SwapTimes(Leaf(es, b, bucket, eh), h(KeyPart(k)), h(KeyPart(l)), h(TimePart(s)), h(TimePart(t)),
                if x then h(DeletedPart) else NIL, if y then h(DeletedPart) else NIL);
    }
  }

  /** With the hashes of the code: two keys of a bucket whose timestamps differ between two replicas
      in this way stay different, since nothing tells their leaves apart. */
  lemma {:induction false} SwapUndetected(k: Bytes, l: Bytes, s: Timestamp, t: Timestamp, bucket: Bytes -> nat,
                                          sum: Bytes -> Hash, encode: Timestamp -> Bytes, eh: Entry -> Hash)
    requires k != l && s != t && bucket(k) == bucket(l)
    requires forall e :: eh(e) == EntryHash(e, p => PartHash(p, sum, encode))
    ensures var es, fs := [Entry(k, s, false), Entry(l, t, false)], [Entry(k, t, false), Entry(l, s, false)];
      && Leaf(es, bucket(k), bucket, eh) == Leaf(fs, bucket(k), bucket, eh)
      && Entry(k, s, false) in es && Entry(k, s, false) !in fs
  {
    hide Leaf, EntryHash;
    var es, fs := [Entry(k, s, false), Entry(l, t, false)], [Entry(k, t, false), Entry(l, s, false)];
    SwappedTimestamps([], k, l, s, t, false, false, bucket(k), bucket, p => PartHash(p, sum, encode), eh);
    assert [] + es == es && [] + fs == fs;
  }

  lemma {:induction false} TwoMore(es: seq<Entry>, e: Entry, f: Entry, b: nat, bucket: Bytes -> nat, eh: Entry -> Hash)
    requires bucket(e.key) == bucket(f.key)
    ensures Leaf(es + [e, f], b, bucket, eh) ==
            if bucket(e.key) == b then Xor(Xor(Leaf(es, b, bucket, eh), eh(e)), eh(f)) else Leaf(es, b, bucket, eh)
  {
    hide Xor, Leaf;
    assert es + [e, f] == es + [e] + [f];
    LeafNext(es, e, b, bucket, eh);
    LeafNext(es + [e], f, b, bucket, eh);
  }

  lemma {:induction false} SwapTimes(a: Hash, k: Hash, l: Hash, s: Hash, t: Hash, x: Hash, y: Hash)
    ensures Xor(Xor(a, Xor(Xor(k, s), x)), Xor(Xor(l, t), y)) == Xor(Xor(a, Xor(Xor(k, t), x)), Xor(Xor(l, s), y))
  {
    var p, q := Xor(Xor(a, Xor(Xor(k, s), x)), Xor(Xor(l, t), y)), Xor(Xor(a, Xor(Xor(k, t), x)), Xor(Xor(l, s), y));
    forall i | 0 <= i < 64 ensures p[i] == q[i] {
      assert p[i] == ((a[i] != ((k[i] != s[i]) != x[i])) != ((l[i] != t[i]) != y[i]));
      assert q[i] == ((a[i] != ((k[i] != t[i]) != x[i])) != ((l[i] != s[i]) != y[i]));
    }
  }
}
