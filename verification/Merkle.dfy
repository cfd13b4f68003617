/**
The anti-entropy Merkle tree (cluster/antientropy/tree.go) and the breadth-first descent that
finds differing leaves (cluster/antientropy/reconcile.go). Hash functions are parameters;
everything holds for every choice of them.
*/
module Merkle {
  import opened Bytes
  import opened Timestamps

  /** A 64-bit hash, bit by bit. */
  type Hash = b: seq<bool> | |b| == 64 witness Zeros(64)

  const NIL: Hash := Zeros(64)

  function Zeros(n: nat): (z: seq<bool>)
    ensures |z| == n
  {
    if n == 0 then [] else [false] + Zeros(n - 1)
  }

  datatype Entry = Entry(key: Bytes, ts: Timestamp, deleted: bool)

  // ----- numbering nodes -----

  function Pow(f: nat, k: nat): (n: nat)
    ensures f >= 1 ==> n >= 1
  {
    if k == 0 then 1 else f * Pow(f, k - 1)
  }

  /** The parent of node i, and which child of it i is. */
  function Parent(f: nat, i: nat): nat
    requires f >= 1
  {
    i / f
  }

  function Digit(f: nat, i: nat): (c: nat)
    requires f >= 1
    ensures c < f
  {
    i % f
  }

  function Child(f: nat, i: nat, c: nat): nat {
    i * f + c
  }

  lemma {:induction false} ParentDigit(f: nat, i: nat)
    requires f >= 1
    ensures Child(f, Parent(f, i), Digit(f, i)) == i
  {
  }

  lemma {:induction false} ChildNumber(f: nat, i: nat, c: nat)
    requires c < f
    ensures Parent(f, Child(f, i, c)) == i && Digit(f, Child(f, i, c)) == c
  {
    ModUnique(i * f + c, f, i, c);
  }

  /** The child-index path from the root to node i of level k. */
  function PathOf(f: nat, k: nat, i: nat): (path: seq<nat>)
    requires f >= 1
    ensures |path| == k
  {
    if k == 0 then [] else PathOf(f, k - 1, Parent(f, i)) + [Digit(f, i)]
  }

  predicate PathOk(f: nat, path: seq<nat>) {
    forall j :: 0 <= j < |path| ==> path[j] < f
  }

  /** The number, within its level, of the node a path leads to. */
  function FlatIndex(f: nat, path: seq<nat>): nat {
    if path == [] then 0 else Child(f, FlatIndex(f, path[..|path| - 1]), path[|path| - 1])
  }

  lemma {:induction false} PathRoundTrip(f: nat, k: nat, i: nat)
    requires f >= 1 && i < Pow(f, k)
    ensures PathOk(f, PathOf(f, k, i)) && FlatIndex(f, PathOf(f, k, i)) == i
  {
    hide Parent, Digit, Child, Pow;
    if k > 0 {
      ParentBelow(f, k, i);
      PathRoundTrip(f, k - 1, Parent(f, i));
      assert PathOf(f, k, i)[..k - 1] == PathOf(f, k - 1, Parent(f, i));
      ParentDigit(f, i);
    } else {
      assert Pow(f, 0) == 1 by { PowZero(f); }
    }
  }

  lemma {:induction false} PowZero(f: nat)
    ensures Pow(f, 0) == 1
  {
  }

  lemma {:induction false} ParentBelow(f: nat, k: nat, i: nat)
    requires f >= 1 && k > 0 && i < Pow(f, k)
    ensures Parent(f, i) < Pow(f, k - 1)
  {
    if Parent(f, i) >= Pow(f, k - 1) { MulMonotone(f, Pow(f, k - 1), i / f); }
  }

  lemma {:induction false} ChildBelow(f: nat, k: nat, i: nat, c: nat)
    requires i < Pow(f, k) && c < f
    ensures Child(f, i, c) < Pow(f, k + 1)
  {
    MulMonotone(f, i + 1, Pow(f, k));
  }

  lemma {:induction false} MulMonotone(f: nat, a: nat, b: nat)
    requires a <= b
    ensures f * a <= f * b
  {
    assert f * b == f * a + f * (b - a);
  }

  lemma {:induction false} IndexRoundTrip(f: nat, path: seq<nat>)
    requires f >= 1 && PathOk(f, path)
    ensures FlatIndex(f, path) < Pow(f, |path|) && PathOf(f, |path|, FlatIndex(f, path)) == path
  {
    hide Parent, Digit, Child, Pow, PathOf;
    if path != [] {
      var n := |path| - 1;
      var up, c := FlatIndex(f, path[..n]), path[n];
      IndexRoundTrip(f, path[..n]);
      PathOfChild(f, n, up, c);
      ChildBelow(f, n, up, c);
      assert path == path[..n] + [c];
    } else {
      PowZero(f);
      NoPath(f, 0);
    }
  }

  lemma {:induction false} NoPath(f: nat, i: nat)
    requires f >= 1
    ensures PathOf(f, 0, i) == []
  {
  }

  lemma {:induction false} PathOfChild(f: nat, k: nat, i: nat, c: nat)
    requires c < f
    ensures PathOf(f, k + 1, Child(f, i, c)) == PathOf(f, k, i) + [c]
  {
    hide Parent, Digit, Child;
    ChildNumber(f, i, c);
  }

  /** The loop of PathForBucket, digits from the last. */
  method PathForBucket(f: nat, depth: nat, bucket: nat) returns (path: seq<nat>)
    requires f >= 1
    ensures path == PathOf(f, depth, bucket)
  {
    path := [];
    var n: nat := bucket;
    var i := depth;
    while i > 0
      invariant 0 <= i <= depth && PathOf(f, i, n) + path == PathOf(f, depth, bucket)
    {
      i := i - 1;
      path := [Digit(f, n)] + path;
      n := Parent(f, n);
    }
  }

  // ----- internal nodes -----

  /** The hashes of the children of node i, taken from the level below. */
  function Children(f: nat, below: seq<Hash>, i: nat): (cs: seq<Hash>)
    requires (i + 1) * f <= |below|
    ensures |cs| == f
  {
    assert (i + 1) * f == i * f + f;
    below[i * f..i * f + f]
  }

  predicate Sized(f: nat, depth: nat, levels: seq<seq<Hash>>) {
    |levels| == depth + 1 && forall k :: 0 <= k <= depth ==> |levels[k]| == Pow(f, k)
  }

  lemma {:induction false} ChildRange(f: nat, k: nat, i: nat)
    requires i < Pow(f, k)
    ensures (i + 1) * f <= Pow(f, k + 1)
  {
    MulMonotone(f, i + 1, Pow(f, k));
  }

  /** Node i of level k carries the hash of its children. */
  predicate Hashed(f: nat, depth: nat, levels: seq<seq<Hash>>, hc: seq<Hash> -> Hash, k: nat, i: nat)
    requires Sized(f, depth, levels) && k < depth && i < Pow(f, k)
  {
    HashOf(f, levels[k + 1], hc, i, levels[k][i])
  }

  /** h is the hash of the children of node i. */
  predicate HashOf(f: nat, below: seq<Hash>, hc: seq<Hash> -> Hash, i: nat, h: Hash) {
    (i + 1) * f <= |below| && h == hc(Children(f, below, i))
  }

  predicate Final(f: nat, depth: nat, levels: seq<seq<Hash>>, hc: seq<Hash> -> Hash)
    requires Sized(f, depth, levels)
  {
    forall k, i: nat :: 0 <= k < depth && i < Pow(f, k) ==> Hashed(f, depth, levels, hc, k, i)
  }

  /** A finished tree is determined by its leaves. */
  lemma {:induction false} LeavesDetermine(f: nat, depth: nat, a: seq<seq<Hash>>, b: seq<seq<Hash>>,
                                           hc: seq<Hash> -> Hash, k: nat)
    requires Sized(f, depth, a) && Sized(f, depth, b) && Final(f, depth, a, hc) && Final(f, depth, b, hc)
    requires k <= depth && a[depth] == b[depth]
    ensures a[k] == b[k]
    decreases depth - k
  {
    if k < depth {
      LeavesDetermine(f, depth, a, b, hc, k + 1);
      forall i | 0 <= i < Pow(f, k) ensures a[k][i] == b[k][i] {
        assert Hashed(f, depth, a, hc, k, i) && Hashed(f, depth, b, hc, k, i);
      }
    }
  }

  // ----- leaves -----

  function Xor(a: Hash, b: Hash): (r: Hash)
    ensures forall i :: 0 <= i < 64 ==> r[i] == (a[i] != b[i])
  {
    seq(64, i requires 0 <= i < 64 => a[i] != b[i])
  }

  /** What an entry adds to bucket b. */
  function Share(e: Entry, b: nat, bucket: Bytes -> nat, eh: Entry -> Hash): Hash {
    if bucket(e.key) == b then eh(e) else NIL
  }

  /** A leaf: the shares of all entries, combined by exclusive or. */
  function Leaf(es: seq<Entry>, b: nat, bucket: Bytes -> nat, eh: Entry -> Hash): Hash {
    if es == [] then NIL else Xor(Leaf(es[..|es| - 1], b, bucket, eh), Share(es[|es| - 1], b, bucket, eh))
  }

  lemma {:induction false} XorSwap(a: Hash, x: Hash, y: Hash)
    ensures Xor(Xor(a, x), y) == Xor(Xor(a, y), x)
  {
  }

  lemma {:induction false} XorTwice(a: Hash, x: Hash)
    ensures Xor(Xor(a, x), x) == a
  {
  }

  /** Leaving out an element leaves the last one in its place. */
  lemma {:induction false} CutBeforeLast<T>(es: seq<T>, i: nat)
    requires i < |es| - 1
    ensures var n, rest := |es| - 1, es[..i] + es[i + 1..];
            rest[..n - 1] == es[..n][..i] + es[..n][i + 1..] && rest[n - 1] == es[n]
  {
    var n, rest := |es| - 1, es[..i] + es[i + 1..];
    var a, b := rest[..n - 1], es[..n][..i] + es[..n][i + 1..];
    forall j | 0 <= j < |a| ensures a[j] == b[j] {
      if j < i {
        assert a[j] == es[j];
      } else {
        assert a[j] == es[j + 1];
      }
    }
    assert a == b;
  }

  lemma {:induction false} LeafWithout(es: seq<Entry>, i: nat, b: nat, bucket: Bytes -> nat, eh: Entry -> Hash)
    requires i < |es|
    ensures Leaf(es, b, bucket, eh) == Xor(Leaf(es[..i] + es[i + 1..], b, bucket, eh), Share(es[i], b, bucket, eh))
  {
    hide Share, Xor;
    var n := |es| - 1;
    if i == n {
      assert es[..i] + es[i + 1..] == es[..n];
    } else {
      var rest := es[..i] + es[i + 1..];
      LeafWithout(es[..n], i, b, bucket, eh);
      CutBeforeLast(es, i);
      XorSwap(Leaf(rest[..n - 1], b, bucket, eh), Share(es[i], b, bucket, eh), Share(es[n], b, bucket, eh));
    }
  }

  lemma {:induction false} DropOne(es: seq<Entry>, i: nat)
    requires i < |es|
    ensures multiset(es[..i] + es[i + 1..]) == multiset(es) - multiset{es[i]}
  {
    assert es == es[..i] + [es[i]] + es[i + 1..];
  }

  /** The last element of one list stands somewhere in its permutation. */
  lemma {:induction false} SameElsewhere(es: seq<Entry>, fs: seq<Entry>) returns (i: nat)
    requires es != [] && multiset(es) == multiset(fs)
    ensures i < |fs| && fs[i] == es[|es| - 1] && multiset(es[..|es| - 1]) == multiset(fs[..i] + fs[i + 1..])
  {
    var n := |es| - 1;
    assert es[n] in multiset(es);
    i :| 0 <= i < |fs| && fs[i] == es[n];
    DropOne(es, n);
    DropOne(fs, i);
    assert es[..n] + es[n + 1..] == es[..n];
  }

  /** Leaves do not depend on the order of the entries. */
  lemma {:induction false} LeafOrderFree(es: seq<Entry>, fs: seq<Entry>, b: nat, bucket: Bytes -> nat,
                                         eh: Entry -> Hash)
    requires multiset(es) == multiset(fs)
    ensures Leaf(es, b, bucket, eh) == Leaf(fs, b, bucket, eh)
    decreases |es|
  {
    hide Share, Xor;
    if es == [] {
      assert |multiset(fs)| == |fs|;
    } else {
      var n := |es| - 1;
      var i := SameElsewhere(es, fs);
      LeafOrderFree(es[..n], fs[..i] + fs[i + 1..], b, bucket, eh);
      LeafWithout(fs, i, b, bucket, eh);
    }
  }
}
