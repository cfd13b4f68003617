/**
The Merkle tree object, its construction from a stream of entries, and the breadth-first
comparison of two trees (cluster/antientropy/tree.go, reconcile.go).
*/
module MerkleTree {
  import opened Optional
  import opened Bytes
  import opened Merkle

  const MAX_DEPTH: nat := 8
  const MAX_INT: nat := 0x7FFF_FFFF_FFFF_FFFF

  // ----- which nodes a descent reaches -----

  /** Node i of level k differs between the trees, and so does every node above it but the root. */
  predicate Reached(f: nat, a: seq<seq<Hash>>, b: seq<seq<Hash>>, k: nat, i: nat)
    requires f >= 1
  {
    if k == 0 then i == 0
    else
      && k < |a| && k < |b| && i < |a[k]| && i < |b[k]| && a[k][i] != b[k][i]
      && Reached(f, a, b, k - 1, Parent(f, i))
  }

  /** The reached nodes of level k numbered from lo up to hi, in order. */
  function Reaches(f: nat, a: seq<seq<Hash>>, b: seq<seq<Hash>>, k: nat, lo: nat, hi: nat): (r: seq<nat>)
    requires f >= 1
    decreases hi
  {
    if hi <= lo then []
    else Reaches(f, a, b, k, lo, hi - 1) + (if Reached(f, a, b, k, hi - 1) then [hi - 1] else [])
  }

  lemma {:induction false} ReachesIs(f: nat, a: seq<seq<Hash>>, b: seq<seq<Hash>>, k: nat, lo: nat, hi: nat,
                                     r: seq<nat>)
    requires f >= 1 && r == Reaches(f, a, b, k, lo, hi)
    ensures forall j :: 0 <= j < |r| ==> lo <= r[j] < hi && Reached(f, a, b, k, r[j])
    ensures forall i: nat :: lo <= i < hi && Reached(f, a, b, k, i) ==> i in r
    ensures forall i, j :: 0 <= i < j < |r| ==> r[i] < r[j]
    decreases hi
  {
    hide Reached;
    if lo < hi {
      var prev := Reaches(f, a, b, k, lo, hi - 1);
      ReachesIs(f, a, b, k, lo, hi - 1, prev);
      assert Reached(f, a, b, k, hi - 1) ==> r[|r| - 1] == hi - 1;
      forall i: nat | lo <= i < hi && Reached(f, a, b, k, i) ensures i in r {
        if i < hi - 1 { assert i in prev; }
      }
    }
  }

  lemma {:induction false} ReachesConcat(f: nat, a: seq<seq<Hash>>, b: seq<seq<Hash>>, k: nat, lo: nat, mid: nat,
                                         hi: nat)
    requires f >= 1 && lo <= mid <= hi
    ensures Reaches(f, a, b, k, lo, hi) == Reaches(f, a, b, k, lo, mid) + Reaches(f, a, b, k, mid, hi)
    decreases hi
  {
    hide Reached;
    if mid < hi { ReachesConcat(f, a, b, k, lo, mid, hi - 1); }
  }

  /** Taking the first reached node from t on. */
  lemma {:induction false} ReachesFirst(f: nat, a: seq<seq<Hash>>, b: seq<seq<Hash>>, k: nat, t: nat, n: nat)
    requires f >= 1 && t <= n && Reaches(f, a, b, k, t, n) != []
    ensures var x := Reaches(f, a, b, k, t, n)[0];
      && t <= x < n && Reached(f, a, b, k, x) && Reaches(f, a, b, k, t, x) == []
      && Reaches(f, a, b, k, t, n) == [x] + Reaches(f, a, b, k, x + 1, n)
  {
    hide Reached, Reaches;
    var r := Reaches(f, a, b, k, t, n);
    var x := r[0];
    ReachesIs(f, a, b, k, t, n, r);
    assert x in r;
    ReachesConcat(f, a, b, k, t, x, n);
    ReachesConcat(f, a, b, k, x, x + 1, n);
    var before := Reaches(f, a, b, k, t, x);
    ReachesIs(f, a, b, k, t, x, before);
    assert before == [];
    assert Reaches(f, a, b, k, x, x + 1) == [x] by { ReachesOne(f, a, b, k, x); }
  }

  lemma {:induction false} ReachesOne(f: nat, a: seq<seq<Hash>>, b: seq<seq<Hash>>, k: nat, x: nat)
    requires f >= 1 && Reached(f, a, b, k, x)
    ensures Reaches(f, a, b, k, x, x + 1) == [x]
  {
    hide Reached;
    assert Reaches(f, a, b, k, x, x) == [];
  }

  /** Where no node is reached, none of their children is. */
  lemma {:induction false} NothingBelow(f: nat, a: seq<seq<Hash>>, b: seq<seq<Hash>>, k: nat, t: nat, x: nat)
    requires f >= 1 && t <= x && Reaches(f, a, b, k, t, x) == []
    ensures Child(f, t, 0) <= Child(f, x, 0) && Reaches(f, a, b, k + 1, Child(f, t, 0), Child(f, x, 0)) == []
  {
    hide Reaches, Child, Parent, Reached;
    ChildMonotone(f, t, x);
    var r := Reaches(f, a, b, k + 1, Child(f, t, 0), Child(f, x, 0));
    ReachesIs(f, a, b, k + 1, Child(f, t, 0), Child(f, x, 0), r);
    ReachesIs(f, a, b, k, t, x, []);
    assert r != [] ==> Child(f, t, 0) <= r[0] < Child(f, x, 0) && Reached(f, a, b, k + 1, r[0]);
    if r != [] {
      ParentBetween(f, t, x, r[0]);
      ReachedParent(f, a, b, k, r[0]);
    }
  }

  lemma {:induction false} ReachedParent(f: nat, a: seq<seq<Hash>>, b: seq<seq<Hash>>, k: nat, i: nat)
    requires f >= 1 && Reached(f, a, b, k + 1, i)
    ensures Reached(f, a, b, k, Parent(f, i))
  {
  }

  lemma {:induction false} ChildMonotone(f: nat, t: nat, x: nat)
    requires t <= x
    ensures Child(f, t, 0) <= Child(f, x, 0)
  {
    MulMonotone(f, t, x);
  }

  lemma {:induction false} ParentBetween(f: nat, t: nat, x: nat, i: nat)
    requires f >= 1 && Child(f, t, 0) <= i < Child(f, x, 0)
    ensures t <= Parent(f, i) < x
  {
    var p := i / f;
    assert i == p * f + i % f && 0 <= i % f < f;
    if p < t { MulMonotone(f, p + 1, t); }
    if p >= x { MulMonotone(f, x, p); }
  }

  /** A child is reached exactly if it differs and its parent is reached. */
  lemma {:induction false} ReachedChild(f: nat, depth: nat, a: seq<seq<Hash>>, b: seq<seq<Hash>>, k: nat, x: nat,
                                        c: nat)
    requires f >= 1 && Sized(f, depth, a) && Sized(f, depth, b) && k < depth && x < Pow(f, k) && c < f
    requires Reached(f, a, b, k, x)
    ensures Child(f, x, c) < Pow(f, k + 1)
    ensures Reached(f, a, b, k + 1, Child(f, x, c)) <==> a[k + 1][Child(f, x, c)] != b[k + 1][Child(f, x, c)]
  {
    ChildBelow(f, k, x, c);
    ChildNumber(f, x, c);
  }

  // ----- the tree -----

  /** The entries old enough to take part. */
  function Settled(es: seq<Entry>, cutoff: int): seq<Entry> {
    if es == [] then []
    else Settled(es[..|es| - 1], cutoff) + (if es[|es| - 1].ts.wall >= cutoff then [] else [es[|es| - 1]])
  }

  lemma {:induction false} LeafNext(es: seq<Entry>, e: Entry, b: nat, bucket: Bytes -> nat, eh: Entry -> Hash)
    ensures Leaf(es + [e], b, bucket, eh) ==
            if bucket(e.key) == b then Xor(Leaf(es, b, bucket, eh), eh(e)) else Leaf(es, b, bucket, eh)
  {
    hide Xor;
    assert (es + [e])[..|es|] == es;
    XorNil(Leaf(es, b, bucket, eh));
  }

  lemma {:induction false} XorNil(a: Hash)
    ensures Xor(a, NIL) == a
  {
    ZerosAre(64);
  }

  lemma {:induction false} ZerosAre(n: nat)
    ensures forall i :: 0 <= i < n ==> !Zeros(n)[i]
  {
    if n > 0 { ZerosAre(n - 1); }
  }

  lemma {:induction false} PowMonotone(f: nat, k: nat, d: nat)
    requires f >= 1 && k <= d
    ensures Pow(f, k) <= Pow(f, d)
    decreases d - k
  {
    if k < d {
      MulMonotone(Pow(f, k), 1, f);
      PowMonotone(f, k + 1, d);
    }
  }

  class Tree {
    const fanout: nat
    const depth: nat
    const hash: Bytes -> nat           // of keys
    const entryHash: Entry -> Hash
    const hashChildren: seq<Hash> -> Hash
    var levels: seq<seq<Hash>>
    ghost var entries: seq<Entry>      // accumulated so far

    ghost predicate Valid()
      reads this
    {
      && fanout >= 2 && 1 <= depth <= MAX_DEPTH && Sized(fanout, depth, levels)
      && forall b :: 0 <= b < Pow(fanout, depth) ==> levels[depth][b] == Leaf(entries, b, BucketFor, entryHash)
    }

    /** The bucket of a key. */
    function BucketFor(key: Bytes): (b: nat)
    {
      if fanout == 0 then 0 else hash(key) % Pow(fanout, depth)
    }

    ghost predicate Finished()
      requires Valid()
      reads this
    {
      Final(fanout, depth, levels, hashChildren)
    }

    constructor (fanout: nat, depth: nat, levels: seq<seq<Hash>>, hash: Bytes -> nat, entryHash: Entry -> Hash,
                 hashChildren: seq<Hash> -> Hash)
      requires fanout >= 2 && 1 <= depth <= MAX_DEPTH && Sized(fanout, depth, levels)
      requires forall b :: 0 <= b < Pow(fanout, depth) ==> levels[depth][b] == NIL
      ensures Valid() && entries == [] && this.fanout == fanout && this.depth == depth && this.hash == hash
      ensures this.entryHash == entryHash && this.hashChildren == hashChildren
    {
      this.fanout, this.depth, this.levels := fanout, depth, levels;
      this.hash, this.entryHash, this.hashChildren := hash, entryHash, hashChildren;
      entries := [];
    }

    /** Mixes an entry into its leaf. */
    method AccumulateEntry(e: Entry)
      requires Valid()
      modifies this
      ensures Valid() && entries == old(entries) + [e]
    {
      hide Xor, Leaf;
      var b := BucketFor(e.key);
      BucketBound(e.key);
      forall i | 0 <= i < Pow(fanout, depth)
        ensures Leaf(entries + [e], i, BucketFor, entryHash) ==
                if b == i then Xor(levels[depth][i], entryHash(e)) else levels[depth][i]
      {
        LeafNext(entries, e, i, BucketFor, entryHash);
      }
      var leaves := levels[depth];
      leaves := leaves[b := Xor(leaves[b], entryHash(e))];
      levels := levels[depth := leaves];
      entries := entries + [e];
    }

    lemma {:induction false} BucketBound(key: Bytes)
      requires fanout >= 1
      ensures BucketFor(key) < Pow(fanout, depth)
    {
    }

    /** Internal nodes, from the leaves up. */
    method Finalize()
      requires Valid()
      modifies this`levels
      ensures Valid() && Finished()
    {
      var k: int := depth - 1;
      while k >= 0
        invariant -1 <= k < depth && Valid()
        invariant forall l, i: nat :: k < l < depth && i < Pow(fanout, l) ==>
          Hashed(fanout, depth, levels, hashChildren, l, i)
      {
        FinalizeLevel(k);
        k := k - 1;
      }
    }

    method FinalizeLevel(k: nat)
      requires Valid() && k < depth
      requires forall l, i: nat :: k < l < depth && i < Pow(fanout, l) ==>
        Hashed(fanout, depth, levels, hashChildren, l, i)
      modifies this`levels
      ensures Valid()
      ensures forall l, i: nat :: k <= l < depth && i < Pow(fanout, l) ==>
        Hashed(fanout, depth, levels, hashChildren, l, i)
    {
      hide Leaf, Pow, HashOf;
      var parents := HashLevel(fanout, depth, levels, hashChildren, k);
      levels := levels[k := parents];
      forall l, i: nat | k <= l < depth && i < Pow(fanout, l)
        ensures Hashed(fanout, depth, levels, hashChildren, l, i)
      {
        if l > k { assert Hashed(fanout, depth, old(levels), hashChildren, l, i); }
      }
    }
  }

  lemma {:induction false} HashOfIs(f: nat, below: seq<Hash>, hc: seq<Hash> -> Hash, i: nat)
    requires (i + 1) * f <= |below|
    ensures HashOf(f, below, hc, i, hc(Children(f, below, i)))
  {
  }

  /** The hashes of a level, from the level below. */
  method HashLevel(f: nat, depth: nat, levels: seq<seq<Hash>>, hc: seq<Hash> -> Hash, k: nat)
    returns (parents: seq<Hash>)
    requires Sized(f, depth, levels) && k < depth
    ensures |parents| == Pow(f, k)
    ensures forall i :: 0 <= i < Pow(f, k) ==> HashOf(f, levels[k + 1], hc, i, parents[i])
  {
    hide Pow, HashOf;
    parents := [];
    var i := 0;
    while i < |levels[k]|
      invariant 0 <= i <= |levels[k]| && |parents| == i
      invariant forall j :: 0 <= j < i ==> HashOf(f, levels[k + 1], hc, j, parents[j])
    {
      ChildRange(f, k, i);
      HashOfIs(f, levels[k + 1], hc, i);
      parents := parents + [hc(Children(f, levels[k + 1], i))];
      i := i + 1;
    }
  }

  function Blank(n: nat): (ls: seq<Hash>)
    ensures |ls| == n && forall i :: 0 <= i < n ==> ls[i] == NIL
  {
    if n == 0 then [] else Blank(n - 1) + [NIL]
  }

  /** Refused exactly for parameters out of range or more leaves than an int can count. */
  method NewTree(fanout: int, depth: int, hash: Bytes -> nat, entryHash: Entry -> Hash, hashChildren: seq<Hash> -> Hash)
    returns (r: Option<Tree>)
    ensures r.Some? <==> fanout >= 2 && 1 <= depth <= MAX_DEPTH && Pow(fanout, depth) <= MAX_INT
    ensures r.Some? ==> fresh(r.value) && r.value.Valid() && r.value.entries == []
    ensures r.Some? ==> r.value.fanout == fanout && r.value.depth == depth && r.value.hash == hash
    ensures r.Some? ==> r.value.entryHash == entryHash && r.value.hashChildren == hashChildren
  {
    if fanout < 2 {
      return None;
    }
    if depth < 1 || depth > MAX_DEPTH {
      return None;
    }
    var levels := BlankLevels(fanout, depth);
    if levels.None? {
      return None;
    }
    var t := new Tree(fanout, depth, levels.value, hash, entryHash, hashChildren);
    r := Some(t);
  }

  method BlankLevels(f: nat, depth: nat) returns (r: Option<seq<seq<Hash>>>)
    requires f >= 2
    ensures r.Some? <==> depth == 0 || Pow(f, depth) <= MAX_INT
    ensures r.Some? ==> Sized(f, depth, r.value) && forall b :: 0 <= b < Pow(f, depth) ==> r.value[depth][b] == NIL
  {
    hide Pow;
    var levels: seq<seq<Hash>> := [];
    var size := 1;
    PowZero(f);
    var i := 0;
    while i <= depth
      invariant 0 <= i <= depth + 1 && |levels| == i
      invariant forall k :: 0 <= k < i ==>
        |levels[k]| == Pow(f, k) && forall b :: 0 <= b < |levels[k]| ==> levels[k][b] == NIL
      invariant size == Pow(f, if i <= depth then i else depth)
      invariant i > 0 && i <= depth ==> size <= MAX_INT
      invariant i == depth + 1 ==> depth == 0 || size <= MAX_INT
    {
      levels := levels + [Blank(size)];
      if i < depth {
        var next := size * f;
        assert next == Pow(f, i + 1) by { PowNext(f, i); }
        PowMonotone(f, i + 1, depth);
        if next > MAX_INT {
          return None;
        }
        size := next;
      }
      i := i + 1;
    }
    r := Some(levels);
  }

  lemma {:induction false} PowNext(f: nat, k: nat)
    ensures Pow(f, k + 1) == Pow(f, k) * f
  {
  }

  /** The tree of a stream of entries: leaves from the entries old enough, internal nodes from
      the leaves. */
  method BuildTree(es: seq<Entry>, cutoff: int, fanout: int, depth: int, hash: Bytes -> nat, entryHash: Entry -> Hash,
                   hashChildren: seq<Hash> -> Hash) returns (r: Option<Tree>)
    ensures r.Some? <==> fanout >= 2 && 1 <= depth <= MAX_DEPTH && Pow(fanout, depth) <= MAX_INT
    ensures r.Some? ==> fresh(r.value) && r.value.Valid() && r.value.Finished()
    ensures r.Some? ==> r.value.entries == Settled(es, cutoff)
    ensures r.Some? ==> r.value.fanout == fanout && r.value.depth == depth && r.value.hash == hash
    ensures r.Some? ==> r.value.entryHash == entryHash && r.value.hashChildren == hashChildren
  {
    hide Pow, Tree.Valid, Tree.Finished;
    var t := NewTree(fanout, depth, hash, entryHash, hashChildren);
    if t.None? {
      return None;
    }
    var i := 0;
    while i < |es|
      invariant 0 <= i <= |es| && t.value.Valid() && fresh(t.value) && t.value.entries == Settled(es[..i], cutoff)
    {
      assert es[..i + 1][..i] == es[..i];
      if es[i].ts.wall < cutoff {
        t.value.AccumulateEntry(es[i]);
      }
      i := i + 1;
    }
    assert es[..|es|] == es;
    t.value.Finalize();
    r := t;
  }

  /** Two trees built from the same entries in any order are equal, level by level. */
  lemma {:induction false} OrderFree(f: nat, depth: nat, a: seq<seq<Hash>>, b: seq<seq<Hash>>, es: seq<Entry>,
                                     fs: seq<Entry>, bucket: Bytes -> nat, eh: Entry -> Hash, hc: seq<Hash> -> Hash)
    requires Sized(f, depth, a) && Sized(f, depth, b) && Final(f, depth, a, hc) && Final(f, depth, b, hc)
    requires forall i :: 0 <= i < Pow(f, depth) ==> a[depth][i] == Leaf(es, i, bucket, eh)
    requires forall i :: 0 <= i < Pow(f, depth) ==> b[depth][i] == Leaf(fs, i, bucket, eh)
    requires multiset(es) == multiset(fs)
    ensures a == b
  {
    hide Leaf, Pow;
    forall i | 0 <= i < Pow(f, depth) ensures a[depth][i] == b[depth][i] {
      LeafOrderFree(es, fs, i, bucket, eh);
    }
    forall k | 0 <= k <= depth ensures a[k] == b[k] {
      LeavesDetermine(f, depth, a, b, hc, k);
    }
  }

  // ----- the descent -----

  /** The child hashes at a path; refused for a path that is too long or out of range. */
  method ChildrenAt(t: Tree, path: seq<nat>) returns (r: Option<seq<Hash>>)
    requires t.Valid()
    ensures r.Some? <==> |path| < t.depth && PathOk(t.fanout, path)
    ensures r.Some? ==> FlatIndex(t.fanout, path) < Pow(t.fanout, |path|)
    ensures r.Some? ==> |r.value| == t.fanout && forall c :: 0 <= c < t.fanout ==>
      Child(t.fanout, FlatIndex(t.fanout, path), c) < |t.levels[|path| + 1]| &&
      r.value[c] == t.levels[|path| + 1][Child(t.fanout, FlatIndex(t.fanout, path), c)]
  {
    hide Pow, Leaf, Child;
    if |path| >= t.depth {
      return None;
    }
    var idx: nat := 0;
    var i := 0;
    while i < |path|
      invariant 0 <= i <= |path| && PathOk(t.fanout, path[..i]) && idx == FlatIndex(t.fanout, path[..i])
    {
      if path[i] >= t.fanout {
        return None;
      }
      assert path[..i + 1][..i] == path[..i];
      idx := Child(t.fanout, idx, path[i]);
      i := i + 1;
    }
    assert path[..|path|] == path;
    IndexRoundTrip(t.fanout, path);
    ChildRange(t.fanout, |path|, idx);
    r := Some(Children(t.fanout, t.levels[|path| + 1], idx));
    ChildrenAre(t.fanout, t.levels[|path| + 1], idx);
  }

  lemma {:induction false} ChildrenAre(f: nat, below: seq<Hash>, i: nat)
    requires (i + 1) * f <= |below|
    ensures forall c :: 0 <= c < f ==> Child(f, i, c) < |below| && Children(f, below, i)[c] == below[Child(f, i, c)]
  {
    assert (i + 1) * f == i * f + f;
  }

  function Paths(f: nat, k: nat, ids: seq<nat>): (ps: seq<seq<nat>>)
    requires f >= 1
    ensures |ps| == |ids| && forall i :: 0 <= i < |ids| ==> ps[i] == PathOf(f, k, ids[i])
  {
    if ids == [] then [] else Paths(f, k, ids[..|ids| - 1]) + [PathOf(f, k, ids[|ids| - 1])]
  }

  lemma {:induction false} PathsAppend(f: nat, k: nat, ids: seq<nat>, x: nat)
    requires f >= 1
    ensures Paths(f, k, ids + [x]) == Paths(f, k, ids) + [PathOf(f, k, x)]
  {
    hide PathOf;
    assert (ids + [x])[..|ids|] == ids;
  }

  lemma {:induction false} PathsFirst(f: nat, k: nat, ids: seq<nat>)
    requires f >= 1 && ids != []
    ensures Paths(f, k, ids) == [PathOf(f, k, ids[0])] + Paths(f, k, ids[1..])
  {
    hide PathOf, Paths;
  }

  /** The reached nodes among those numbered below n, of the level the frames are on. */
  lemma {:induction false} ReachesNext(f: nat, a: seq<seq<Hash>>, b: seq<seq<Hash>>, k: nat, i: nat)
    requires f >= 1
    ensures Reaches(f, a, b, k, 0, i + 1) == Reaches(f, a, b, k, 0, i) + (if Reached(f, a, b, k, i) then [i] else [])
  {
    hide Reached;
  }

  lemma {:induction false} NothingToBottom(f: nat, a: seq<seq<Hash>>, b: seq<seq<Hash>>, k: nat, d: nat)
    requires f >= 1 && k <= d && Reaches(f, a, b, k, 0, Pow(f, k)) == []
    ensures Reaches(f, a, b, d, 0, Pow(f, d)) == []
    decreases d - k
  {
    hide Reached, Reaches, Pow;
    if k < d {
      NothingBelow(f, a, b, k, 0, Pow(f, k));
      ChildOfEnd(f, k);
      NothingToBottom(f, a, b, k + 1, d);
    }
  }

  lemma {:induction false} ChildOfEnd(f: nat, k: nat)
    ensures Child(f, 0, 0) == 0 && Child(f, Pow(f, k), 0) == Pow(f, k + 1)
  {
  }

  /** Children reached before node t, with those of the rest of the level missing. */
  lemma {:induction false} LevelDone(f: nat, a: seq<seq<Hash>>, b: seq<seq<Hash>>, k: nat, t: nat)
    requires f >= 1 && t <= Pow(f, k) && Reaches(f, a, b, k, t, Pow(f, k)) == []
    ensures Reaches(f, a, b, k + 1, 0, Child(f, t, 0)) == Reaches(f, a, b, k + 1, 0, Pow(f, k + 1))
  {
    hide Reached, Reaches, Pow, Child;
    NothingBelow(f, a, b, k, t, Pow(f, k));
    ChildOfEnd(f, k);
    ReachesConcat(f, a, b, k + 1, 0, Child(f, t, 0), Pow(f, k + 1));
  }

  /** Up to the next reached node x, nothing is missed. */
  lemma {:induction false} SkipTo(f: nat, a: seq<seq<Hash>>, b: seq<seq<Hash>>, k: nat, t: nat, x: nat)
    requires f >= 1 && t <= x && Reaches(f, a, b, k, t, x) == []
    ensures Reaches(f, a, b, k + 1, 0, Child(f, t, 0)) == Reaches(f, a, b, k + 1, 0, Child(f, x, 0))
  {
    hide Reached, Reaches, Child;
    NothingBelow(f, a, b, k, t, x);
    ReachesConcat(f, a, b, k + 1, 0, Child(f, t, 0), Child(f, x, 0));
  }

  lemma {:induction false} ChildSteps(f: nat, x: nat, c: nat)
    ensures Child(f, x, c) + 1 == Child(f, x, c + 1) && Child(f, x, f) == Child(f, x + 1, 0)
  {
  }

  /** One frame: children that differ are leaves found or new frames. */
  method ExpandFrame(local: Tree, peer: Tree, path: seq<nat>, queue0: seq<seq<nat>>, divergent0: seq<nat>,
                     ghost rest: seq<seq<nat>>, ghost x: nat)
    returns (queue: seq<seq<nat>>, divergent: seq<nat>)
    requires local.Valid() && peer.Valid() && local.fanout == peer.fanout && local.depth == peer.depth
    requires |path| < local.depth && x < Pow(local.fanout, |path|) && path == PathOf(local.fanout, |path|, x)
    requires Reached(local.fanout, local.levels, peer.levels, |path|, x)
    requires var below := Reaches(local.fanout, local.levels, peer.levels, |path| + 1, 0, Child(local.fanout, x, 0));
      if |path| + 1 == local.depth then divergent0 == below && queue0 == rest
      else divergent0 == [] && queue0 == rest + Paths(local.fanout, |path| + 1, below)
    ensures var below := Reaches(local.fanout, local.levels, peer.levels, |path| + 1, 0, Child(local.fanout, x + 1, 0));
      if |path| + 1 == local.depth then divergent == below && queue == rest
      else divergent == [] && queue == rest + Paths(local.fanout, |path| + 1, below)
  {
    hide Reached, Reaches, Pow, Child, PathOf, Paths, Leaf;
    var f, k := local.fanout, |path|;
    ghost var a, b := local.levels, peer.levels;
    PathRoundTrip(f, k, x);
    var mine := ChildrenAt(local, path);
    var theirs := ChildrenAt(peer, path);
    queue, divergent := queue0, divergent0;
    var c := 0;
    while c < f
      invariant 0 <= c <= f
      invariant var below := Reaches(f, a, b, k + 1, 0, Child(f, x, c));
        if k + 1 == local.depth then divergent == below && queue == rest
        else divergent == [] && queue == rest + Paths(f, k + 1, below)
    {
      ghost var below := Reaches(f, a, b, k + 1, 0, Child(f, x, c));
      ReachedChild(f, local.depth, a, b, k, x, c);
      ReachesNext(f, a, b, k + 1, Child(f, x, c));
      ChildSteps(f, x, c);
      if mine.value[c] != theirs.value[c] {
        ChildPath(f, k, x, c);
        var childPath := path + [c];
        if k + 1 == local.depth {
          var bucket := FlatIndex(f, childPath);
          assert bucket == Child(f, x, c) by { assert childPath[..k] == path; }
          divergent := divergent + [bucket];
        } else {
          PathsAppend(f, k + 1, below, Child(f, x, c));
          queue := queue + [childPath];
        }
      }
      c := c + 1;
    }
    ChildSteps(f, x, f);
  }

  lemma {:induction false} ChildPath(f: nat, k: nat, x: nat, c: nat)
    requires c < f
    ensures PathOf(f, k + 1, Child(f, x, c)) == PathOf(f, k, x) + [c]
  {
    ChildNumber(f, x, c);
  }

  /** Breadth-first search: exactly the leaves that differ together with everything above them
      but the root, each once and in order. */
  method FindDivergentBuckets(local: Tree, peer: Tree) returns (divergent: seq<nat>)
    requires local.Valid() && peer.Valid() && local.fanout == peer.fanout && local.depth == peer.depth
    ensures divergent ==
      Reaches(local.fanout, local.levels, peer.levels, local.depth, 0, Pow(local.fanout, local.depth))
  {
    hide Reached, Reaches, Pow, Child, PathOf, Paths, Leaf, Frontier;
    var queue: seq<seq<nat>> := [[]];
    divergent := [];
    ghost var f, d, a, b := local.fanout, local.depth, local.levels, peer.levels;
    ghost var k: nat, t: nat := 0, 0;
    StartFrontier(f, d, a, b);
    while queue != []
      invariant 0 <= k < d && Frontier(f, d, a, b, k, t, queue, divergent)
      decreases d - k, |Reaches(f, a, b, k, t, Pow(f, k))|
    {
      if Reaches(f, a, b, k, t, Pow(f, k)) == [] {
        NextLevel(f, d, a, b, k, t, queue, divergent);
        k, t := k + 1, 0;
      }
      ghost var rest, x := PopFrontier(f, d, a, b, k, t, queue, divergent);
      var path := queue[0];
      queue := queue[1..];
      queue, divergent := ExpandFrame(local, peer, path, queue, divergent, rest, x);
      PushFrontier(f, d, a, b, k, x, queue, divergent, rest);
      t := x + 1;
    }
    EndFrontier(f, d, a, b, k, t, divergent);
  }

  /** Node numbers below t of level k are dealt with: the queue holds the other reached nodes of
      that level and the reached children found so far. */
  ghost predicate Frontier(f: nat, d: nat, a: seq<seq<Hash>>, b: seq<seq<Hash>>, k: nat, t: nat, queue: seq<seq<nat>>,
                           divergent: seq<nat>)
    requires f >= 1
  {
    && k < d && t <= Pow(f, k)
    && var here, below := Reaches(f, a, b, k, t, Pow(f, k)), Reaches(f, a, b, k + 1, 0, Child(f, t, 0));
       if k + 1 == d then divergent == below && queue == Paths(f, k, here)
       else divergent == [] && queue == Paths(f, k, here) + Paths(f, k + 1, below)
  }

  lemma {:induction false} StartFrontier(f: nat, d: nat, a: seq<seq<Hash>>, b: seq<seq<Hash>>)
    requires f >= 1 && d >= 1
    ensures Frontier(f, d, a, b, 0, 0, [[]], [])
  {
    ReachesOne(f, a, b, 0, 0);
    assert Reaches(f, a, b, 1, 0, 0) == [] && Paths(f, 0, [0]) == [[]] && Paths(f, 1, []) == [];
  }

  /** The level is done: its reached children are the next. */
  lemma {:induction false} NextLevel(f: nat, d: nat, a: seq<seq<Hash>>, b: seq<seq<Hash>>, k: nat, t: nat,
                                     queue: seq<seq<nat>>, divergent: seq<nat>)
    requires f >= 1 && Frontier(f, d, a, b, k, t, queue, divergent) && queue != []
    requires Reaches(f, a, b, k, t, Pow(f, k)) == []
    ensures k + 1 < d && Frontier(f, d, a, b, k + 1, 0, queue, divergent)
    ensures Reaches(f, a, b, k + 1, 0, Pow(f, k + 1)) != []
  {
    hide Reached, Reaches, Pow, Child, PathOf, Paths;
    LevelDone(f, a, b, k, t);
    PathsNone(f, k, Reaches(f, a, b, k, t, Pow(f, k)));
    PathsNone(f, k + 1, Reaches(f, a, b, k + 1, 0, Child(f, t, 0)));
    ChildOfEnd(f, k);
    ReachesNone(f, a, b, k + 2);
    PathsNone(f, k + 2, []);
  }

  lemma {:induction false} ReachesNone(f: nat, a: seq<seq<Hash>>, b: seq<seq<Hash>>, k: nat)
    requires f >= 1
    ensures Reaches(f, a, b, k, 0, 0) == []
  {
  }

  /** The first frame of the queue is the next reached node. */
  lemma {:induction false} PopFrontier(f: nat, d: nat, a: seq<seq<Hash>>, b: seq<seq<Hash>>, k: nat, t: nat,
                                       queue: seq<seq<nat>>, divergent: seq<nat>) returns (rest: seq<seq<nat>>, x: nat)
    requires f >= 1 && Frontier(f, d, a, b, k, t, queue, divergent) && Reaches(f, a, b, k, t, Pow(f, k)) != []
    ensures t <= x < Pow(f, k) && Reached(f, a, b, k, x) && queue != [] && queue[0] == PathOf(f, k, x)
    ensures rest == Paths(f, k, Reaches(f, a, b, k, x + 1, Pow(f, k)))
    ensures |Reaches(f, a, b, k, x + 1, Pow(f, k))| < |Reaches(f, a, b, k, t, Pow(f, k))|
    ensures var below := Reaches(f, a, b, k + 1, 0, Child(f, x, 0));
      if k + 1 == d then divergent == below && queue[1..] == rest
      else divergent == [] && queue[1..] == rest + Paths(f, k + 1, below)
  {
    hide Reached, Reaches, Pow, Child, PathOf, Paths;
    var here := Reaches(f, a, b, k, t, Pow(f, k));
    ReachesFirst(f, a, b, k, t, Pow(f, k));
    x := here[0];
    PathsFirst(f, k, here);
    SkipTo(f, a, b, k, t, x);
    assert here[1..] == Reaches(f, a, b, k, x + 1, Pow(f, k));
    rest := Paths(f, k, here[1..]);
  }

  lemma {:induction false} PushFrontier(f: nat, d: nat, a: seq<seq<Hash>>, b: seq<seq<Hash>>, k: nat, x: nat,
                                        queue: seq<seq<nat>>, divergent: seq<nat>, rest: seq<seq<nat>>)
    requires f >= 1 && k < d && x < Pow(f, k) && rest == Paths(f, k, Reaches(f, a, b, k, x + 1, Pow(f, k)))
    requires var below := Reaches(f, a, b, k + 1, 0, Child(f, x + 1, 0));
      if k + 1 == d then divergent == below && queue == rest
      else divergent == [] && queue == rest + Paths(f, k + 1, below)
    ensures Frontier(f, d, a, b, k, x + 1, queue, divergent)
  {
    hide Reached, Reaches, Pow, Child, PathOf, Paths;
  }

  lemma {:induction false} EndFrontier(f: nat, d: nat, a: seq<seq<Hash>>, b: seq<seq<Hash>>, k: nat, t: nat,
                                       divergent: seq<nat>)
    requires f >= 1 && Frontier(f, d, a, b, k, t, [], divergent)
    ensures divergent == Reaches(f, a, b, d, 0, Pow(f, d))
  {
    hide Reached, Reaches, Pow, Child, PathOf, Paths;
    PathsNone(f, k, Reaches(f, a, b, k, t, Pow(f, k)));
    PathsNone(f, k + 1, Reaches(f, a, b, k + 1, 0, Child(f, t, 0)));
    LevelDone(f, a, b, k, t);
    if k + 1 < d { NothingToBottom(f, a, b, k + 1, d); }
  }

  lemma {:induction false} PathsNone(f: nat, k: nat, ids: seq<nat>)
    requires f >= 1
    ensures Paths(f, k, ids) == [] <==> ids == []
  {
    hide PathOf;
  }

  // ----- what the descent finds -----

  /** Children differ only under parents that differ: no two different lists of children of the
      two trees have the same hash. */
  predicate NoCollision(f: nat, depth: nat, a: seq<seq<Hash>>, b: seq<seq<Hash>>)
    requires f >= 1 && Sized(f, depth, a) && Sized(f, depth, b)
  {
    forall k, i: nat :: 0 < k <= depth && i < Pow(f, k) && a[k][i] != b[k][i] ==>
      k == 1 || Differs(f, a, b, k - 1, Parent(f, i))
  }

  predicate Differs(f: nat, a: seq<seq<Hash>>, b: seq<seq<Hash>>, k: nat, i: nat) {
    k < |a| && k < |b| && i < |a[k]| && i < |b[k]| && a[k][i] != b[k][i]
  }

  lemma {:induction false} DifferingReached(f: nat, depth: nat, a: seq<seq<Hash>>, b: seq<seq<Hash>>, k: nat, i: nat)
    requires f >= 1 && Sized(f, depth, a) && Sized(f, depth, b) && NoCollision(f, depth, a, b)
    requires 0 < k <= depth && i < Pow(f, k) && a[k][i] != b[k][i]
    ensures Reached(f, a, b, k, i)
  {
    hide Pow, Parent;
    ParentBelow(f, k, i);
    if k > 1 { DifferingReached(f, depth, a, b, k - 1, Parent(f, i)); } else { PowZero(f); }
  }

  /** Every bucket found differs; without collisions, every differing bucket is found. */
  lemma {:induction false} DivergentAreDiffering(f: nat, depth: nat, a: seq<seq<Hash>>, b: seq<seq<Hash>>,
                                                 found: seq<nat>)
    requires f >= 1 && depth >= 1 && Sized(f, depth, a) && Sized(f, depth, b)
    requires found == Reaches(f, a, b, depth, 0, Pow(f, depth))
    ensures forall j :: 0 <= j < |found| ==> found[j] < Pow(f, depth) && a[depth][found[j]] != b[depth][found[j]]
    ensures forall i, j :: 0 <= i < j < |found| ==> found[i] < found[j]
    ensures NoCollision(f, depth, a, b) ==>
      forall i: nat :: i < Pow(f, depth) && a[depth][i] != b[depth][i] ==> i in found
  {
    hide Reaches, Pow;
    ReachesIs(f, a, b, depth, 0, Pow(f, depth), found);
    if NoCollision(f, depth, a, b) {
      forall i: nat | i < Pow(f, depth) && a[depth][i] != b[depth][i] ensures i in found {
        DifferingReached(f, depth, a, b, depth, i);
      }
    }
  }

  /** Two finished trees never collide under a hash that tells these lists of children apart. */
  lemma {:induction false} InjectiveHash(f: nat, depth: nat, a: seq<seq<Hash>>, b: seq<seq<Hash>>,
                                         hc: seq<Hash> -> Hash)
    requires f >= 1 && Sized(f, depth, a) && Sized(f, depth, b) && Final(f, depth, a, hc) && Final(f, depth, b, hc)
    requires forall k, i: nat :: 0 < k < depth && i < Pow(f, k) ==> TellsApart(f, a, b, hc, k, i)
    ensures NoCollision(f, depth, a, b)
  {
    hide Pow, Parent;
    forall k, i: nat | 1 < k <= depth && i < Pow(f, k) && a[k][i] != b[k][i]
      ensures Differs(f, a, b, k - 1, Parent(f, i))
    {
      ParentBelow(f, k, i);
      var p := Parent(f, i);
      assert Hashed(f, depth, a, hc, k - 1, p) && Hashed(f, depth, b, hc, k - 1, p);
      assert TellsApart(f, a, b, hc, k - 1, p);
      ParentDigit(f, i);
      ChildrenAre(f, a[k], p);
      ChildrenAre(f, b[k], p);
      assert Children(f, a[k], p)[Digit(f, i)] == a[k][i] && Children(f, b[k], p)[Digit(f, i)] == b[k][i];
    }
  }

  predicate TellsApart(f: nat, a: seq<seq<Hash>>, b: seq<seq<Hash>>, hc: seq<Hash> -> Hash, k: nat, i: nat) {
    && k + 1 < |a| && k + 1 < |b| && (i + 1) * f <= |a[k + 1]| && (i + 1) * f <= |b[k + 1]|
    && var x, y := Children(f, a[k + 1], i), Children(f, b[k + 1], i); x != y ==> hc(x) != hc(y)
  }
}
