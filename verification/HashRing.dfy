/**
The consistent hash ring (hashring/ring.go): virtual nodes sorted by hash, owners found by
walking clockwise. Hash functions are parameters; sorting is sort.Slice, known by its contract.
*/
module HashRing {
  import opened Bytes

  datatype Node = Node(id: Bytes, addr: Bytes)

  datatype VNode = VNode(hash: nat, id: Bytes)

  // ----- lists of ids -----

  function NodeIds(nodes: seq<Node>): (ids: seq<Bytes>)
    ensures |ids| == |nodes| && forall i :: 0 <= i < |nodes| ==> ids[i] == nodes[i].id
  {
    seq(|nodes|, i requires 0 <= i < |nodes| => nodes[i].id)
  }

  function Ids(vs: seq<VNode>): (ids: seq<Bytes>)
    ensures |ids| == |vs| && forall i :: 0 <= i < |vs| ==> ids[i] == vs[i].id
  {
    seq(|vs|, i requires 0 <= i < |vs| => vs[i].id)
  }

  /** Every id once, in order of first appearance. */
  function Dedup(ids: seq<Bytes>): seq<Bytes> {
    if ids == [] then []
    else
      var init := Dedup(ids[..|ids| - 1]);
      if ids[|ids| - 1] in init then init else init + [ids[|ids| - 1]]
  }

  predicate Distinct(ids: seq<Bytes>) {
    forall i, j :: 0 <= i < j < |ids| ==> ids[i] != ids[j]
  }

  function Without(ids: seq<Bytes>, x: Bytes): seq<Bytes> {
    if ids == [] then []
    else Without(ids[..|ids| - 1], x) + (if ids[|ids| - 1] == x then [] else [ids[|ids| - 1]])
  }

  function Take(ids: seq<Bytes>, n: nat): seq<Bytes> {
    if n <= |ids| then ids[..n] else ids
  }

  lemma {:induction false} DedupIs(ids: seq<Bytes>)
    ensures Distinct(Dedup(ids)) && forall x :: x in Dedup(ids) <==> x in ids
  {
    if ids != [] {
      DedupIs(ids[..|ids| - 1]);
      assert ids == ids[..|ids| - 1] + [ids[|ids| - 1]];
    }
  }

  /** Position k is where its id appears first. */
  ghost predicate FirstAt(ids: seq<Bytes>, k: nat) {
    k < |ids| && forall j :: 0 <= j < k ==> ids[j] != ids[k]
  }

  /** The ids out are those at the steps, where they appear first, in that order. */
  ghost predicate Steps(ids: seq<Bytes>, out: seq<Bytes>, steps: seq<nat>) {
    && |steps| == |out| && (forall i :: 0 <= i < |out| ==> FirstAt(ids, steps[i]) && out[i] == ids[steps[i]])
    && (forall i, j :: 0 <= i < j < |out| ==> steps[i] < steps[j])
  }

  /** Each id once, in the order of first appearance. */
  lemma {:induction false} DedupSteps(ids: seq<Bytes>) returns (steps: seq<nat>)
    ensures Steps(ids, Dedup(ids), steps) && forall k :: FirstAt(ids, k) ==> k in steps
  {
    steps := [];
    if ids != [] {
      hide Dedup, Steps;
      var n := |ids| - 1;
      var init, y := ids[..n], ids[n];
      assert ids == init + [y];
      var before := DedupSteps(init);
      DedupIs(init);
      DedupAppend(init, y);
      StepsNext(init, y, Dedup(init), before);
      steps := if y in init then before else before + [n];
    }
  }

  lemma {:induction false} StepsNext(ids: seq<Bytes>, y: Bytes, out: seq<Bytes>, steps: seq<nat>)
    requires Steps(ids, out, steps) && forall k :: FirstAt(ids, k) ==> k in steps
    ensures Steps(ids + [y], if y in ids then out else out + [y], if y in ids then steps else steps + [|ids|])
    ensures forall k :: FirstAt(ids + [y], k) ==> k in steps || (y !in ids && k == |ids|)
  {
    forall k: nat ensures FirstAt(ids + [y], k) <==> FirstAt(ids, k) || (k == |ids| && y !in ids) {
      FirstAtNext(ids, y, k);
    }
    assert forall k: nat :: FirstAt(ids, k) ==> k < |ids|;
    hide FirstAt;
  }

  lemma {:induction false} FirstAtNext(ids: seq<Bytes>, y: Bytes, k: nat)
    ensures FirstAt(ids + [y], k) <==> FirstAt(ids, k) || (k == |ids| && y !in ids)
  {
    var next := ids + [y];
    if k < |ids| {
      assert forall j :: 0 <= j <= k ==> next[j] == ids[j];
    } else if k == |ids| {
      assert forall j :: 0 <= j < k ==> next[j] == ids[j];
      if y in ids {
        var j :| 0 <= j < |ids| && ids[j] == y;
        assert next[j] == next[k];
      }
    }
  }

  lemma {:induction false} WithoutHas(ids: seq<Bytes>, x: Bytes)
    ensures forall y :: y in Without(ids, x) <==> y in ids && y != x
  {
    if ids != [] {
      WithoutHas(ids[..|ids| - 1], x);
      assert ids == ids[..|ids| - 1] + [ids[|ids| - 1]];
    }
  }

  /** Leaving a node out and listing owners commute. */
  lemma {:induction false} DedupWithout(ids: seq<Bytes>, x: Bytes)
    ensures Without(Dedup(ids), x) == Dedup(Without(ids, x))
  {
    hide Dedup, Without;
    if ids == [] {
      assert Dedup(ids) == [] && Without(ids, x) == [] && Without([], x) == [] by { NoIds(ids, x); }
    } else {
      var init, y := ids[..|ids| - 1], ids[|ids| - 1];
      assert ids == init + [y];
      DedupWithout(init, x);
      DedupAppend(init, y);
      WithoutAppend(init, y, x);
      WithoutHas(Dedup(init), x);
      WithoutAppend(Dedup(init), y, x);
      DedupAppend(Without(init, x), y);
      assert Without(init, x) + [] == Without(init, x);
    }
  }

  lemma {:induction false} NoIds(ids: seq<Bytes>, x: Bytes)
    requires ids == []
    ensures Dedup(ids) == [] && Without(ids, x) == []
  {
  }

  lemma {:induction false} DedupAppend(ids: seq<Bytes>, y: Bytes)
    ensures Dedup(ids + [y]) == if y in Dedup(ids) then Dedup(ids) else Dedup(ids) + [y]
  {
    assert (ids + [y])[..|ids|] == ids;
  }

  lemma {:induction false} WithoutAppend(ids: seq<Bytes>, y: Bytes, x: Bytes)
    ensures Without(ids + [y], x) == Without(ids, x) + (if y == x then [] else [y])
  {
    assert (ids + [y])[..|ids|] == ids;
  }

  lemma {:induction false} WithoutConcat(a: seq<Bytes>, b: seq<Bytes>, x: Bytes)
    ensures Without(a + b, x) == Without(a, x) + Without(b, x)
  {
    if b == [] {
      assert a + b == a;
    } else {
      var n := |b| - 1;
      assert a + b == (a + b[..n]) + [b[n]];
      WithoutAppend(a + b[..n], b[n], x);
      WithoutConcat(a, b[..n], x);
    }
  }

  lemma {:induction false} WithoutShorter(ids: seq<Bytes>, x: Bytes)
    ensures |Without(ids, x)| <= |ids|
  {
    if ids != [] { WithoutShorter(ids[..|ids| - 1], x); }
  }

  /** The first n with x left out are the first of those left when x is out. */
  lemma {:induction false} TakeWithout(ids: seq<Bytes>, n: nat, x: Bytes)
    ensures Without(Take(ids, n), x) <= Take(Without(ids, x), n)
  {
    var a := Take(ids, n);
    var b := ids[|a|..];
    assert ids == a + b;
    WithoutConcat(a, b, x);
    WithoutShorter(a, x);
  }

  // ----- the sorted ring -----

  predicate Sorted(vs: seq<VNode>) {
    forall i, j :: 0 <= i < j < |vs| ==> vs[i].hash <= vs[j].hash
  }

  /** No two points share a hash. */
  predicate Strict(vs: seq<VNode>) {
    forall i, j :: 0 <= i < j < |vs| ==> vs[i].hash < vs[j].hash
  }

  /** c points lie before h. */
  predicate Cut(vs: seq<VNode>, h: nat, c: nat) {
    && c <= |vs| && (forall i :: 0 <= i < c ==> vs[i].hash < h)
    && (forall i :: c <= i < |vs| ==> vs[i].hash >= h)
  }

  function CutOf(vs: seq<VNode>, h: nat): (c: nat)
    ensures c <= |vs| && (Sorted(vs) ==> Cut(vs, h, c))
  {
    if vs == [] || vs[|vs| - 1].hash < h then |vs| else CutOf(vs[..|vs| - 1], h)
  }

  lemma {:induction false} CutUnique(vs: seq<VNode>, h: nat, c: nat, d: nat)
    requires Cut(vs, h, c) && Cut(vs, h, d)
    ensures c == d
  {
    if c < |vs| { CutBelow(vs, h, c, c); CutBelow(vs, h, d, c); }
    if d < |vs| { CutBelow(vs, h, c, d); CutBelow(vs, h, d, d); }
  }

  lemma {:induction false} CutBelow(vs: seq<VNode>, h: nat, c: nat, i: nat)
    requires Cut(vs, h, c) && i < |vs|
    ensures i < c <==> vs[i].hash < h
  {
  }

  function Rotate(vs: seq<VNode>, c: nat): (r: seq<VNode>)
    requires c <= |vs|
    ensures |r| == |vs|
  {
    vs[c..] + vs[..c]
  }

  /** The nodes met walking clockwise from h, each once. */
  function Walk(vs: seq<VNode>, h: nat): seq<Bytes> {
    Dedup(Ids(Rotate(vs, CutOf(vs, h))))
  }

  function Owners(vs: seq<VNode>, h: nat, n: nat): seq<Bytes> {
    Take(Walk(vs, h), n)
  }

  function Drop(vs: seq<VNode>, x: Bytes): seq<VNode> {
    if vs == [] then []
    else Drop(vs[..|vs| - 1], x) + (if vs[|vs| - 1].id == x then [] else [vs[|vs| - 1]])
  }

  lemma {:induction false} DropConcat(a: seq<VNode>, b: seq<VNode>, x: Bytes)
    ensures Drop(a + b, x) == Drop(a, x) + Drop(b, x)
  {
    if b == [] {
      assert a + b == a;
    } else {
      var n := |b| - 1;
      assert (a + b)[..|a + b| - 1] == a + b[..n];
      DropConcat(a, b[..n], x);
    }
  }

  lemma {:induction false} DropIds(vs: seq<VNode>, x: Bytes)
    ensures Ids(Drop(vs, x)) == Without(Ids(vs), x)
  {
    if vs != [] {
      var n := |vs| - 1;
      DropIds(vs[..n], x);
      assert Ids(vs) == Ids(vs[..n]) + [vs[n].id];
      WithoutAppend(Ids(vs[..n]), vs[n].id, x);
    }
  }

  lemma {:induction false} DropMembers(vs: seq<VNode>, x: Bytes, j: nat)
    requires j < |Drop(vs, x)|
    ensures Drop(vs, x)[j] in vs && Drop(vs, x)[j].id != x
  {
    var n := |vs| - 1;
    if j < |Drop(vs[..n], x)| { DropMembers(vs[..n], x, j); }
  }

  lemma {:induction false} DropSorted(vs: seq<VNode>, x: Bytes)
    requires Sorted(vs)
    ensures Sorted(Drop(vs, x))
  {
    if vs != [] {
      var n := |vs| - 1;
      DropSorted(vs[..n], x);
      forall j | 0 <= j < |Drop(vs[..n], x)| ensures Drop(vs[..n], x)[j].hash <= vs[n].hash {
        DropMembers(vs[..n], x, j);
      }
    }
  }

  /** Leaving a node's points out and walking commute. */
  lemma {:induction false} DropWalk(vs: seq<VNode>, x: Bytes, h: nat)
    requires Sorted(vs)
    ensures Walk(Drop(vs, x), h) == Without(Walk(vs, h), x)
  {
    hide Dedup, Without, Ids, Drop;
    var c := CutOf(vs, h);
    var a, b := vs[..c], vs[c..];
    assert vs == a + b;
    DropConcat(a, b, x);
    DropConcat(b, a, x);
    var d := |Drop(a, x)|;
    forall i | 0 <= i < |Drop(a, x)| ensures Drop(a, x)[i].hash < h { DropMembers(a, x, i); }
    forall i | 0 <= i < |Drop(b, x)| ensures Drop(b, x)[i].hash >= h { DropMembers(b, x, i); }
    assert Cut(Drop(vs, x), h, d);
    DropSorted(vs, x);
    CutUnique(Drop(vs, x), h, d, CutOf(Drop(vs, x), h));
    assert Rotate(Drop(vs, x), d) == Drop(b + a, x);
    DropIds(b + a, x);
    DedupWithout(Ids(b + a), x);
  }

  /** Adding a node: without it, each key's new owners are the first of its old ones. Removing it
      again is the same statement read backwards. */
  lemma {:induction false} OwnersMove(before: seq<VNode>, after: seq<VNode>, x: Bytes, h: nat, n: nat)
    requires Sorted(after) && before == Drop(after, x)
    ensures Without(Owners(after, h, n), x) <= Owners(before, h, n)
  {
    hide Walk, Without, Take;
    DropWalk(after, x, h);
    TakeWithout(Walk(after, h), n, x);
  }

  /** A node that is not among a key's owners after joining did not change them. */
  lemma {:induction false} UntouchedKeys(before: seq<VNode>, after: seq<VNode>, x: Bytes, h: nat, n: nat)
    requires Sorted(after) && before == Drop(after, x) && x !in Owners(after, h, n) && |Owners(after, h, n)| == n
    ensures Owners(after, h, n) == Owners(before, h, n)
  {
    hide Walk, Without, Take;
    OwnersMove(before, after, x, h, n);
    WithoutAbsent(Owners(after, h, n), x);
    assert |Owners(before, h, n)| <= n by { TakeLength(Walk(before, h), n); }
  }

  lemma {:induction false} WithoutAbsent(ids: seq<Bytes>, x: Bytes)
    requires x !in ids
    ensures Without(ids, x) == ids
  {
    if ids != [] { WithoutAbsent(ids[..|ids| - 1], x); }
  }

  lemma {:induction false} TakeLength(ids: seq<Bytes>, n: nat)
    ensures |Take(ids, n)| == if n <= |ids| then n else |ids|
  {
  }

  // ----- sorting -----

  function InsertByHash(vs: seq<VNode>, v: VNode): (r: seq<VNode>)
    ensures multiset(r) == multiset(vs) + multiset{v} && |r| == |vs| + 1
  {
    if vs == [] || vs[|vs| - 1].hash <= v.hash then vs + [v]
    else
      assert vs == vs[..|vs| - 1] + [vs[|vs| - 1]];
      InsertByHash(vs[..|vs| - 1], v) + [vs[|vs| - 1]]
  }

  lemma {:induction false} InsertSorts(vs: seq<VNode>, v: VNode)
    requires Sorted(vs)
    ensures Sorted(InsertByHash(vs, v))
    ensures InsertByHash(vs, v)[|vs|] == v || (vs != [] && InsertByHash(vs, v)[|vs|] == vs[|vs| - 1])
  {
    if vs != [] && vs[|vs| - 1].hash > v.hash { InsertSorts(vs[..|vs| - 1], v); }
  }

  function SortByHash(vs: seq<VNode>): (r: seq<VNode>)
    ensures multiset(r) == multiset(vs) && |r| == |vs|
  {
    if vs == [] then []
    else
      assert vs == vs[..|vs| - 1] + [vs[|vs| - 1]];
      InsertByHash(SortByHash(vs[..|vs| - 1]), vs[|vs| - 1])
  }

  lemma {:induction false} SortSorts(vs: seq<VNode>)
    ensures Sorted(SortByHash(vs))
  {
    if vs != [] {
      hide InsertByHash;
      SortSorts(vs[..|vs| - 1]);
      InsertSorts(SortByHash(vs[..|vs| - 1]), vs[|vs| - 1]);
    }
  }

  /** Points with the same hash are the same point. */
  ghost predicate HashDetermines(vs: seq<VNode>) {
    forall v, w :: v in vs && w in vs && v.hash == w.hash ==> v == w
  }

  /** Then sorting leaves no choice. */
  lemma {:induction false} SortedUnique(a: seq<VNode>, b: seq<VNode>)
    requires Sorted(a) && Sorted(b) && multiset(a) == multiset(b) && HashDetermines(a)
    ensures a == b
    decreases |a|
  {
    hide Sorted, HashDetermines;
    SameSize(a, b);
    if a != [] {
      var n := |a| - 1;
      LastSame(a, b);
      assert a == a[..n] + [a[n]] && b == b[..n] + [b[n]];
      MinusLast(a, b);
      InitSorted(a);
      InitSorted(b);
      InitDetermines(a);
      SortedUnique(a[..n], b[..n]);
    }
  }

  lemma {:induction false} LastSame(a: seq<VNode>, b: seq<VNode>)
    requires Sorted(a) && Sorted(b) && multiset(a) == multiset(b) && HashDetermines(a) && a != []
    ensures |a| == |b| && a[|a| - 1] == b[|b| - 1]
  {
    SameSize(a, b);
    var n := |a| - 1;
    assert a[n] in b && b[n] in a;
    var i :| 0 <= i < |b| && b[i] == a[n];
    var j :| 0 <= j < |a| && a[j] == b[n];
  }

  lemma {:induction false} MinusLast<T>(a: seq<T>, b: seq<T>)
    requires a != [] && |a| == |b| && multiset(a) == multiset(b) && a[|a| - 1] == b[|b| - 1]
    ensures multiset(a[..|a| - 1]) == multiset(b[..|b| - 1])
  {
    InitBag(a);
    InitBag(b);
  }

  lemma {:induction false} InitBag<T>(a: seq<T>)
    requires a != []
    ensures multiset(a[..|a| - 1]) == multiset(a) - multiset{a[|a| - 1]}
  {
    assert a == a[..|a| - 1] + [a[|a| - 1]];
  }

  lemma {:induction false} InitSorted(a: seq<VNode>)
    requires a != [] && Sorted(a)
    ensures Sorted(a[..|a| - 1])
  {
  }

  lemma {:induction false} InitDetermines(a: seq<VNode>)
    requires a != [] && HashDetermines(a)
    ensures HashDetermines(a[..|a| - 1])
  {
    assert forall v :: v in a[..|a| - 1] ==> v in a;
  }

  lemma {:induction false} SameSize(a: seq<VNode>, b: seq<VNode>)
    requires multiset(a) == multiset(b)
    ensures |a| == |b| && forall v :: v in a <==> v in b
  {
    assert |multiset(a)| == |a| && |multiset(b)| == |b|;
    assert forall v :: v in a <==> v in multiset(a);
    assert forall v :: v in b <==> v in multiset(b);
  }

  lemma {:induction false} DropCounts(vs: seq<VNode>, x: Bytes, v: VNode)
    ensures multiset(Drop(vs, x))[v] == if v.id == x then 0 else multiset(vs)[v]
  {
    if vs != [] {
      var n := |vs| - 1;
      assert vs == vs[..n] + [vs[n]];
      DropCounts(vs[..n], x, v);
    }
  }

  // ----- the ring object -----

  /** The points of a node. */
  function Points(id: Bytes, n: nat, hashV: (Bytes, nat) -> nat): (ps: seq<VNode>)
    ensures |ps| == n && forall i :: 0 <= i < n ==> ps[i] == VNode(hashV(id, i), id)
  {
    seq(n, i requires 0 <= i < n => VNode(hashV(id, i), id))
  }

  /** A ring with more points: any sorted arrangement of both, as sort.Slice may leave ties in
      any order. */
  ghost predicate Arranged(old_: seq<VNode>, ps: seq<VNode>, now: seq<VNode>) {
    Sorted(now) && multiset(now) == multiset(old_) + multiset(ps)
  }

  /** The points ps of a node x new to the ring. */
  ghost predicate NewPoints(old_: seq<VNode>, ps: seq<VNode>, x: Bytes) {
    Sorted(old_) && (forall v :: v in old_ ==> v.id != x) && (forall v :: v in ps ==> v.id == x)
  }

  /** Dropping a node again undoes adding it if no two nodes of the old ring share a hash,
      whatever the hashes of the new points. */
  lemma {:induction false} AddedThenDropped(old_: seq<VNode>, ps: seq<VNode>, now: seq<VNode>, x: Bytes)
    requires NewPoints(old_, ps, x) && Arranged(old_, ps, now) && HashDetermines(old_)
    ensures Drop(now, x) == old_
  {
    hide Drop, Sorted;
    assert multiset(old_) == multiset(Drop(now, x)) by {
      assert forall v :: v in ps <==> v in multiset(ps);
      assert forall v :: v in old_ <==> v in multiset(old_);
      forall v: VNode ensures multiset(Drop(now, x))[v] == multiset(old_)[v] { DropCounts(now, x, v); }
    }
    DropSorted(now, x);
    SortedUnique(old_, Drop(now, x));
  }

  /** And exactly then: two nodes that share a hash may come back in the other order. */
  lemma {:induction false} AddedThenDroppedIff(old_: seq<VNode>, ps: seq<VNode>, x: Bytes)
    requires NewPoints(old_, ps, x)
    ensures (forall now :: Arranged(old_, ps, now) ==> Drop(now, x) == old_) <==> HashDetermines(old_)
  {
    hide Drop, Sorted, Arranged, NewPoints;
    if HashDetermines(old_) {
      forall now | Arranged(old_, ps, now) ensures Drop(now, x) == old_ { AddedThenDropped(old_, ps, now, x); }
    } else {
      var now := OtherOrder(old_, ps, x);
    }
  }

  lemma {:induction false} OtherOrder(old_: seq<VNode>, ps: seq<VNode>, x: Bytes) returns (now: seq<VNode>)
    requires NewPoints(old_, ps, x) && !HashDetermines(old_)
    ensures Arranged(old_, ps, now) && Drop(now, x) != old_
  {
    hide Drop, Sorted;
    var v, w :| v in old_ && w in old_ && v.hash == w.hash && v != w;
    var i :| 0 <= i < |old_| && old_[i] == v;
    var j :| 0 <= j < |old_| && old_[j] == w;
    var swapped := old_[i := w][j := v];
    SwapCounts(old_, i, j);
    SwapSorted(old_, i, j);
    SameSize(old_, swapped);
    now := InsertAll(swapped, ps);
    InsertAllSorts(swapped, ps, x);
    DropNothing(swapped, x);
    assert swapped[i] != old_[i];
  }

  lemma {:induction false} SwapCounts(vs: seq<VNode>, i: nat, j: nat)
    requires i < |vs| && j < |vs|
    ensures multiset(vs[i := vs[j]][j := vs[i]]) == multiset(vs)
  {
  }

  lemma {:induction false} SwapSorted(vs: seq<VNode>, i: nat, j: nat)
    requires i < |vs| && j < |vs| && Sorted(vs) && vs[i].hash == vs[j].hash
    ensures Sorted(vs[i := vs[j]][j := vs[i]])
  {
  }

  /** The points sorted in one at a time. */
  function InsertAll(vs: seq<VNode>, ps: seq<VNode>): seq<VNode> {
    if ps == [] then vs else InsertByHash(InsertAll(vs, ps[..|ps| - 1]), ps[|ps| - 1])
  }

  lemma {:induction false} InsertAllSorts(vs: seq<VNode>, ps: seq<VNode>, x: Bytes)
    requires Sorted(vs) && forall v :: v in ps ==> v.id == x
    ensures Arranged(vs, ps, InsertAll(vs, ps)) && Drop(InsertAll(vs, ps), x) == Drop(vs, x)
  {
    hide Sorted, Drop, InsertByHash;
    if ps != [] {
      var n := |ps| - 1;
      assert ps == ps[..n] + [ps[n]];
      InsertAllSorts(vs, ps[..n], x);
      InsertSorts(InsertAll(vs, ps[..n]), ps[n]);
      InsertThenDrop(InsertAll(vs, ps[..n]), ps[n]);
    }
  }

  lemma {:induction false} InsertThenDrop(vs: seq<VNode>, v: VNode)
    ensures Drop(InsertByHash(vs, v), v.id) == Drop(vs, v.id)
  {
    if vs == [] || vs[|vs| - 1].hash <= v.hash {
      assert (vs + [v])[..|vs|] == vs;
    } else {
      var n := |vs| - 1;
      InsertThenDrop(vs[..n], v);
      var init := InsertByHash(vs[..n], v);
      assert (init + [vs[n]])[..|init|] == init;
    }
  }

  /** The first n distinct nodes from a position on. */
  function Window(vs: seq<VNode>, c: nat, n: nat): seq<Bytes>
    requires c <= |vs|
  {
    Take(Dedup(Ids(Rotate(vs, c))), n)
  }

  lemma {:induction false} DedupPrefix(ids: seq<Bytes>, k: nat)
    requires k <= |ids|
    ensures Dedup(ids[..k]) <= Dedup(ids)
  {
    if k < |ids| {
      var n := |ids| - 1;
      assert ids[..n][..k] == ids[..k];
      DedupPrefix(ids[..n], k);
    } else {
      assert ids[..k] == ids;
    }
  }

  lemma {:induction false} DistinctSize(ids: seq<Bytes>, s: set<Bytes>)
    requires Distinct(ids) && forall x :: x in ids <==> x in s
    ensures |ids| == |s|
  {
    if ids == [] {
      assert s == {};
    } else {
      var n := |ids| - 1;
      assert ids == ids[..n] + [ids[n]];
      DistinctSize(ids[..n], s - {ids[n]});
    }
  }

  /** The clockwise walk from a position, stopping at n nodes. */
  method WalkFrom(vs: seq<VNode>, start: nat, n: nat) returns (window: seq<Bytes>)
    requires start < |vs| && n > 0
    ensures window == Window(vs, start, n)
  {
    hide Dedup, Around, Rotate;
    ghost var ids := Ids(Rotate(vs, start));
    window := [];
    var seen: set<Bytes> := {};
    var idx := start;
    AroundStart(start, |vs|);
    assert Dedup(ids[..0]) == [] by { NoIds(ids[..0], []); }
    var step := 0;
    while step < |vs|
      invariant 0 <= step <= |vs| && idx == Around(start, step, |vs|) && |window| < n
      invariant window == Dedup(ids[..step]) && forall x :: x in seen <==> x in window
    {
      RotatedAt(vs, start, step);
      DedupAppend(ids[..step], ids[step]);
      assert ids[..step + 1] == ids[..step] + [ids[step]];
      var id := vs[idx].id;
      if id !in seen {
        seen := seen + {id};
        window := window + [id];
        if |window| == n {
          DedupPrefix(ids, step + 1);
          return;
        }
      }
      AroundNext(start, step, |vs|);
      idx := Around(idx, 1, |vs|);
      step := step + 1;
    }
    assert ids[..|vs|] == ids;
  }

  lemma {:induction false} RotatedAt(vs: seq<VNode>, start: nat, step: nat)
    requires start < |vs| && step < |vs|
    ensures Rotate(vs, start)[step] == vs[Around(start, step, |vs|)]
  {
    var n := |vs|;
    if start + step < n {
      ModUnique(start + step, n, 0, start + step);
    } else {
      ModUnique(start + step, n, 1, start + step - n);
    }
  }

  /** The ids of the points met going once around from start. */
  function Clockwise(vs: seq<VNode>, start: nat): (ids: seq<Bytes>)
    ensures |ids| == |vs| && forall k :: 0 <= k < |ids| ==> ids[k] == vs[(start + k) % |vs|].id
  {
    seq(|vs|, k requires 0 <= k < |vs| => vs[(start + k) % |vs|].id)
  }

  /** The first point at or after h; past the last one it is the first of all. */
  ghost predicate AtOrAfter(vs: seq<VNode>, h: nat, idx: nat) {
    && idx < |vs| && (forall i :: 0 <= i < idx ==> vs[i].hash < h)
    && (vs[idx].hash >= h || (idx == 0 && forall i :: 0 <= i < |vs| ==> vs[i].hash < h))
  }

  /** The first n different nodes met going clockwise from h, in the order they are met. */
  ghost predicate RingOrder(vs: seq<VNode>, h: nat, n: nat, owners: seq<Bytes>) {
    exists start, steps :: AtOrAfter(vs, h, start) && FirstMet(Clockwise(vs, start), n, owners, steps)
  }

  ghost predicate FirstMet(ids: seq<Bytes>, n: nat, owners: seq<Bytes>, steps: seq<nat>) {
    && Steps(ids, owners, steps) && |owners| <= n
    && forall k :: FirstAt(ids, k) && k !in steps ==> |owners| == n && forall s :: s in steps ==> s < k
  }

  lemma {:induction false} OwnersInOrder(vs: seq<VNode>, h: nat, n: nat, start: nat)
    requires Sorted(vs) && AtOrAfter(vs, h, start)
    ensures RingOrder(vs, h, n, Owners(vs, h, n))
  {
    hide Dedup, Steps, Sorted;
    var ids := Clockwise(vs, start);
    assert Ids(Rotate(vs, CutOf(vs, h))) == ids by { WalkedFrom(vs, h, start); }
    var steps := DedupSteps(ids);
    TakeSteps(ids, Dedup(ids), steps, n);
  }

  lemma {:induction false} WalkedFrom(vs: seq<VNode>, h: nat, start: nat)
    requires Sorted(vs) && AtOrAfter(vs, h, start)
    ensures Ids(Rotate(vs, CutOf(vs, h))) == Clockwise(vs, start)
  {
    var c := CutOf(vs, h);
    assert Cut(vs, h, c);
    hide Sorted, CutOf;
    if c < |vs| { assert vs[c].hash >= h; }
    if start < c { assert vs[start].hash < h; }
    assert Rotate(vs, c) == Rotate(vs, start);
    forall k | 0 <= k < |vs| ensures Ids(Rotate(vs, start))[k] == Clockwise(vs, start)[k] {
      RotatedAt(vs, start, k);
    }
  }

  lemma {:induction false} TakeSteps(ids: seq<Bytes>, all: seq<Bytes>, steps: seq<nat>, n: nat)
    requires Steps(ids, all, steps) && forall k :: FirstAt(ids, k) ==> k in steps
    ensures FirstMet(ids, n, Take(all, n), if n <= |steps| then steps[..n] else steps)
  {
    if n <= |steps| {
      var cut := steps[..n];
      forall k | FirstAt(ids, k) && k !in cut ensures forall s :: s in cut ==> s < k {
        var j :| 0 <= j < |steps| && steps[j] == k;
      }
    }
  }

  /** step positions clockwise from start. */
  function Around(start: nat, step: nat, n: nat): (i: nat)
    requires n > 0
    ensures i < n
  {
    (start + step) % n
  }

  lemma {:induction false} AroundStart(start: nat, n: nat)
    requires start < n
    ensures Around(start, 0, n) == start
  {
    ModUnique(start, n, 0, start);
  }

  lemma {:induction false} AroundNext(start: nat, step: nat, n: nat)
    requires n > 0
    ensures Around(Around(start, step, n), 1, n) == Around(start, step + 1, n)
  {
    var a := start + step;
    var q, r := a / n, a % n;
    assert a == n * q + r;
    if r + 1 < n {
      ModUnique(a + 1, n, q, r + 1);
      ModUnique(r + 1, n, 0, r + 1);
    } else {
      assert n * (q + 1) == n * q + n;
      ModUnique(a + 1, n, q + 1, 0);
      ModUnique(r + 1, n, 1, 0);
    }
  }

  /** Every point belongs to a node, and every node has a point. */
  ghost predicate Covered(vs: seq<VNode>, nodes: map<Bytes, Node>) {
    && (forall v :: v in vs ==> v.id in nodes)
    && (forall id :: id in nodes ==> nodes[id].id == id && HasPoint(vs, id))
  }

  predicate HasPoint(vs: seq<VNode>, id: Bytes) {
    exists i :: 0 <= i < |vs| && vs[i].id == id
  }

  /** A full walk meets every node. */
  lemma {:induction false} WalkMeetsAll(vs: seq<VNode>, nodes: map<Bytes, Node>, c: nat)
    requires Covered(vs, nodes) && c <= |vs|
    ensures var w := Dedup(Ids(Rotate(vs, c))); Distinct(w) && |w| == |nodes| && forall x :: x in w <==> x in nodes
  {
    hide Dedup;
    var r := Rotate(vs, c);
    var ids := Ids(r);
    DedupIs(ids);
    forall x | x in nodes ensures x in ids {
      assert HasPoint(vs, x);
      var i :| 0 <= i < |vs| && vs[i].id == x;
      var j := if i >= c then i - c else |vs| - c + i;
      assert r[j] == vs[i] && ids[j] == x;
    }
    forall x | x in ids ensures x in nodes {
      var j :| 0 <= j < |ids| && ids[j] == x;
      assert r[j] in vs;
    }
    DistinctSize(Dedup(ids), nodes.Keys);
  }

  /** The loop of RemoveNode. */
  method Filter(vs: seq<VNode>, id: Bytes) returns (filtered: seq<VNode>)
    ensures filtered == Drop(vs, id)
  {
    filtered := [];
    var i := 0;
    while i < |vs|
      invariant 0 <= i <= |vs| && filtered == Drop(vs[..i], id)
    {
      assert vs[..i + 1][..i] == vs[..i];
      if vs[i].id != id {
        filtered := filtered + [vs[i]];
      }
      i := i + 1;
    }
    assert vs[..|vs|] == vs;
  }

  /** Binary search, as sort.Search does it. */
  method FindCut(vs: seq<VNode>, h: nat) returns (c: nat)
    requires Sorted(vs)
    ensures c <= |vs| && Cut(vs, h, c)
  {
    var low, high := 0, |vs|;
    while low < high
      invariant 0 <= low <= high <= |vs|
      invariant forall i :: 0 <= i < low ==> vs[i].hash < h
      invariant forall i :: high <= i < |vs| ==> vs[i].hash >= h
    {
      var mid := low + (high - low) / 2;
      if vs[mid].hash >= h {
        high := mid;
      } else {
        low := mid + 1;
      }
    }
    c := low;
  }

  /** A ring has points exactly if it has nodes. */
  lemma {:induction false} PointsIffNodes(vs: seq<VNode>, nodes: map<Bytes, Node>)
    requires Covered(vs, nodes)
    ensures |vs| == 0 <==> |nodes| == 0
  {
    if |vs| > 0 {
      assert vs[0] in vs;
      assert vs[0].id in nodes.Keys;
    } else {
      assert forall id :: id in nodes ==> HasPoint(vs, id);
      assert nodes.Keys == {};
    }
  }

  class Ring {
    const vnodesPerNode: nat
    const hashVnode: (Bytes, nat) -> nat
    const hashKey: Bytes -> nat
    var vnodes: seq<VNode>
    var nodes: map<Bytes, Node>

    ghost predicate Valid()
      reads this
    {
      vnodesPerNode >= 1 && Sorted(vnodes) && Covered(vnodes, nodes)
    }

    constructor (vnodesPerNode: int, hashVnode: (Bytes, nat) -> nat, hashKey: Bytes -> nat)
      ensures Valid() && nodes == map[] && vnodes == []
      ensures this.vnodesPerNode == if vnodesPerNode <= 0 then 150 else vnodesPerNode
    {
      this.vnodesPerNode := if vnodesPerNode <= 0 then 150 else vnodesPerNode;
      this.hashVnode, this.hashKey, vnodes, nodes := hashVnode, hashKey, [], map[];
    }

    /** The new points are sorted in; taking them out again gives the old ring, provided no two
        nodes in it share a hash. A known id changes nothing. */
    method AddNode(node: Node)
      requires Valid()
      modifies this
      ensures Valid()
      ensures nodes == if node.id in old(nodes) then old(nodes) else old(nodes)[node.id := node]
      ensures node.id in old(nodes) ==> vnodes == old(vnodes)
      ensures node.id !in old(nodes) ==>
        multiset(vnodes) == multiset(old(vnodes)) + multiset(Points(node.id, vnodesPerNode, hashVnode))
      ensures node.id !in old(nodes) && HashDetermines(old(vnodes)) ==> Drop(vnodes, node.id) == old(vnodes)
    {
      hide Sorted, HashDetermines, Drop, SortByHash, Points;
      if node.id in nodes {
        return;
      }
      ghost var before, ps := vnodes, Points(node.id, vnodesPerNode, hashVnode);
      var all := vnodes;
      var i := 0;
      while i < vnodesPerNode
        invariant 0 <= i <= vnodesPerNode && all == before + ps[..i]
      {
        all := all + [VNode(hashVnode(node.id, i), node.id)];
        assert ps[..i + 1] == ps[..i] + [ps[i]];
        i := i + 1;
      }
      assert ps[..vnodesPerNode] == ps;
      SortSorts(all);
      SameSize(all, SortByHash(all));
      CoveredMore(before, ps, SortByHash(all), nodes, node);
      nodes := nodes[node.id := node];
      vnodes := SortByHash(all);
      if HashDetermines(before) {
        AddedThenDropped(before, ps, vnodes, node.id);
      }
    }

    /** All points of the node are filtered out. */
    method RemoveNode(id: Bytes)
      requires Valid()
      modifies this
      ensures Valid() && nodes == old(nodes) - {id} && vnodes == Drop(old(vnodes), id)
    {
      hide Sorted, Drop;
      DropSorted(vnodes, id);
      CoveredLess(vnodes, nodes, id);
      if id !in nodes {
        DropNothing(vnodes, id);
        return;
      }
      nodes := nodes - {id};
      vnodes := Filter(vnodes, id);
    }

    /** The first point at or after h, wrapping around. */
    method Search(h: nat) returns (idx: nat)
      requires Valid() && vnodes != []
      ensures AtOrAfter(vnodes, h, idx)
      ensures idx < |vnodes| && Rotate(vnodes, idx) == Rotate(vnodes, CutOf(vnodes, h))
    {
      hide Sorted, Covered, CutOf;
      var c := FindCut(vnodes, h);
      CutUnique(vnodes, h, c, CutOf(vnodes, h));
      if c == |vnodes| {
        assert Rotate(vnodes, c) == Rotate(vnodes, 0);
        return 0;
      }
      return c;
    }

    /** The owners of a key: exactly min(n, nodes) distinct nodes, in ring order. */
    method GetNodes(key: Bytes, n: int) returns (owners: seq<Node>)
      requires Valid()
      ensures n <= 0 ==> owners == []
      ensures n > 0 ==> NodeIds(owners) == Owners(vnodes, hashKey(key), n)
      ensures n > 0 && nodes != map[] ==> RingOrder(vnodes, hashKey(key), n, NodeIds(owners))
      ensures n > 0 ==> Distinct(NodeIds(owners)) && |owners| == (if n < |nodes| then n else |nodes|)
      ensures forall o :: o in owners ==> o.id in nodes && nodes[o.id] == o
    {
      hide Sorted, HasPoint, Distinct, Owners, RingOrder;
      var ids := OwnerIds(key, n);
      owners := [];
      for i := 0 to |ids|
        invariant NodeIds(owners) == ids[..i] && forall o :: o in owners ==> o.id in nodes && nodes[o.id] == o
      {
        assert ids[i] in ids;
        owners := owners + [nodes[ids[i]]];
      }
      assert ids[..|ids|] == ids;
    }

    /** The walk from the key's position. */
    method OwnerIds(key: Bytes, n: int) returns (owners: seq<Bytes>)
      requires Valid()
      ensures n <= 0 ==> owners == []
      ensures n > 0 ==> owners == Owners(vnodes, hashKey(key), n)
      ensures n > 0 && nodes != map[] ==> RingOrder(vnodes, hashKey(key), n, owners)
      ensures n > 0 ==> Distinct(owners) && |owners| == (if n < |nodes| then n else |nodes|)
      ensures forall id :: id in owners ==> id in nodes
    {
      hide Sorted, Covered, Dedup, Rotate, Distinct, CutOf, RingOrder, AtOrAfter;
      var c := CutOf(vnodes, hashKey(key));
      WalkMeetsAll(vnodes, nodes, c);
      PointsIffNodes(vnodes, nodes);
      if n > 0 { TakeOfWalk(Dedup(Ids(Rotate(vnodes, c))), n, nodes.Keys); }
      if |vnodes| == 0 || n <= 0 {
        return [];
      }
      var k := if n > |nodes| then |nodes| else n;
      var idx := Search(hashKey(key));
      OwnersInOrder(vnodes, hashKey(key), n, idx);
      assert k > 0;
      owners := WalkFrom(vnodes, idx, k);
    }

    /** Every node that shares an owner list with id, sorted. */
    method CoReplicas(id: Bytes, n: int) returns (peers: seq<Bytes>)
      requires Valid()
      ensures n <= 0 || id !in nodes ==> peers == []
      ensures Ascend(peers)
      ensures n > 0 ==> forall q :: q in peers <==> q != id && SharesSomewhere(vnodes, n, id, q)
      ensures n > 0 ==> forall q :: q != id && SharesKey(vnodes, n, id, q) ==> q in peers
    {
      hide Sorted, Covered, SharesKey, SharesSomewhere, Ascend;
      forall q | n > 0 && SharesKey(vnodes, n, id, q) ensures SharesSomewhere(vnodes, n, id, q) {
        KeyShared(vnodes, n, id, q);
      }
      AscendNone();
      if n <= 0 || id !in nodes {
        if n > 0 { NoPeers(vnodes, nodes, n, id); }
        return [];
      }
      var found := CollectPeers(id, n);
      peers := SortIds(found);
    }

    /** The walk over all positions. */
    method CollectPeers(id: Bytes, n: nat) returns (peers: set<Bytes>)
      requires Valid() && n > 0 && id in nodes
      ensures forall q :: q in peers <==> q != id && SharesSomewhere(vnodes, n, id, q)
    {
      hide Sorted, Covered, Dedup, Rotate, Distinct;
      peers := {};
      var k := if n > |nodes| then |nodes| else n;
      WindowCap(vnodes, nodes, n);
      var start := 0;
      while start < |vnodes|
        invariant 0 <= start <= |vnodes|
        invariant forall q :: q in peers <==> q != id && exists c :: 0 <= c < start && Shares(vnodes, c, n, id, q)
      {
        var window := WalkFrom(vnodes, start, k);
        assert window == Window(vnodes, start, n);
        ghost var before := peers;
        if id in window {
          peers := peers + (set q | q in window && q != id);
        }
        forall q ensures q in peers <==> q != id && exists c :: 0 <= c < start + 1 && Shares(vnodes, c, n, id, q) {
          if q in peers && q !in before { assert Shares(vnodes, start, n, id, q); }
        }
        start := start + 1;
      }
    }
  }

  lemma {:induction false} NoPeers(vs: seq<VNode>, nodes: map<Bytes, Node>, n: nat, id: Bytes)
    requires Covered(vs, nodes) && id !in nodes
    ensures forall q :: !SharesSomewhere(vs, n, id, q)
  {
    hide Covered, Shares;
    forall c: nat, q | c < |vs| ensures !Shares(vs, c, n, id, q) { NotShared(vs, nodes, c, n, id, q); }
  }

  /** In byte order, each once. */
  predicate Ascend(ids: seq<Bytes>) {
    forall i, j :: 0 <= i < j < |ids| ==> Less(ids[i], ids[j])
  }

  lemma {:induction false} AscendNone()
    ensures Ascend([])
  {
  }

  method SortIds(ids: set<Bytes>) returns (out: seq<Bytes>)
    ensures Ascend(out) && forall q :: q in out <==> q in ids
  {
    hide Ascend;
    out := [];
    AscendNone();
    var rest := ids;
    while rest != {}
      invariant rest <= ids && Ascend(out) && forall q :: q in out <==> q in ids && q !in rest
      decreases rest
    {
      var id :| id in rest;
      out := InsertId(out, id);
      rest := rest - {id};
    }
  }

  method InsertId(ids: seq<Bytes>, id: Bytes) returns (out: seq<Bytes>)
    requires Ascend(ids) && id !in ids
    ensures Ascend(out) && forall q :: q in out <==> q in ids || q == id
  {
    hide Less;
    var i := 0;
    while i < |ids| && Less(ids[i], id)
      invariant 0 <= i <= |ids| && forall j :: 0 <= j < i ==> Less(ids[j], id)
    {
      i := i + 1;
    }
    forall j | i <= j < |ids| ensures Less(id, ids[j]) {
      LessConnected(id, ids[i]);
      if j > i { LessTransitive(id, ids[i], ids[j]); }
    }
    out := ids[..i] + [id] + ids[i..];
  }

  /** Both nodes are among the n met from position c. */
  predicate Shares(vs: seq<VNode>, c: nat, n: nat, p: Bytes, q: Bytes) {
    c <= |vs| && p in Window(vs, c, n) && q in Window(vs, c, n)
  }

  /** From some position. */
  ghost predicate SharesSomewhere(vs: seq<VNode>, n: nat, p: Bytes, q: Bytes) {
    exists c :: 0 <= c < |vs| && Shares(vs, c, n, p, q)
  }

  /** Both nodes own some key position. */
  ghost predicate SharesKey(vs: seq<VNode>, n: nat, p: Bytes, q: Bytes) {
    exists h: nat :: p in Owners(vs, h, n) && q in Owners(vs, h, n)
  }

  /** No point before position c has its hash: a walk for a key can start here. */
  ghost predicate Starts(vs: seq<VNode>, c: nat) {
    c < |vs| && (c > 0 ==> vs[c - 1].hash < vs[c].hash)
  }

  /** Two nodes own a key together exactly if they share the window of a position at which a
      walk can start. */
  lemma {:induction false} SharesKeyIff(vs: seq<VNode>, n: nat, p: Bytes, q: Bytes)
    requires Sorted(vs) && vs != []
    ensures SharesKey(vs, n, p, q) <==> exists c :: 0 <= c < |vs| && Starts(vs, c) && Shares(vs, c, n, p, q)
  {
    hide Dedup, Take, CutOf, Sorted;
    if c :| 0 <= c < |vs| && Starts(vs, c) && Shares(vs, c, n, p, q) {
      var h := vs[c].hash;
      StartsCut(vs, c);
      CutUnique(vs, h, c, CutOf(vs, h));
      assert p in Owners(vs, h, n) && q in Owners(vs, h, n);
    }
    if h: nat :| p in Owners(vs, h, n) && q in Owners(vs, h, n) {
      var c := CutOf(vs, h);
      if c == |vs| {
        assert Rotate(vs, c) == Rotate(vs, 0);
        assert Starts(vs, 0) && Shares(vs, 0, n, p, q);
      } else {
        assert Starts(vs, c) && Shares(vs, c, n, p, q);
      }
    }
  }

  lemma {:induction false} StartsCut(vs: seq<VNode>, c: nat)
    requires Sorted(vs) && Starts(vs, c)
    ensures Cut(vs, vs[c].hash, c)
  {
  }

  /** So looking at every position misses nobody. */
  lemma {:induction false} KeyShared(vs: seq<VNode>, n: nat, p: Bytes, q: Bytes)
    requires Sorted(vs) && SharesKey(vs, n, p, q)
    ensures SharesSomewhere(vs, n, p, q)
  {
    hide Dedup, Take, Shares, Starts, Sorted;
    if vs == [] {
      NobodyOwns(n, p);
    } else {
      SharesKeyIff(vs, n, p, q);
    }
  }

  lemma {:induction false} NobodyOwns(n: nat, p: Bytes)
    ensures forall h: nat :: p !in Owners([], h, n)
  {
  }

  /** And finds nobody else if no two points share a hash. */
  lemma {:induction false} SharesIff(vs: seq<VNode>, n: nat, p: Bytes, q: Bytes)
    requires Strict(vs)
    ensures SharesSomewhere(vs, n, p, q) <==> SharesKey(vs, n, p, q)
  {
    hide Dedup, Take, Shares;
    assert Sorted(vs);
    if SharesSomewhere(vs, n, p, q) {
      var c :| 0 <= c < |vs| && Shares(vs, c, n, p, q);
      assert Starts(vs, c);
      SharesKeyIff(vs, n, p, q);
    }
    if SharesKey(vs, n, p, q) { KeyShared(vs, n, p, q); }
  }

  /** With three points at one hash it finds two nodes that own no key together. */
  lemma {:induction false} SharesTooMany(h: nat, a: Bytes, b: Bytes, c: Bytes)
    requires a != b && a != c && b != c
    ensures var vs := [VNode(h, a), VNode(h, b), VNode(h, c)];
      SharesSomewhere(vs, 2, b, c) && !SharesKey(vs, 2, b, c)
  {
    var vs := [VNode(h, a), VNode(h, b), VNode(h, c)];
    ThreeWindow(vs, 0, vs, a, b, c);
    ThreeWindow(vs, 1, [VNode(h, b), VNode(h, c), VNode(h, a)], b, c, a);
    assert Shares(vs, 1, 2, b, c);
    SharesKeyIff(vs, 2, b, c);
    forall i: nat | Starts(vs, i) ensures i == 0 {
    }
  }

  lemma {:induction false} ThreeWindow(vs: seq<VNode>, i: nat, r: seq<VNode>, a: Bytes, b: Bytes, c: Bytes)
    requires |vs| == 3 && i <= 3 && Rotate(vs, i) == r && r[0].id == a && r[1].id == b && r[2].id == c
    requires a != b && a != c && b != c
    ensures Window(vs, i, 2) == [a, b]
  {
    hide Dedup;
    var ids := Ids(r);
    assert ids == ([] + [a] + [b]) + [c];
    NoIds([], a);
    DedupAppend([], a);
    DedupAppend([] + [a], b);
    DedupAppend([] + [a] + [b], c);
  }

  lemma {:induction false} NotShared(vs: seq<VNode>, nodes: map<Bytes, Node>, c: nat, n: nat, id: Bytes, q: Bytes)
    requires Covered(vs, nodes) && c < |vs| && id !in nodes
    ensures !Shares(vs, c, n, id, q)
  {
    hide Dedup, Rotate, Covered;
    WalkMeetsAll(vs, nodes, c);
  }

  lemma {:induction false} WindowCap(vs: seq<VNode>, nodes: map<Bytes, Node>, n: nat)
    requires Covered(vs, nodes)
    ensures forall c: nat :: c <= |vs| ==> Window(vs, c, n) == Window(vs, c, if n > |nodes| then |nodes| else n)
  {
    hide Dedup, Rotate, Covered;
    forall c: nat | c <= |vs| ensures Window(vs, c, n) == Window(vs, c, if n > |nodes| then |nodes| else n) {
      WalkMeetsAll(vs, nodes, c);
    }
  }

  lemma {:induction false} TakeOfWalk(w: seq<Bytes>, n: nat, ids: set<Bytes>)
    requires Distinct(w) && |w| == |ids| && forall x :: x in w <==> x in ids
    ensures Distinct(Take(w, n)) && |Take(w, n)| == (if n < |ids| then n else |ids|)
    ensures forall x :: x in Take(w, n) ==> x in ids
    ensures Take(w, n) == Take(w, if n > |ids| then |ids| else n)
  {
    assert forall x :: x in Take(w, n) ==> x in w;
  }

  lemma {:induction false} DropNothing(vs: seq<VNode>, x: Bytes)
    requires forall v :: v in vs ==> v.id != x
    ensures Drop(vs, x) == vs
  {
    if vs != [] {
      var n := |vs| - 1;
      assert vs == vs[..n] + [vs[n]];
      assert vs[n] in vs;
      DropNothing(vs[..n], x);
    }
  }

  lemma {:induction false} CoveredLess(vs: seq<VNode>, nodes: map<Bytes, Node>, x: Bytes)
    requires Covered(vs, nodes)
    ensures Covered(Drop(vs, x), nodes - {x})
  {
    hide Drop;
    var r := Drop(vs, x);
    forall v | v in r ensures v.id in nodes - {x} {
      var j :| 0 <= j < |r| && r[j] == v;
      DropMembers(vs, x, j);
    }
    forall id | id in nodes && id != x ensures HasPoint(r, id) {
      assert HasPoint(vs, id);
      var i :| 0 <= i < |vs| && vs[i].id == id;
      DropKeeps(vs, x, i);
      var j :| 0 <= j < |r| && r[j] == vs[i];
    }
  }

  lemma {:induction false} DropKeeps(vs: seq<VNode>, x: Bytes, i: nat)
    requires i < |vs| && vs[i].id != x
    ensures vs[i] in Drop(vs, x)
  {
    var n := |vs| - 1;
    if i < n { DropKeeps(vs[..n], x, i); }
  }

  lemma {:induction false} CoveredMore(before: seq<VNode>, ps: seq<VNode>, now: seq<VNode>, nodes: map<Bytes, Node>,
                                       node: Node)
    requires Covered(before, nodes) && node.id !in nodes && ps != [] && forall v :: v in ps ==> v.id == node.id
    requires forall v :: v in now <==> v in before + ps
    ensures Covered(now, nodes[node.id := node])
  {
    forall id | id in nodes || id == node.id ensures HasPoint(now, id) {
      var v: VNode;
      if id == node.id {
        v := ps[0];
        assert v in before + ps;
      } else {
        assert HasPoint(before, id);
        var i :| 0 <= i < |before| && before[i].id == id;
        v := before[i];
        assert v in before + ps;
      }
      var j :| 0 <= j < |now| && now[j] == v;
    }
  }
}
