/**
The HNSW index object (vector/hnsw/graph.go, search.go, cleanup.go). Every run of Insert,
MarkDeleted and Cleanup keeps its invariant; Search is exact k-nearest-neighbour search over
what it can reach whenever the beam is wide enough. Random levels are an argument of Insert:
everything holds for any choice.
*/
module Hnsw {
  import opened Optional
  import opened Bytes
  import opened DistHeaps
  import opened HnswSearch
  import opened HnswGraph
  import opened HnswInsert

  type Vector = seq<real>

  datatype Error = DimensionMismatch | DuplicateID | MemoryLimitExceeded | EmptyGraph

  datatype Result<+T> = Ok(value: T) | Err(error: Error)

  datatype Found = Found(id: nat, externalID: Bytes, distance: real)

  // ----- memory accounting -----

  const NODE_OVERHEAD: nat := 64

  /** Estimated bytes of a node: vector, neighbour lists at capacity, overhead. */
  function Estimate(dim: nat, m: nat, level: nat): nat {
    dim * 4 + (2 * m + level * m) * 8 + NODE_OVERHEAD
  }

  method EstimateNodeMemory(dim: nat, m: nat, level: nat) returns (bytes: nat)
    ensures bytes == Estimate(dim, m, level) == 4 * dim + 8 * (2 * m + level * m) + 64
  {
    var neighborBytes := 0;
    for l := 0 to level + 1
      invariant neighborBytes == if l == 0 then 0 else (2 * m + (l - 1) * m) * 8
    {
      neighborBytes := neighborBytes + Cap(m, l) * 8;
    }
    bytes := dim * 4 + neighborBytes + NODE_OVERHEAD;
  }

  /** The estimates of a set of nodes, added up in any order. */
  ghost function Memory(nodes: map<nat, Node<Vector>>, s: set<nat>, dim: nat, m: nat): nat
    requires s <= nodes.Keys
  {
    if s == {} then 0
    else
      var x :| x in s;
      Estimate(dim, m, nodes[x].level) + Memory(nodes, s - {x}, dim, m)
  }

  lemma {:induction false} MemoryWithout(nodes: map<nat, Node<Vector>>, s: set<nat>, dim: nat, m: nat, y: nat)
    requires s <= nodes.Keys && y in s
    ensures Memory(nodes, s, dim, m) == Estimate(dim, m, nodes[y].level) + Memory(nodes, s - {y}, dim, m)
    decreases |s|
  {
    hide Estimate;
    var x :| x in s && Memory(nodes, s, dim, m) == Estimate(dim, m, nodes[x].level) + Memory(nodes, s - {x}, dim, m);
    if x != y {
      MemoryWithout(nodes, s - {x}, dim, m, y);
      MemoryWithout(nodes, s - {y}, dim, m, x);
      assert s - {x} - {y} == s - {y} - {x};
    }
  }

  lemma {:induction false} MemorySame(a: map<nat, Node<Vector>>, b: map<nat, Node<Vector>>, s: set<nat>, dim: nat,
                                      m: nat)
    requires s <= a.Keys && s <= b.Keys && forall x :: x in s ==> a[x].level == b[x].level
    ensures Memory(a, s, dim, m) == Memory(b, s, dim, m)
    decreases |s|
  {
    hide Estimate;
    if s != {} {
      var x :| x in s;
      MemoryWithout(a, s, dim, m, x);
      MemoryWithout(b, s, dim, m, x);
      MemorySame(a, b, s - {x}, dim, m);
    }
  }

  // ----- adding an unconnected node -----

  function NewNode(externalID: Bytes, vec: Vector, level: nat): Node<Vector> {
    Node(externalID, vec, level, seq(level + 1, _ => []))
  }

  lemma {:induction false} AddNodeKeeps(nodes: map<nat, Node<Vector>>, m: nat, id: nat, n: Node<Vector>)
    requires EdgesOk(nodes, m) && id !in nodes && n == NewNode(n.externalID, n.vector, n.level)
    ensures var r := nodes[id := n]; EdgesOk(r, m) && Isolated(r, id)
  {
    var r := nodes[id := n];
    forall x | x in r ensures NodeOk(r, m, x) {
      if x != id {
        assert NodeOk(nodes, m, x);
        forall l | 0 <= l <= r[x].level ensures ListOk(r, m, x, l, r[x].neighbors[l]) {
          assert ListOk(nodes, m, x, l, nodes[x].neighbors[l]);
        }
      }
    }
    forall y: nat, k: nat | y in r ensures id !in Nb(r, y, k) {
      if y != id && k < |r[y].neighbors| {
        assert NodeOk(nodes, m, y);
        assert ListOk(nodes, m, y, k, nodes[y].neighbors[k]);
      }
    }
  }

  // ----- removing nodes -----

  function Scrub(ids: seq<nat>, removed: set<nat>): (r: seq<nat>)
    ensures forall y :: y in r <==> y in ids && y !in removed
    ensures |r| <= |ids|
  {
    if ids == [] then []
    else if ids[|ids| - 1] in removed then Scrub(ids[..|ids| - 1], removed)
    else Scrub(ids[..|ids| - 1], removed) + [ids[|ids| - 1]]
  }

  lemma {:induction false} ScrubDistinct(ids: seq<nat>, removed: set<nat>)
    requires Distinct(ids)
    ensures Distinct(Scrub(ids, removed))
  {
    if ids != [] { ScrubDistinct(ids[..|ids| - 1], removed); }
  }

  function ScrubNode(n: Node<Vector>, removed: set<nat>): (r: Node<Vector>)
    ensures |r.neighbors| == |n.neighbors|
  {
    n.(neighbors := seq(|n.neighbors|, l requires 0 <= l < |n.neighbors| => Scrub(n.neighbors[l], removed)))
  }

  /** The graph without the removed nodes and without any edge to them. */
  function Pruned(nodes: map<nat, Node<Vector>>, removed: set<nat>): map<nat, Node<Vector>> {
    map x | x in nodes && x !in removed :: ScrubNode(nodes[x], removed)
  }

  /** Everything about the nodes left stays, but for the edges to those removed. */
  lemma {:induction false} PrunedEdges(nodes: map<nat, Node<Vector>>, removed: set<nat>)
    ensures var r := Pruned(nodes, removed);
      && r.Keys == nodes.Keys - removed
      && (forall x :: x in r ==>
            r[x] == nodes[x].(neighbors := r[x].neighbors) && |r[x].neighbors| == |nodes[x].neighbors|)
      && (forall x, l: nat :: x in r ==> IdSet(Nb(r, x, l)) == IdSet(Nb(nodes, x, l)) - removed)
  {
    var r := Pruned(nodes, removed);
    forall x, l: nat | x in r ensures IdSet(Nb(r, x, l)) == IdSet(Nb(nodes, x, l)) - removed {
      if l < |nodes[x].neighbors| { assert Nb(r, x, l) == Scrub(nodes[x].neighbors[l], removed); }
    }
  }

  lemma {:induction false} PrunedKeeps(nodes: map<nat, Node<Vector>>, m: nat, removed: set<nat>)
    requires EdgesOk(nodes, m)
    ensures EdgesOk(Pruned(nodes, removed), m)
  {
    var r := Pruned(nodes, removed);
    forall x | x in r ensures NodeOk(r, m, x) {
      assert NodeOk(nodes, m, x);
      forall l | 0 <= l <= r[x].level ensures ListOk(r, m, x, l, r[x].neighbors[l]) {
        var ids := nodes[x].neighbors[l];
        assert ListOk(nodes, m, x, l, ids) && r[x].neighbors[l] == Scrub(ids, removed);
        ScrubDistinct(ids, removed);
      }
    }
  }

  /** The loop over one neighbour list. */
  method ScrubList(ids: seq<nat>, removed: set<nat>) returns (filtered: seq<nat>)
    ensures filtered == Scrub(ids, removed)
  {
    filtered := [];
    for i := 0 to |ids|
      invariant filtered == Scrub(ids[..i], removed)
    {
      assert ids[..i + 1][..i] == ids[..i];
      if ids[i] !in removed {
        filtered := filtered + [ids[i]];
      }
    }
    assert ids[..|ids|] == ids;
  }

  function Without(nodes: map<nat, Node<Vector>>, removed: set<nat>): map<nat, Node<Vector>> {
    map x | x in nodes && x !in removed :: nodes[x]
  }

  function Scrubbed(nodes: map<nat, Node<Vector>>, keys: set<nat>, removed: set<nat>): map<nat, Node<Vector>> {
    map x | x in nodes :: if x in keys then ScrubNode(nodes[x], removed) else nodes[x]
  }

  lemma {:induction false} PrunedIs(nodes: map<nat, Node<Vector>>, left: map<nat, Node<Vector>>,
                                    r: map<nat, Node<Vector>>, removed: set<nat>)
    requires left == Without(nodes, removed) && r == Scrubbed(left, left.Keys, removed)
    ensures r == Pruned(nodes, removed) && r.Keys == left.Keys && forall x :: x in r ==> r[x].level == left[x].level
  {
    hide ScrubNode;
    assert forall x :: x in nodes ==> ScrubNode(nodes[x], removed).level == nodes[x].level by {
      forall x | x in nodes ensures ScrubNode(nodes[x], removed).level == nodes[x].level {
        ScrubLevel(nodes[x], removed);
      }
    }
  }

  lemma {:induction false} ScrubLevel(n: Node<Vector>, removed: set<nat>)
    ensures ScrubNode(n, removed).level == n.level
  {
  }

  lemma {:induction false} ScrubNothing(ids: seq<nat>)
    ensures Scrub(ids, {}) == ids
  {
    if ids != [] { ScrubNothing(ids[..|ids| - 1]); }
  }

  lemma {:induction false} PrunedNone(nodes: map<nat, Node<Vector>>)
    ensures Pruned(nodes, {}) == nodes
  {
    forall x | x in nodes ensures ScrubNode(nodes[x], {}) == nodes[x] {
      var n := nodes[x];
      forall l | 0 <= l < |n.neighbors| ensures Scrub(n.neighbors[l], {}) == n.neighbors[l] {
        ScrubNothing(n.neighbors[l]);
      }
      assert ScrubNode(n, {}).neighbors == n.neighbors;
    }
  }

  /** Deletes nodes one by one, giving their estimate back. */
  method RemoveAll(nodes: map<nat, Node<Vector>>, removed: set<nat>, bytes: int, dim: nat, m: nat)
    returns (r: map<nat, Node<Vector>>, left: int)
    requires removed <= nodes.Keys && bytes == Memory(nodes, nodes.Keys, dim, m)
    ensures r == Without(nodes, removed) && left == Memory(r, r.Keys, dim, m)
  {
    hide Estimate, Memory;
    r, left := nodes, bytes;
    var rest := removed;
    assert Without(nodes, removed - rest) == nodes;
    while rest != {}
      invariant rest <= removed && r == Without(nodes, removed - rest) && left == Memory(r, r.Keys, dim, m)
      decreases rest
    {
      var id :| id in rest;
      var mem := EstimateNodeMemory(dim, m, r[id].level);
      MemoryWithout(r, r.Keys, dim, m, id);
      MemorySame(r, r - {id}, r.Keys - {id}, dim, m);
      assert (r - {id}).Keys == r.Keys - {id};
      left := left - mem;
      r := r - {id};
      rest := rest - {id};
    }
    assert removed - rest == removed;
  }

  /** Removal and scrubbing together. */
  method Prune(nodes: map<nat, Node<Vector>>, removed: set<nat>, bytes: int, dim: nat, m: nat)
    returns (r: map<nat, Node<Vector>>, left: int)
    requires EdgesOk(nodes, m) && removed <= nodes.Keys && bytes == Memory(nodes, nodes.Keys, dim, m)
    ensures r == Pruned(nodes, removed) && EdgesOk(r, m) && left == Memory(r, r.Keys, dim, m)
  {
    hide EdgesOk, Memory, Pruned, Without, Scrubbed;
    var kept, left' := RemoveAll(nodes, removed, bytes, dim, m);
    r := ScrubAll(kept, removed);
    left := left';
    PrunedIs(nodes, kept, r, removed);
    PrunedKeeps(nodes, m, removed);
    MemorySame(kept, r, r.Keys, dim, m);
  }

  method ScrubOne(n: Node<Vector>, removed: set<nat>) returns (r: Node<Vector>)
    ensures r == ScrubNode(n, removed)
  {
    var lists: seq<seq<nat>> := [];
    for l := 0 to |n.neighbors|
      invariant |lists| == l && forall k :: 0 <= k < l ==> lists[k] == Scrub(n.neighbors[k], removed)
    {
      var ids := ScrubList(n.neighbors[l], removed);
      lists := lists + [ids];
    }
    r := n.(neighbors := lists);
    assert r.neighbors == ScrubNode(n, removed).neighbors;
  }

  method ScrubAll(nodes: map<nat, Node<Vector>>, removed: set<nat>) returns (r: map<nat, Node<Vector>>)
    ensures r == Scrubbed(nodes, nodes.Keys, removed)
  {
    hide ScrubNode;
    r := nodes;
    var rest := nodes.Keys;
    while rest != {}
      invariant rest <= nodes.Keys && r == Scrubbed(nodes, nodes.Keys - rest, removed)
      decreases rest
    {
      var x :| x in rest;
      var n := ScrubOne(nodes[x], removed);
      r := r[x := n];
      rest := rest - {x};
    }
    assert nodes.Keys - rest == nodes.Keys;
  }

  /** Some node on the highest layer. */
  method FindEntry(nodes: map<nat, Node<Vector>>) returns (entry: nat, maxLevel: nat)
    requires nodes != map[]
    ensures entry in nodes && nodes[entry].level == maxLevel && forall x :: x in nodes ==> nodes[x].level <= maxLevel
  {
    entry, maxLevel := 0, 0;
    var bestLevel: int := -1;
    var rest := nodes.Keys;
    while rest != {}
      invariant rest <= nodes.Keys && (rest == nodes.Keys ==> bestLevel == -1 && maxLevel == 0)
      invariant rest != nodes.Keys ==> entry in nodes && nodes[entry].level == bestLevel == maxLevel
      invariant forall x :: x in nodes && x !in rest ==> nodes[x].level <= maxLevel
      decreases rest
    {
      var x :| x in rest;
      if nodes[x].level > maxLevel {
        maxLevel := nodes[x].level;
      }
      if nodes[x].level > bestLevel {
        bestLevel, entry := nodes[x].level, x;
      }
      rest := rest - {x};
    }
  }

  // ----- searching -----

  /** res are the k nearest of the pool, nearest first, ties broken anyhow. */
  ghost predicate KNearest(nodes: map<nat, Node<Vector>>, dist: (Vector, Vector) -> real, q: Vector, pool: set<nat>,
                           k: nat, res: seq<Found>) {
    && pool <= nodes.Keys && |res| <= k
    && (forall i, j :: 0 <= i < j < |res| ==> res[i].id != res[j].id && res[i].distance <= res[j].distance)
    && (forall f :: f in res ==> f.id in pool && f == Found(f.id, nodes[f.id].externalID, Dist(nodes, dist, q, f.id)))
    && (forall x :: x in pool && !Listed(res, x) ==>
          |res| == k && forall f :: f in res ==> f.distance <= Dist(nodes, dist, q, x))
  }

  predicate Listed(res: seq<Found>, x: nat) {
    exists i :: 0 <= i < |res| && res[i].id == x
  }

  function Live(s: set<nat>, tombs: set<nat>): set<nat> {
    s - tombs
  }

  function Reported(nodes: map<nat, Node<Vector>>, items: seq<Item>, n: nat): (res: seq<Found>)
    requires n <= |items| && forall i :: 0 <= i < n ==> items[i].id in nodes
    ensures |res| == n
    ensures forall i :: 0 <= i < n ==> res[i] == Found(items[i].id, nodes[items[i].id].externalID, items[i].dist)
  {
    seq(n, i requires 0 <= i < n => Found(items[i].id, nodes[items[i].id].externalID, items[i].dist))
  }

  /** The first k of the sorted results of a beam at least that wide. */
  lemma {:induction false} TopK(nodes: map<nat, Node<Vector>>, tombs: set<nat>, dist: (Vector, Vector) -> real,
                                q: Vector, ev: set<nat>, ef: nat, rs: set<Item>, sorted: seq<Item>, k: nat, n: nat)
    requires Nearest(nodes, tombs, dist, q, ev, ef, rs) && k <= ef && n == (if |sorted| > k then k else |sorted|)
    requires Ascending(sorted) && DistinctIds(sorted) && |sorted| == |rs| && forall it :: it in sorted <==> it in rs
    ensures forall i :: 0 <= i < n ==> sorted[i].id in nodes
    ensures KNearest(nodes, dist, q, Live(ev, tombs), k, Reported(nodes, sorted, n))
  {
    hide Dist, Listed, HasId;
    assert forall i :: 0 <= i < |sorted| ==> sorted[i] in rs;
    var res, pool := Reported(nodes, sorted, n), Live(ev, tombs);
    forall x | x in pool && !Listed(res, x)
      ensures |res| == k && forall f :: f in res ==> f.distance <= Dist(nodes, dist, q, x)
    {
      NotAmongTop(nodes, tombs, dist, q, ev, ef, rs, sorted, k, n, x);
    }
  }

  /** A live node that is not reported is no nearer than any that is, and k are reported. */
  lemma {:induction false} NotAmongTop(nodes: map<nat, Node<Vector>>, tombs: set<nat>, dist: (Vector, Vector) -> real,
                                       q: Vector, ev: set<nat>, ef: nat, rs: set<Item>, sorted: seq<Item>, k: nat,
                                       n: nat, x: nat)
    requires Nearest(nodes, tombs, dist, q, ev, ef, rs) && k <= ef && n == (if |sorted| > k then k else |sorted|)
    requires Ascending(sorted) && |sorted| == |rs| && forall it :: it in sorted <==> it in rs
    requires forall i :: 0 <= i < |sorted| ==> sorted[i].id in nodes
    requires x in Live(ev, tombs) && !Listed(Reported(nodes, sorted, n), x)
    ensures n == k && forall i :: 0 <= i < n ==> sorted[i].dist <= Dist(nodes, dist, q, x)
  {
    hide Dist;
    assert forall i :: 0 <= i < |sorted| ==> sorted[i] in rs;
    if HasId(rs, x) {
      var it :| it in rs && it.id == x;
      var j :| 0 <= j < |sorted| && sorted[j] == it;
      var res := Reported(nodes, sorted, n);
      assert forall i :: 0 <= i < n ==> res[i].id == sorted[i].id;
      assert j >= n;
    }
  }

  /** If every live reachable node is among the results, the pool is all of them. */
  lemma {:induction false} Exhaustive(nodes: map<nat, Node<Vector>>, tombs: set<nat>, dist: (Vector, Vector) -> real,
                                      q: Vector, ev: set<nat>, ef: nat, rs: set<Item>, layer: nat, entries: set<nat>)
    requires Nearest(nodes, tombs, dist, q, ev, ef, rs)
    requires forall x :: x in ev ==> Reachable(nodes, layer, entries, x)
    requires forall x :: x in LiveReachable(nodes, tombs, layer, entries) ==> HasId(rs, x)
    ensures Live(ev, tombs) == LiveReachable(nodes, tombs, layer, entries)
  {
    hide Dist, Reachable;
  }

  predicate OnTop(nodes: map<nat, Node<Vector>>, entry: nat, maxLevel: nat) {
    entry in nodes && nodes[entry].level == maxLevel && forall x :: x in nodes ==> nodes[x].level <= maxLevel
  }

  lemma {:induction false} OnTopNext(before: map<nat, Node<Vector>>, after: map<nat, Node<Vector>>, id: nat,
                                     node: Node<Vector>, entry: nat, maxLevel: nat)
    requires OnTop(before, entry, maxLevel) && id !in before && SameNodes(before[id := node], after)
    ensures if node.level > maxLevel then OnTop(after, id, node.level) else OnTop(after, entry, maxLevel)
    ensures after != map[]
  {
    assert id in after;
  }

  lemma {:induction false} EntryExists(nodes: map<nat, Node<Vector>>, entry: nat, maxLevel: nat)
    requires OnTop(nodes, entry, maxLevel)
    ensures entry in nodes && nodes[entry].level == maxLevel
  {
  }

  lemma {:induction false} SameKeys(a: map<nat, Node<Vector>>, b: map<nat, Node<Vector>>)
    requires SameNodes(a, b)
    ensures b.Keys == a.Keys
  {
  }

  /** No edge leads to the node. */
  ghost predicate Isolated(nodes: map<nat, Node<Vector>>, id: nat) {
    forall l: int :: NoEdgeTo(nodes, id, l)
  }

  class Graph {
    const dim: nat
    const m: nat
    const efConstruct: nat
    const efSearch: nat
    const maxMemoryBytes: nat          // 0: unlimited
    const dist: (Vector, Vector) -> real
    var nodes: map<nat, Node<Vector>>
    var entryPoint: nat
    var maxLevel: nat
    var tombstones: set<nat>
    var memoryBytes: int

    /** The entry point is on the top layer. */
    ghost predicate EntryOk()
      reads this
    {
      if nodes == map[] then entryPoint == 0 && maxLevel == 0
      else OnTop(nodes, entryPoint, maxLevel)
    }

    ghost predicate Valid()
      reads this
    {
      && dim >= 1 && m >= 2 && efConstruct >= 1 && efSearch >= 1
      && EdgesOk(nodes, m) && EntryOk() && tombstones <= nodes.Keys
      && memoryBytes == Memory(nodes, nodes.Keys, dim, m)
    }

    constructor (dim: nat, m: nat, efConstruct: nat, efSearch: nat, maxMemoryBytes: nat, dist: (Vector, Vector) -> real)
      requires dim >= 1 && m >= 2 && efConstruct >= 1 && efSearch >= 1
      ensures Valid() && nodes == map[] && tombstones == {} && memoryBytes == 0
      ensures this.dim == dim && this.m == m && this.efConstruct == efConstruct && this.efSearch == efSearch
      ensures this.maxMemoryBytes == maxMemoryBytes && this.dist == dist
    {
      this.dim, this.m, this.efConstruct, this.efSearch := dim, m, efConstruct, efSearch;
      this.maxMemoryBytes, this.dist := maxMemoryBytes, dist;
      nodes, entryPoint, maxLevel, tombstones, memoryBytes := map[], 0, 0, {}, 0;
    }

    /** Nearest first. The greedy walks end where the beam starts; rs is what the beam comes back
        with, and the first k of it are reported. The beam is as wide as the override asks, or
        efSearch without one, or k if that is more; the result is exact whenever no more live
        nodes are within reach than any of the widths in play. */
    method Search(query: Vector, k: nat, efOverride: nat)
      returns (r: Result<seq<Found>>, ghost stops: seq<nat>, ghost start: nat, ghost ev: set<nat>, ghost rs: set<Item>)
      requires Valid()
      ensures r.Err? <==> |query| != dim || nodes == map[]
      ensures r.Err? ==> r.error == if |query| != dim then DimensionMismatch else EmptyGraph
      ensures r.Ok? ==> Descended(nodes, dist, query, entryPoint, maxLevel, 0, stops, start)
      ensures r.Ok? ==> start in nodes && Dist(nodes, dist, query, start) <= Dist(nodes, dist, query, entryPoint)
      ensures r.Ok? && efOverride > 0 && k <= efOverride ==>
        Explored(nodes, tombstones, dist, query, {start}, efOverride, 0, ev, rs)
      ensures r.Ok? && efOverride == 0 && k <= efSearch ==>
        Explored(nodes, tombstones, dist, query, {start}, efSearch, 0, ev, rs)
      ensures r.Ok? && (0 < efOverride <= k || (efOverride == 0 && efSearch <= k)) ==>
        Explored(nodes, tombstones, dist, query, {start}, k, 0, ev, rs)
      ensures r.Ok? ==> KNearest(nodes, dist, query, Live(ev, tombstones), k, r.value)
      ensures r.Ok? ==> forall f :: f in r.value ==> Item(f.id, f.distance) in rs
      ensures r.Ok? && efOverride > 0 && |LiveReachable(nodes, tombstones, 0, {start})| <= efOverride ==>
        KNearest(nodes, dist, query, LiveReachable(nodes, tombstones, 0, {start}), k, r.value)
      ensures r.Ok? && efOverride == 0 && |LiveReachable(nodes, tombstones, 0, {start})| <= efSearch ==>
        KNearest(nodes, dist, query, LiveReachable(nodes, tombstones, 0, {start}), k, r.value)
      ensures r.Ok? && |LiveReachable(nodes, tombstones, 0, {start})| <= k ==>
        KNearest(nodes, dist, query, LiveReachable(nodes, tombstones, 0, {start}), k, r.value)
    {
      hide Reachable, LiveReachable, Dist, KNearest, Nearest, SortByDist, EdgesOk, Descended, Explored;
      stops, start, ev, rs := [], 0, {}, {};
      if |query| != dim {
        return Err(DimensionMismatch), stops, start, ev, rs;
      }
      if nodes == map[] {
        return Err(EmptyGraph), stops, start, ev, rs;
      }
      var ef := if efOverride > 0 then efOverride else efSearch;
      if ef < k {
        ef := k;
      }
      var ep, stops' := Descend(nodes, m, dist, query, entryPoint, maxLevel, 0);
      start, stops := ep, stops';
      assert IdSet([ep]) == {ep};
      var candidates, ev', rs' := SearchLayer(nodes, tombstones, dist, query, [ep], ef, 0);
      ev, rs := ev', rs';
      ExploredParts(nodes, tombstones, dist, query, {ep}, ef, 0, ev, rs);
      ResultList(nodes, tombstones, dist, query, ev, ef, candidates, rs);
      var sorted := SortByDist(candidates);
      SortAscends(candidates);
      SortKeepsDistinct(candidates);
      SameMembers(candidates);
      var n := if |sorted| > k then k else |sorted|;
      TopK(nodes, tombstones, dist, query, ev, ef, rs, sorted, k, n);
      if |LiveReachable(nodes, tombstones, 0, {ep})| <= ef {
        Exhaustive(nodes, tombstones, dist, query, ev, ef, rs, 0, {ep});
      }
      r := Ok(Reported(nodes, sorted, n));
    }

    /** A new node, with any level. On every layer it shares with the others it gets neighbours
        selected from the nearest nodes found there, and they get it; nothing else changes. */
    method Insert(id: nat, externalID: Bytes, vec: Vector, level: nat) returns (r: Result<()>)
      requires Valid()
      modifies this
      ensures Valid() && tombstones == old(tombstones)
      ensures r == Err(DimensionMismatch) <==> |vec| != dim
      ensures r == Err(DuplicateID) <==> |vec| == dim && id in old(nodes)
      ensures r == Err(MemoryLimitExceeded) <==>
        && |vec| == dim && id !in old(nodes) && maxMemoryBytes > 0
        && old(memoryBytes) + Estimate(dim, m, level) > maxMemoryBytes
      ensures r != Err(EmptyGraph)
      ensures maxMemoryBytes > 0 && old(memoryBytes) <= maxMemoryBytes ==> memoryBytes <= maxMemoryBytes
      ensures r.Err? ==> nodes == old(nodes) && memoryBytes == old(memoryBytes) && entryPoint == old(entryPoint)
      ensures r.Ok? ==> Attached(old(nodes), nodes, id, NewNode(externalID, vec, level), old(entryPoint), old(maxLevel))
      ensures r.Ok? ==> memoryBytes == old(memoryBytes) + Estimate(dim, m, level)
      ensures r.Ok? ==> entryPoint == if old(nodes) == map[] || level > old(maxLevel) then id else old(entryPoint)
    {
      hide EdgesOk, NewNode, Estimate, Memory, SameNodes, JoinedFrom;
      if |vec| != dim {
        return Err(DimensionMismatch);
      }
      if id in nodes {
        return Err(DuplicateID);
      }
      var mem := EstimateNodeMemory(dim, m, level);
      if maxMemoryBytes > 0 && memoryBytes + mem > maxMemoryBytes {
        return Err(MemoryLimitExceeded);
      }
      NewNodeIs(externalID, vec, level);
      Attach(id, NewNode(externalID, vec, level), mem);
      r := Ok(());
    }

    /** The node is there, all others are what they were, and the common layers are joined. */
    ghost predicate Attached(before: map<nat, Node<Vector>>, after: map<nat, Node<Vector>>, id: nat, node: Node<Vector>,
                             entry: nat, top: nat)
      reads this
    {
      && SameNodes(before[id := node], after)
      && if before == map[] then after == map[id := node]
         else JoinedFrom(before[id := node], after, tombstones, m, dist, efConstruct, id, entry, top)
    }

    method Attach(id: nat, node: Node<Vector>, mem: nat)
      requires Valid() && id !in nodes && node == NewNode(node.externalID, node.vector, node.level)
      requires mem == Estimate(dim, m, node.level)
      modifies this`nodes, this`memoryBytes, this`entryPoint, this`maxLevel
      ensures Valid() && Attached(old(nodes), nodes, id, node, old(entryPoint), old(maxLevel))
      ensures memoryBytes == old(memoryBytes) + mem
      ensures entryPoint == if old(nodes) == map[] || node.level > old(maxLevel) then id else old(entryPoint)
    {
      hide EdgesOk, Isolated, NewNode, Estimate, Memory, JoinedFrom;
      AddNodeKeeps(nodes, m, id, node);
      MemoryAdded(nodes, dim, m, id, node);
      assert nodes[id := node].Keys == nodes.Keys + {id};
      if nodes == map[] {
        nodes := nodes[id := node];
        memoryBytes := memoryBytes + mem;
        entryPoint, maxLevel := id, node.level;
        return;
      }
      AttachMore(id, node, mem);
    }

    method AttachMore(id: nat, node: Node<Vector>, mem: nat)
      requires Valid() && id !in nodes && nodes != map[] && EdgesOk(nodes[id := node], m)
      requires Isolated(nodes[id := node], id)
      requires Memory(nodes[id := node], nodes.Keys + {id}, dim, m) == memoryBytes + mem
      modifies this`nodes, this`memoryBytes, this`entryPoint, this`maxLevel
      ensures Valid() && SameNodes(old(nodes)[id := node], nodes) && memoryBytes == old(memoryBytes) + mem
      ensures JoinedFrom(old(nodes)[id := node], nodes, tombstones, m, dist, efConstruct, id, old(entryPoint),
                         old(maxLevel))
      ensures entryPoint == if node.level > old(maxLevel) then id else old(entryPoint)
    {
      hide EdgesOk, Isolated, Memory, JoinedFrom, Lesser, SameNodes, OnTop;
      assert entryPoint in nodes && nodes[entryPoint].level == maxLevel by { EntryExists(nodes, entryPoint, maxLevel); }
      nodes := nodes[id := node];
      assert nodes.Keys == old(nodes).Keys + {id};
      memoryBytes := memoryBytes + mem;
      nodes := Join(nodes, tombstones, dim, m, dist, efConstruct, id, entryPoint, maxLevel);
      assert nodes.Keys == old(nodes).Keys + {id} by { SameKeys(old(nodes)[id := node], nodes); }
      OnTopNext(old(nodes), nodes, id, node, entryPoint, maxLevel);
      if node.level > maxLevel {
        entryPoint, maxLevel := id, node.level;
      }
    }

    /** Removes the tombstoned nodes and every edge to them; memory and entry point follow. */
    method Cleanup() returns (count: nat)
      requires Valid()
      modifies this
      ensures Valid() && nodes == Pruned(old(nodes), old(tombstones)) && nodes.Keys == old(nodes).Keys - old(tombstones)
      ensures forall x :: x in nodes ==>
        nodes[x] == old(nodes)[x].(neighbors := nodes[x].neighbors) && |nodes[x].neighbors| == |old(nodes)[x].neighbors|
      ensures forall x, l: nat :: x in nodes ==>
        IdSet(Nb(nodes, x, l)) == IdSet(Nb(old(nodes), x, l)) - old(tombstones)
      ensures tombstones == {} && count == |old(tombstones)|
    {
      hide EdgesOk, Memory, Pruned, Estimate, Without, Scrubbed;
      PrunedEdges(nodes, tombstones);
      if tombstones == {} {
        PrunedNone(nodes);
        return 0;
      }
      nodes, memoryBytes := Prune(nodes, tombstones, memoryBytes, dim, m);
      count := |tombstones|;
      tombstones := {};
      Reenter();
    }

    /** Recomputes entry point and top layer. */
    method Reenter()
      modifies this`entryPoint, this`maxLevel
      ensures EntryOk()
    {
      if nodes == map[] {
        maxLevel, entryPoint := 0, 0;
        return;
      }
      entryPoint, maxLevel := FindEntry(nodes);
    }

    method MarkDeleted(id: nat)
      requires Valid()
      modifies this`tombstones
      ensures Valid() && tombstones == old(tombstones) + (if id in nodes then {id} else {})
    {
      if id in nodes {
        tombstones := tombstones + {id};
      }
    }
  }

  /** A graph is refused exactly for options out of range. */
  method NewGraph(dim: int, m: int, efConstruct: int, efSearch: int, maxMemoryBytes: nat,
                  dist: (Vector, Vector) -> real)
    returns (r: Option<Graph>)
    ensures r.Some? <==> dim >= 1 && m >= 2 && efConstruct >= 1 && efSearch >= 1
    ensures r.Some? ==> fresh(r.value) && r.value.Valid() && r.value.nodes == map[] && r.value.tombstones == {}
    ensures r.Some? ==> r.value.dim == dim && r.value.m == m && r.value.efConstruct == efConstruct
    ensures r.Some? ==> r.value.efSearch == efSearch && r.value.maxMemoryBytes == maxMemoryBytes && r.value.dist == dist
  {
    if dim < 1 || m < 2 || efConstruct < 1 || efSearch < 1 {
      return None;
    }
    var g := new Graph(dim, m, efConstruct, efSearch, maxMemoryBytes, dist);
    return Some(g);
  }

  lemma {:induction false} NewNodeIs(externalID: Bytes, vec: Vector, level: nat)
    ensures var n := NewNode(externalID, vec, level); n == NewNode(n.externalID, n.vector, n.level)
    ensures var n := NewNode(externalID, vec, level); n.externalID == externalID && n.vector == vec && n.level == level
  {
  }

  lemma {:induction false} MemoryAdded(nodes: map<nat, Node<Vector>>, dim: nat, m: nat, id: nat, n: Node<Vector>)
    requires id !in nodes
    ensures var r := nodes[id := n];
      Memory(r, r.Keys, dim, m) == Memory(nodes, nodes.Keys, dim, m) + Estimate(dim, m, n.level)
  {
    hide Estimate;
    var r := nodes[id := n];
    MemoryWithout(r, r.Keys, dim, m, id);
    assert r.Keys - {id} == nodes.Keys;
    MemorySame(r, nodes, nodes.Keys, dim, m);
  }

  /** No neighbour on the layer is nearer. */
  ghost predicate LocalMinimum(nodes: map<nat, Node<Vector>>, dist: (Vector, Vector) -> real, query: Vector, x: nat,
                               l: nat) {
    x in nodes && forall y :: y in Nb(nodes, x, l) ==>
      y in nodes && Dist(nodes, dist, query, x) <= Dist(nodes, dist, query, y)
  }

  /** A greedy walk on one layer: along its edges to a local minimum, never farther away. */
  ghost predicate Walked(nodes: map<nat, Node<Vector>>, dist: (Vector, Vector) -> real, query: Vector, from: nat,
                         to: nat, l: nat) {
    && from in nodes && LocalMinimum(nodes, dist, query, to, l) && Reachable(nodes, l, {from}, to)
    && Dist(nodes, dist, query, to) <= Dist(nodes, dist, query, from)
  }

  /** Where the walks have led after the first i layers. */
  function StopAt(entry: nat, stops: seq<nat>, i: nat): nat
    requires i <= |stops|
  {
    if i == 0 then entry else stops[i - 1]
  }

  ghost predicate Walks(nodes: map<nat, Node<Vector>>, dist: (Vector, Vector) -> real, query: Vector, entry: nat,
                        top: nat, stops: seq<nat>) {
    && |stops| <= top
    && forall i :: 0 <= i < |stops| ==> Walked(nodes, dist, query, StopAt(entry, stops, i), stops[i], top - i)
  }

  /** From the entry point by one greedy walk per layer, from the top down to just above a layer. */
  ghost predicate Descended(nodes: map<nat, Node<Vector>>, dist: (Vector, Vector) -> real, query: Vector, entry: nat,
                            top: nat, above: nat, stops: seq<nat>, ep: nat) {
    && |stops| == (if above < top then top - above else 0) && ep == StopAt(entry, stops, |stops|)
    && Walks(nodes, dist, query, entry, top, stops)
  }

  lemma {:induction false} WalkedOn(nodes: map<nat, Node<Vector>>, dist: (Vector, Vector) -> real, query: Vector,
                                    entry: nat, top: nat, stops: seq<nat>, to: nat)
    requires Walks(nodes, dist, query, entry, top, stops) && |stops| < top
    requires Walked(nodes, dist, query, StopAt(entry, stops, |stops|), to, top - |stops|)
    ensures Walks(nodes, dist, query, entry, top, stops + [to])
  {
    hide Walked;
    var more := stops + [to];
    assert forall i :: 0 <= i < |more| ==> StopAt(entry, more, i) == StopAt(entry, stops, i);
  }

  lemma {:induction false} NoWalks(nodes: map<nat, Node<Vector>>, dist: (Vector, Vector) -> real, query: Vector,
                                   entry: nat, top: nat)
    ensures Walks(nodes, dist, query, entry, top, [])
  {
  }

  /** One layer of the descent. */
  method Walk(nodes: map<nat, Node<Vector>>, m: nat, dist: (Vector, Vector) -> real, query: Vector, ep: nat, l: nat)
    returns (best: nat)
    requires EdgesOk(nodes, m) && ep in nodes && nodes[ep].level >= l
    ensures best in nodes && nodes[best].level >= l && Walked(nodes, dist, query, ep, best, l)
    ensures Dist(nodes, dist, query, best) <= Dist(nodes, dist, query, ep)
  {
    hide Reachable, Dist, EdgesOk;
    best := GreedyClosest(nodes, m, dist, query, ep, l);
  }

  /** The greedy descent from the top layer to just above the given one. */
  method Descend(nodes: map<nat, Node<Vector>>, m: nat, dist: (Vector, Vector) -> real, query: Vector, entryPoint: nat,
                 maxLevel: nat, above: nat) returns (ep: nat, ghost stops: seq<nat>)
    requires EdgesOk(nodes, m) && entryPoint in nodes && nodes[entryPoint].level == maxLevel
    ensures Descended(nodes, dist, query, entryPoint, maxLevel, above, stops, ep)
    ensures ep in nodes && (if above < maxLevel then nodes[ep].level > above else ep == entryPoint)
    ensures Dist(nodes, dist, query, ep) <= Dist(nodes, dist, query, entryPoint)
  {
    hide Dist, EdgesOk, Walks, Walked;
    ep, stops := entryPoint, [];
    NoWalks(nodes, dist, query, entryPoint, maxLevel);
    var l := maxLevel;
    while l > above
      invariant ep in nodes && nodes[ep].level >= l && 0 <= l <= maxLevel
      invariant above < maxLevel ==> l >= above && (l == above ==> nodes[ep].level > above)
      invariant above >= maxLevel ==> l == maxLevel
      invariant |stops| == maxLevel - l && ep == StopAt(entryPoint, stops, |stops|)
      invariant Walks(nodes, dist, query, entryPoint, maxLevel, stops)
      invariant Dist(nodes, dist, query, ep) <= Dist(nodes, dist, query, entryPoint)
    {
      var next := Walk(nodes, m, dist, query, ep, l);
      WalkedOn(nodes, dist, query, entryPoint, maxLevel, stops, next);
      ep, stops := next, stops + [next];
      l := l - 1;
    }
  }

  function Lesser(a: nat, b: nat): nat {
    if b < a then b else a
  }

  /** A node added without edges is linked to the rest. */
  method Join(nodes: map<nat, Node<Vector>>, tombs: set<nat>, dim: nat, m: nat, dist: (Vector, Vector) -> real, ef: nat,
              id: nat, entryPoint: nat, maxLevel: nat) returns (r: map<nat, Node<Vector>>)
    requires EdgesOk(nodes, m) && id in nodes && Isolated(nodes, id) && ef >= 1 && m >= 1
    requires entryPoint in nodes && entryPoint != id && nodes[entryPoint].level == maxLevel
    ensures EdgesOk(r, m) && SameNodes(nodes, r) && Memory(r, r.Keys, dim, m) == Memory(nodes, nodes.Keys, dim, m)
    ensures JoinedFrom(nodes, r, tombs, m, dist, ef, id, entryPoint, maxLevel)
  {
    hide EdgesOk, NoEdgeTo, Memory, JoinedAbove, Dist, Descended;
    var level := nodes[id].level;
    var ep, stops := Descend(nodes, m, dist, nodes[id].vector, entryPoint, maxLevel, level);
    var top := Lesser(level, maxLevel);
    ghost var found;
    r, found := ConnectAll(nodes, tombs, m, dist, ef, id, nodes[id].vector, ep, top);
    MemorySame(nodes, r, nodes.Keys, dim, m);
  }

  /** Where the descent from the entry point left off, above the layers of the node. */
  ghost predicate EntersAt(nodes: map<nat, Node<Vector>>, dist: (Vector, Vector) -> real, id: nat, entryPoint: nat,
                           maxLevel: nat, ep: nat) {
    && id in nodes
    && exists stops :: Descended(nodes, dist, nodes[id].vector, entryPoint, maxLevel, nodes[id].level, stops, ep)
  }

  /** The node has been joined to all its layers: the topmost is searched from where the descent
      left off, each other one from what was found on the layer above it. */
  ghost predicate JoinedFrom(nodes: map<nat, Node<Vector>>, r: map<nat, Node<Vector>>, tombs: set<nat>, m: nat,
                             dist: (Vector, Vector) -> real, ef: nat, id: nat, entryPoint: nat, maxLevel: nat) {
    && id in nodes
    && exists ep: nat, found: map<int, set<Item>> ::
         && EntersAt(nodes, dist, id, entryPoint, maxLevel, ep)
         && JoinedAbove(nodes, r, tombs, m, dist, ef, id, nodes[id].vector, ep, found, -1,
                        Lesser(nodes[id].level, maxLevel))
  }

  /** The entry points of layer k, given what was found on the layers above. */
  function EntriesAt(ep: nat, found: map<int, set<Item>>, k: int, top: nat): set<nat> {
    if k == top then {ep} else if k + 1 in found then ItemIds(found[k + 1]) else {}
  }

  /** The layers above l up to the top one are joined, and nothing is changed elsewhere. */
  ghost predicate JoinedAbove(nodes: map<nat, Node<Vector>>, r: map<nat, Node<Vector>>, tombs: set<nat>, m: nat,
                              dist: (Vector, Vector) -> real, ef: nat, id: nat, vec: Vector, ep: nat,
                              found: map<int, set<Item>>, l: int, top: nat) {
    && (forall k :: k in found <==> l < k <= top)
    && (forall k :: 0 <= k && l < k <= top ==>
          LayerJoined(nodes, r, tombs, m, dist, ef, id, vec, k, EntriesAt(ep, found, k, top), found[k]))
    && (forall y: nat, k: nat :: k <= l || k > top ==> Nb(r, y, k) == Nb(nodes, y, k))
  }

  lemma {:induction false} JoinedNext(nodes: map<nat, Node<Vector>>, r: map<nat, Node<Vector>>,
                                      r': map<nat, Node<Vector>>, tombs: set<nat>, m: nat,
                                      dist: (Vector, Vector) -> real, ef: nat, id: nat, vec: Vector, ep: nat,
                                      found: map<int, set<Item>>, l: nat, top: nat, rs: set<Item>)
    requires JoinedAbove(nodes, r, tombs, m, dist, ef, id, vec, ep, found, l, top) && SameNodes(nodes, r) && l <= top
    requires LayerJoined(r, r', tombs, m, dist, ef, id, vec, l, EntriesAt(ep, found, l, top), rs)
    requires forall y: nat, k: nat :: k != l ==> Nb(r', y, k) == Nb(r, y, k)
    ensures JoinedAbove(nodes, r', tombs, m, dist, ef, id, vec, ep, found[l := rs], l - 1, top)
  {
    hide LayerJoined, Nb, SameNodes, EntriesAt;
    var more := found[l := rs];
    SameBack(nodes, r);
    EntriesSame(ep, found, l, rs, top, l);
    JoinedSame(r, r', nodes, r', tombs, m, dist, ef, id, vec, l, EntriesAt(ep, found, l, top), rs);
    forall k | l < k <= top
      ensures LayerJoined(nodes, r', tombs, m, dist, ef, id, vec, k, EntriesAt(ep, more, k, top), more[k])
    {
      EntriesSame(ep, found, l, rs, top, k);
      JoinedSame(nodes, r, nodes, r', tombs, m, dist, ef, id, vec, k, EntriesAt(ep, found, k, top), found[k]);
    }
  }

  lemma {:induction false} SameBack(a: map<nat, Node<Vector>>, b: map<nat, Node<Vector>>)
    requires SameNodes(a, b)
    ensures SameNodes(b, a) && SameNodes(a, a)
  {
  }

  lemma {:induction false} EntriesSame(ep: nat, found: map<int, set<Item>>, l: int, rs: set<Item>, top: nat, k: int)
    requires l <= k
    ensures EntriesAt(ep, found[l := rs], k, top) == EntriesAt(ep, found, k, top)
  {
  }

  /** All layers of the new node that exist, from the top one down. */
  method ConnectAll(nodes: map<nat, Node<Vector>>, tombs: set<nat>, m: nat, dist: (Vector, Vector) -> real, ef: nat,
                    id: nat, vec: Vector, ep: nat, top: nat)
    returns (r: map<nat, Node<Vector>>, ghost layers: map<int, set<Item>>)
    requires EdgesOk(nodes, m) && id in nodes && top <= nodes[id].level && NoEdgeTo(nodes, id, top) && ef >= 1 && m >= 1
    requires ep in nodes && ep != id && top <= nodes[ep].level
    ensures EdgesOk(r, m) && SameNodes(nodes, r)
    ensures JoinedAbove(nodes, r, tombs, m, dist, ef, id, vec, ep, layers, -1, top)
  {
    hide EdgesOk, Nb, LayerJoined, Explored, Chosen, Linked, ItemIds;
    r, layers := nodes, map[];
    var entryIDs := [ep];
    var l: int := top;
    while l >= 0
      invariant -1 <= l <= top && EdgesOk(r, m) && SameNodes(nodes, r) && NoEdgeTo(r, id, l)
      invariant |entryIDs| <= ef && (l >= 0 ==> EntriesOk(r, id, l, entryIDs)) && (tombs == {} ==> entryIDs != [])
      invariant l >= 0 ==> IdSet(entryIDs) == EntriesAt(ep, layers, l, top)
      invariant JoinedAbove(nodes, r, tombs, m, dist, ef, id, vec, ep, layers, l, top)
    {
      ghost var before, ev, rs := r, {}, {};
      var found;
      r, found, ev, rs := ConnectLayer(r, tombs, m, dist, ef, id, vec, entryIDs, l);
      if tombs == {} {
        assert entryIDs[0] in IdSet(entryIDs);
        EvExists(before, tombs, dist, vec, IdSet(entryIDs), ef, l, ev, rs);
        SomeChosen(before, dist, vec, ev, ef, rs, Nb(r, id, l), Cap(m, l));
      }
      LayerIsJoined(before, r, tombs, m, dist, ef, id, vec, l, IdSet(entryIDs), ev, rs);
      JoinedNext(nodes, before, r, tombs, m, dist, ef, id, vec, ep, layers, l, top, rs);
      layers := layers[l := rs];
      entryIDs := found;
      l := l - 1;
    }
  }

  lemma {:induction false} LayerIsJoined(nodes: map<nat, Node<Vector>>, r: map<nat, Node<Vector>>, tombs: set<nat>,
                                         m: nat, dist: (Vector, Vector) -> real, ef: nat, id: nat, vec: Vector,
                                         l: nat, entries: set<nat>, ev: set<nat>, rs: set<Item>)
    requires Explored(nodes, tombs, dist, vec, entries, ef, l, ev, rs)
    requires Chosen(nodes, dist, rs, Nb(r, id, l), Cap(m, l))
    requires Linked(nodes, r, m, dist, id, l) && (tombs == {} ==> Nb(r, id, l) != [])
    requires |Nb(r, id, l)| == Smaller(|rs|, if l == 0 then 2 * m else m)
    ensures LayerJoined(nodes, r, tombs, m, dist, ef, id, vec, l, entries, rs)
  {
    hide Explored, Chosen, Linked, Nb, Cap;
  }

  lemma {:induction false} EvExists(nodes: map<nat, Node<Vector>>, tombs: set<nat>, dist: (Vector, Vector) -> real,
                                    q: Vector, entries: set<nat>, ef: nat, l: nat, ev: set<nat>, rs: set<Item>)
    requires Explored(nodes, tombs, dist, q, entries, ef, l, ev, rs)
    ensures ev <= nodes.Keys && entries <= ev && Nearest(nodes, tombs, dist, q, ev, ef, rs)
  {
    hide Reachable, LiveReachable, NeighborsSeen;
  }

  lemma {:induction false} ExploredParts(nodes: map<nat, Node<Vector>>, tombs: set<nat>, dist: (Vector, Vector) -> real,
                                         q: Vector, entries: set<nat>, ef: nat, l: nat, ev: set<nat>, rs: set<Item>)
    requires Explored(nodes, tombs, dist, q, entries, ef, l, ev, rs)
    ensures Nearest(nodes, tombs, dist, q, ev, ef, rs)
    ensures forall x :: x in ev ==> Reachable(nodes, l, entries, x)
    ensures var all := LiveReachable(nodes, tombs, l, entries); |all| <= ef ==> forall x :: x in all ==> HasId(rs, x)
  {
    hide Reachable, LiveReachable, NeighborsSeen, Nearest;
  }
}
