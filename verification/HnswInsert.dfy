/**
Connecting a new node on one layer of the graph (vector/hnsw/graph.go): search, choose,
link both ways, shrink what overflows. The structural invariant survives.
*/
module HnswInsert {
  import opened DistHeaps
  import opened HnswSearch
  import opened HnswGraph

  /** Same nodes, same vectors, same levels: only edges may differ. */
  predicate SameNodes<V(==)>(a: map<nat, Node<V>>, b: map<nat, Node<V>>) {
    && a.Keys == b.Keys
    && forall x :: x in a ==>
         a[x].externalID == b[x].externalID && a[x].vector == b[x].vector && a[x].level == b[x].level
  }

  /** No edge of the layers up to l leads to x. */
  predicate NoEdgeTo<V>(nodes: map<nat, Node<V>>, x: nat, l: int) {
    forall y: nat, k: nat :: y in nodes && k <= l ==> x !in Nb(nodes, y, k)
  }

  function SetList<V>(nodes: map<nat, Node<V>>, x: nat, l: nat, ids: seq<nat>): map<nat, Node<V>>
    requires x in nodes && l < |nodes[x].neighbors|
  {
    nodes[x := nodes[x].(neighbors := nodes[x].neighbors[l := ids])]
  }

  /** Replacing one list by a well-formed one changes that list only. */
  lemma {:induction false} SetListKeeps<V>(nodes: map<nat, Node<V>>, m: nat, x: nat, l: nat, ids: seq<nat>)
    requires EdgesOk(nodes, m) && x in nodes && l <= nodes[x].level && ListOk(nodes, m, x, l, ids)
    requires l < |nodes[x].neighbors|
    ensures var r := SetList(nodes, x, l, ids);
      && EdgesOk(r, m) && SameNodes(nodes, r)
      && (forall y: nat, k: nat :: Nb(r, y, k) == if y == x && k == l then ids else Nb(nodes, y, k))
  {
    var r := SetList(nodes, x, l, ids);
    forall y | y in r ensures NodeOk(r, m, y) {
      assert NodeOk(nodes, m, y);
      forall k | 0 <= k <= r[y].level ensures ListOk(r, m, y, k, r[y].neighbors[k]) {
        assert ListOk(nodes, m, y, k, nodes[y].neighbors[k]);
      }
    }
  }

  /** A list cut down to its capacity, if it has to be: the nearest to its owner stay. */
  ghost predicate Kept<V>(nodes: map<nat, Node<V>>, dist: (V, V) -> real, x: nat, ids: seq<nat>, kept: seq<nat>,
                          cap: nat) {
    if |ids| <= cap then kept == ids
    else
      && |kept| == cap && Distinct(kept) && (forall y :: y in kept ==> y in ids)
      && x in nodes && (forall y :: y in ids ==> y in nodes)
      && forall y, z :: y in ids && y !in kept && z in kept ==>
           Dist(nodes, dist, nodes[x].vector, z) <= Dist(nodes, dist, nodes[x].vector, y)
  }

  /** The reverse edge; an overflowing list keeps the nearest. */
  method AddReverse<V(==)>(nodes: map<nat, Node<V>>, m: nat, dist: (V, V) -> real, id: nat, n: nat, l: nat)
    returns (r: map<nat, Node<V>>)
    requires EdgesOk(nodes, m) && n in nodes && n != id && l <= nodes[n].level
    requires id in nodes && l <= nodes[id].level && id !in Nb(nodes, n, l)
    ensures EdgesOk(r, m) && SameNodes(nodes, r)
    ensures forall y: nat, k: nat :: y != n || k != l ==> Nb(r, y, k) == Nb(nodes, y, k)
    ensures Kept(nodes, dist, n, Nb(nodes, n, l) + [id], Nb(r, n, l), Cap(m, l))
  {
    hide SetList, Dist;
    assert NodeOk(nodes, m, n);
    var ids := nodes[n].neighbors[l] + [id];
    assert ListOk(nodes, m, n, l, nodes[n].neighbors[l]);
    if |ids| > Cap(m, l) {
      ids := ShrinkNeighbors(nodes, dist, n, ids, Cap(m, l));
    }
    SetListKeeps(nodes, m, n, l, ids);
    r := SetList(nodes, n, l, ids);
  }

  /** Everything a search finds on a layer is on that layer, and is not the node still to be
      connected. */
  lemma {:induction false} FoundOnLayer<V>(nodes: map<nat, Node<V>>, m: nat, l: nat, id: nat, entries: set<nat>, x: nat)
    requires EdgesOk(nodes, m) && NoEdgeTo(nodes, id, l) && Reachable(nodes, l, entries, x)
    requires forall e :: e in entries ==> e in nodes && e != id && nodes[e].level >= l
    ensures x in nodes && x != id && nodes[x].level >= l
  {
    var s := set y | y in nodes && y != id && nodes[y].level >= l;
    forall y, z | y in s && z in Nb(nodes, y, l) && z in nodes ensures z in s {
      assert NodeOk(nodes, m, y);
      assert ListOk(nodes, m, y, l, nodes[y].neighbors[l]);
    }
    assert Closed(nodes, l, s);
  }

  lemma {:induction false} SetAsSeqDistinct(out: seq<Item>, rs: set<Item>, i: nat, j: nat)
    requires multiset(out) == multiset(rs) && i < j < |out|
    ensures out[i] != out[j]
  {
    var a, b := out[..j], out[j + 1..];
    assert out == a + [out[j]] + b;
    assert multiset(out) == multiset(a) + multiset{out[j]} + multiset(b);
    assert multiset(rs)[out[j]] <= 1;
    assert out[j] !in multiset(a) && a[i] in multiset(a);
  }

  /** The results of a search, as a list. */
  lemma {:induction false} ResultList<V>(nodes: map<nat, Node<V>>, tombs: set<nat>, dist: (V, V) -> real, q: V,
                                         ev: set<nat>, ef: nat, out: seq<Item>, rs: set<Item>)
    requires multiset(out) == multiset(rs) && Nearest(nodes, tombs, dist, q, ev, ef, rs)
    ensures DistinctIds(out) && |out| == |rs| <= ef && forall it :: it in out <==> it in rs
  {
    hide Dist;
    assert |multiset(out)| == |out| && |multiset(rs)| == |rs|;
    assert forall it :: it in out <==> it in multiset(out);
    assert forall it :: it in rs <==> it in multiset(rs);
    forall i, j | 0 <= i < j < |out| ensures out[i].id != out[j].id {
      SetAsSeqDistinct(out, rs, i, j);
      assert out[i] in rs && out[j] in rs;
    }
  }

  predicate EntriesOk<V>(nodes: map<nat, Node<V>>, id: nat, l: nat, ids: seq<nat>) {
    forall e :: e in ids ==> e in nodes && e != id && nodes[e].level >= l
  }

  lemma {:induction false} KeptSame<V>(a: map<nat, Node<V>>, b: map<nat, Node<V>>, dist: (V, V) -> real, x: nat,
                                       ids: seq<nat>, kept: seq<nat>, cap: nat)
    requires Kept(a, dist, x, ids, kept, cap) && SameNodes(b, a)
    ensures Kept(b, dist, x, ids, kept, cap)
  {
  }

  /** On layer l, exactly the neighbours of id have got id as a neighbour, as far as it is near
      enough to them; no other list has changed. */
  ghost predicate Linked<V>(nodes: map<nat, Node<V>>, r: map<nat, Node<V>>, m: nat, dist: (V, V) -> real, id: nat,
                            l: nat) {
    forall y: nat :: y != id ==>
      if y in Nb(r, id, l) then Kept(nodes, dist, y, Nb(nodes, y, l) + [id], Nb(r, y, l), Cap(m, l))
      else Nb(r, y, l) == Nb(nodes, y, l)
  }

  /** Links to and from the chosen neighbours. */
  method Link<V(==)>(nodes: map<nat, Node<V>>, m: nat, dist: (V, V) -> real, id: nat, l: nat, chosen: seq<nat>)
    returns (r: map<nat, Node<V>>)
    requires EdgesOk(nodes, m) && id in nodes && l <= nodes[id].level && NoEdgeTo(nodes, id, l)
    requires ListOk(nodes, m, id, l, chosen)
    ensures EdgesOk(r, m) && SameNodes(nodes, r)
    ensures forall y: nat, k: nat :: k != l ==> Nb(r, y, k) == Nb(nodes, y, k)
    ensures Nb(r, id, l) == chosen && Linked(nodes, r, m, dist, id, l)
  {
    hide SetList, EdgesOk, ListOk, Nb, Kept, Cap;
    assert NodeShape(nodes, id) by { Shapes(nodes, m, id); }
    SetListKeeps(nodes, m, id, l, chosen);
    r := SetList(nodes, id, l, chosen);
    var i := 0;
    while i < |chosen|
      invariant 0 <= i <= |chosen| && EdgesOk(r, m) && SameNodes(nodes, r) && Nb(r, id, l) == chosen
      invariant forall y: nat, k: nat :: k != l ==> Nb(r, y, k) == Nb(nodes, y, k)
      invariant forall y: nat :: y != id && y !in chosen[..i] ==> Nb(r, y, l) == Nb(nodes, y, l)
      invariant forall y: nat :: y in chosen[..i] ==>
        Kept(nodes, dist, y, Nb(nodes, y, l) + [id], Nb(r, y, l), Cap(m, l))
    {
      ChosenNext(nodes, m, id, l, chosen, i);
      ghost var before := r;
      r := AddReverse(r, m, dist, id, chosen[i], l);
      KeptSame(before, nodes, dist, chosen[i], Nb(nodes, chosen[i], l) + [id], Nb(r, chosen[i], l), Cap(m, l));
      assert chosen[..i + 1] == chosen[..i] + [chosen[i]];
      i := i + 1;
    }
    assert chosen[..i] == chosen;
  }

  predicate NodeShape<V>(nodes: map<nat, Node<V>>, x: nat) {
    x in nodes && |nodes[x].neighbors| == nodes[x].level + 1
  }

  lemma {:induction false} Shapes<V>(nodes: map<nat, Node<V>>, m: nat, x: nat)
    requires EdgesOk(nodes, m) && x in nodes
    ensures NodeShape(nodes, x)
  {
    assert NodeOk(nodes, m, x);
  }

  lemma {:induction false} ChosenNext<V>(nodes: map<nat, Node<V>>, m: nat, id: nat, l: nat, chosen: seq<nat>, i: nat)
    requires ListOk(nodes, m, id, l, chosen) && i < |chosen| && NoEdgeTo(nodes, id, l)
    ensures chosen[i] in nodes && chosen[i] != id && l <= nodes[chosen[i]].level && chosen[i] !in chosen[..i]
    ensures id !in Nb(nodes, chosen[i], l)
  {
  }

  /** The neighbours chosen from what a search found, in some order of their distance. */
  ghost predicate Chosen<V>(nodes: map<nat, Node<V>>, dist: (V, V) -> real, rs: set<Item>, ids: seq<nat>, cap: nat) {
    exists sorted: seq<Item> ::
      && Ascending(sorted) && multiset(sorted) == multiset(rs)
      && ids == AllIds(Selection(nodes, dist, sorted, cap))
  }

  function AllIds(items: seq<Item>): (ids: seq<nat>)
    ensures |ids| == |items|
  {
    TakeIds(items, |items|)
  }

  /** One layer of an insertion. What the search found is where the next layer is entered. */
  method ConnectLayer<V(==)>(nodes: map<nat, Node<V>>, tombs: set<nat>, m: nat, dist: (V, V) -> real, ef: nat, id: nat,
                             vec: V, entryIDs: seq<nat>, l: nat)
    returns (r: map<nat, Node<V>>, found: seq<nat>, ghost ev: set<nat>, ghost rs: set<Item>)
    requires EdgesOk(nodes, m) && id in nodes && l <= nodes[id].level && NoEdgeTo(nodes, id, l)
    requires ef >= 1 && |entryIDs| <= ef && EntriesOk(nodes, id, l, entryIDs)
    ensures EdgesOk(r, m) && SameNodes(nodes, r)
    ensures forall y: nat, k: nat :: k != l ==> Nb(r, y, k) == Nb(nodes, y, k)
    ensures |found| <= ef && EntriesOk(nodes, id, l, found)
    ensures Explored(nodes, tombs, dist, vec, IdSet(entryIDs), ef, l, ev, rs) && IdSet(found) == ItemIds(rs)
    ensures |found| == |rs| && Chosen(nodes, dist, rs, Nb(r, id, l), Cap(m, l)) && Linked(nodes, r, m, dist, id, l)
    ensures |Nb(r, id, l)| == Smaller(|rs|, if l == 0 then 2 * m else m)
  {
    hide EdgesOk, Nb, Nearest, Reachable, LiveReachable, Dist, Diverse, Linked, Selection, NeighborsSeen;
    var candidates;
    candidates, ev, rs := SearchLayer(nodes, tombs, dist, vec, entryIDs, ef, l);
    ResultList(nodes, tombs, dist, vec, ev, ef, candidates, rs);
    forall c | c in candidates ensures c.id in nodes && c.id != id && nodes[c.id].level >= l {
      InEvaluated(nodes, tombs, dist, vec, ev, ef, rs, c);
      FoundOnLayer(nodes, m, l, id, IdSet(entryIDs), c.id);
    }
    var neighbors, sorted := SelectNeighbors(nodes, dist, candidates, Cap(m, l));
    var chosen := AllIds(neighbors);
    ChosenOk(nodes, m, id, l, candidates, neighbors);
    r := Link(nodes, m, dist, id, l, chosen);
    assert Ascending(sorted) && multiset(sorted) == multiset(rs);
    assert chosen == AllIds(Selection(nodes, dist, sorted, Cap(m, l)));
    found := AllIds(candidates);
    FoundIds(candidates, rs);
    forall e | e in found ensures e in nodes && e != id && nodes[e].level >= l {
      var i :| 0 <= i < |candidates| && candidates[i].id == e;
      assert candidates[i] in candidates;
    }
  }

  function ItemIds(rs: set<Item>): set<nat> {
    set it | it in rs :: it.id
  }

  lemma {:induction false} FoundIds(items: seq<Item>, rs: set<Item>)
    requires forall it :: it in items <==> it in rs
    ensures IdSet(AllIds(items)) == ItemIds(rs)
  {
    forall x | x in ItemIds(rs) ensures x in AllIds(items) {
      var it :| it in rs && it.id == x;
      var i :| 0 <= i < |items| && items[i] == it;
      assert AllIds(items)[i] == x;
    }
    forall x | x in AllIds(items) ensures x in ItemIds(rs) {
      var i :| 0 <= i < |items| && items[i].id == x;
      assert items[i] in items;
    }
  }

  lemma {:induction false} ChosenOk<V>(nodes: map<nat, Node<V>>, m: nat, id: nat, l: nat, candidates: seq<Item>,
                                       neighbors: seq<Item>)
    requires forall c :: c in candidates ==> c.id in nodes && c.id != id && nodes[c.id].level >= l
    requires |neighbors| <= Cap(m, l) && DistinctIds(neighbors) && forall s :: s in neighbors ==> s in candidates
    ensures ListOk(nodes, m, id, l, AllIds(neighbors))
  {
    var chosen := AllIds(neighbors);
    forall y | y in chosen ensures y in nodes && y != id && nodes[y].level >= l {
      var i :| 0 <= i < |neighbors| && neighbors[i].id == y;
      assert neighbors[i] in candidates;
    }
  }

  /** Without tombstones a search finds something, and something is chosen. */
  lemma {:induction false} SomeChosen<V>(nodes: map<nat, Node<V>>, dist: (V, V) -> real, q: V, ev: set<nat>, ef: nat,
                                         rs: set<Item>, ids: seq<nat>, cap: nat)
    requires Nearest(nodes, {}, dist, q, ev, ef, rs) && ev != {} && ef >= 1 && cap >= 1
    requires Chosen(nodes, dist, rs, ids, cap)
    ensures rs != {} && ids != []
  {
    hide Dist, Diverse, Greedy, Filled;
    var e :| e in ev;
    assert HasId(rs, e) || |rs| == ef;
    var sorted: seq<Item> :| Ascending(sorted) && multiset(sorted) == multiset(rs)
      && ids == AllIds(Selection(nodes, dist, sorted, cap));
    ResultList(nodes, {}, dist, q, ev, ef, sorted, rs);
    GreedyIs(nodes, dist, sorted, cap);
    FilledIs(sorted, sorted, Greedy(nodes, dist, sorted, cap), cap);
  }

  /** All of n, or as many as there is room for. */
  function Smaller(n: nat, cap: nat): nat {
    if n < cap then n else cap
  }

  /** How a new node has been joined to a layer: its neighbours are a selection from the results rs
      of a search from the entry points, they have been linked back, and nothing else has changed. */
  ghost predicate LayerJoined<V>(nodes: map<nat, Node<V>>, r: map<nat, Node<V>>, tombs: set<nat>, m: nat,
                                 dist: (V, V) -> real, ef: nat, id: nat, vec: V, l: nat, entries: set<nat>,
                                 rs: set<Item>) {
    && Linked(nodes, r, m, dist, id, l)
    && (exists ev :: Explored(nodes, tombs, dist, vec, entries, ef, l, ev, rs))
    && Chosen(nodes, dist, rs, Nb(r, id, l), Cap(m, l))
    && |Nb(r, id, l)| == Smaller(|rs|, if l == 0 then 2 * m else m)
    && (tombs == {} ==> Nb(r, id, l) != [])
  }

  lemma {:induction false} GreedySame<V>(a: map<nat, Node<V>>, b: map<nat, Node<V>>, dist: (V, V) -> real,
                                         sorted: seq<Item>, cap: nat)
    requires SameNodes(a, b)
    ensures Greedy(b, dist, sorted, cap) == Greedy(a, dist, sorted, cap)
  {
    if sorted != [] {
      var k := |sorted| - 1;
      GreedySame(a, b, dist, sorted[..k], cap);
      DiverseSame(a, b, dist, Greedy(a, dist, sorted[..k], cap), sorted[k]);
    }
  }

  lemma {:induction false} DiverseSame<V>(a: map<nat, Node<V>>, b: map<nat, Node<V>>, dist: (V, V) -> real,
                                          taken: seq<Item>, c: Item)
    requires SameNodes(a, b)
    ensures Diverse(b, dist, taken, c) <==> Diverse(a, dist, taken, c)
  {
  }

  lemma {:induction false} NearestSame<V>(a: map<nat, Node<V>>, b: map<nat, Node<V>>, tombs: set<nat>,
                                          dist: (V, V) -> real, q: V, ev: set<nat>, ef: nat, rs: set<Item>)
    requires SameNodes(a, b) && Nearest(a, tombs, dist, q, ev, ef, rs)
    ensures Nearest(b, tombs, dist, q, ev, ef, rs)
  {
    assert forall x :: x in a ==> Dist(b, dist, q, x) == Dist(a, dist, q, x);
  }

  lemma {:induction false} ChosenSame<V>(a: map<nat, Node<V>>, b: map<nat, Node<V>>, dist: (V, V) -> real,
                                         rs: set<Item>, ids: seq<nat>, cap: nat)
    requires SameNodes(a, b) && Chosen(a, dist, rs, ids, cap)
    ensures Chosen(b, dist, rs, ids, cap)
  {
    hide Greedy, Filled, SameNodes;
    var sorted: seq<Item> :| Ascending(sorted) && multiset(sorted) == multiset(rs)
      && ids == AllIds(Selection(a, dist, sorted, cap));
    GreedySame(a, b, dist, sorted, cap);
    assert Ascending(sorted) && multiset(sorted) == multiset(rs) && ids == AllIds(Selection(b, dist, sorted, cap));
  }

  lemma {:induction false} ReachableSame<V>(a: map<nat, Node<V>>, b: map<nat, Node<V>>, l: nat, entries: set<nat>,
                                            x: nat)
    requires a.Keys == b.Keys && forall y: nat :: Nb(b, y, l) == Nb(a, y, l)
    ensures Reachable(b, l, entries, x) <==> Reachable(a, l, entries, x)
  {
    hide Nb;
    forall s: set<nat> ensures Closed(b, l, s) <==> Closed(a, l, s) {
    }
  }

  /** A search depends on the nodes and the edges of its layer only. */
  lemma {:induction false} FoundSame<V>(a: map<nat, Node<V>>, b: map<nat, Node<V>>, tombs: set<nat>,
                                        dist: (V, V) -> real, q: V, entries: set<nat>, ef: nat, l: nat, ev: set<nat>,
                                        rs: set<Item>)
    requires SameNodes(a, b) && (forall y: nat :: Nb(b, y, l) == Nb(a, y, l))
    requires Explored(a, tombs, dist, q, entries, ef, l, ev, rs)
    ensures Explored(b, tombs, dist, q, entries, ef, l, ev, rs)
  {
    hide Nearest, Nb, Reachable;
    NearestSame(a, b, tombs, dist, q, ev, ef, rs);
    forall x: nat ensures Reachable(b, l, entries, x) <==> Reachable(a, l, entries, x) {
      ReachableSame(a, b, l, entries, x);
    }
    assert LiveReachable(b, tombs, l, entries) == LiveReachable(a, tombs, l, entries);
  }

  /** Joining a layer says nothing about the other layers. */
  lemma {:induction false} JoinedSame<V>(a: map<nat, Node<V>>, r: map<nat, Node<V>>, a': map<nat, Node<V>>,
                                         r': map<nat, Node<V>>, tombs: set<nat>, m: nat, dist: (V, V) -> real,
                                         ef: nat, id: nat, vec: V, l: nat, entries: set<nat>, rs: set<Item>)
    requires LayerJoined(a, r, tombs, m, dist, ef, id, vec, l, entries, rs) && SameNodes(a, a') && SameNodes(a', a)
    requires forall y: nat :: Nb(a', y, l) == Nb(a, y, l) && Nb(r', y, l) == Nb(r, y, l)
    ensures LayerJoined(a', r', tombs, m, dist, ef, id, vec, l, entries, rs)
  {
    hide SameNodes, Explored, Chosen, Kept, Nb;
    var ev :| Explored(a, tombs, dist, vec, entries, ef, l, ev, rs);
    FoundSame(a, a', tombs, dist, vec, entries, ef, l, ev, rs);
    ChosenSame(a, a', dist, rs, Nb(r, id, l), Cap(m, l));
    forall y: nat | y != id && y in Nb(r, id, l)
      ensures Kept(a', dist, y, Nb(a', y, l) + [id], Nb(r', y, l), Cap(m, l))
    {
      KeptSame(a, a', dist, y, Nb(a, y, l) + [id], Nb(r, y, l), Cap(m, l));
    }
  }

  lemma {:induction false} InEvaluated<V>(nodes: map<nat, Node<V>>, tombs: set<nat>, dist: (V, V) -> real, q: V,
                                          ev: set<nat>, ef: nat, rs: set<Item>, c: Item)
    requires Nearest(nodes, tombs, dist, q, ev, ef, rs) && c in rs
    ensures c.id in ev
  {
  }
}
