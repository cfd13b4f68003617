/**
Edges of an HNSW graph (vector/hnsw/graph.go): the structural invariant, the greedy walk of
the upper layers, neighbour selection and shrinking. Sorting is slices.SortFunc, known by its
contract only.
*/
module HnswGraph {
  import opened DistHeaps
  import opened HnswSearch

  /** Neighbour capacity of a layer. */
  function Cap(m: nat, layer: nat): nat {
    if layer == 0 then 2 * m else m
  }

  predicate Distinct(ids: seq<nat>) {
    forall i, j :: 0 <= i < j < |ids| ==> ids[i] != ids[j]
  }

  /** A neighbour list of x at a layer: within capacity, without repetition or self-loop, and
      only to nodes present on that layer. */
  predicate ListOk<V>(nodes: map<nat, Node<V>>, m: nat, x: nat, layer: nat, ids: seq<nat>) {
    && |ids| <= Cap(m, layer) && Distinct(ids) && x !in ids
    && forall y :: y in ids ==> y in nodes && nodes[y].level >= layer
  }

  predicate NodeOk<V>(nodes: map<nat, Node<V>>, m: nat, x: nat)
    requires x in nodes
  {
    && |nodes[x].neighbors| == nodes[x].level + 1
    && forall l :: 0 <= l <= nodes[x].level ==> ListOk(nodes, m, x, l, nodes[x].neighbors[l])
  }

  predicate EdgesOk<V>(nodes: map<nat, Node<V>>, m: nat) {
    forall x :: x in nodes ==> NodeOk(nodes, m, x)
  }

  // ----- sorting by distance -----

  predicate Ascending(items: seq<Item>) {
    forall i, j :: 0 <= i < j < |items| ==> items[i].dist <= items[j].dist
  }

  function InsertByDist(items: seq<Item>, it: Item): (r: seq<Item>)
    ensures multiset(r) == multiset(items) + multiset{it} && |r| == |items| + 1
  {
    if items == [] || it.dist <= items[0].dist then [it] + items
    else
      assert items == [items[0]] + items[1..];
      [items[0]] + InsertByDist(items[1..], it)
  }

  lemma {:induction false} InsertAscends(items: seq<Item>, it: Item)
    requires Ascending(items)
    ensures Ascending(InsertByDist(items, it))
    ensures InsertByDist(items, it)[0] == it || (items != [] && InsertByDist(items, it)[0] == items[0])
  {
    if items != [] && it.dist > items[0].dist {
      var rest := InsertByDist(items[1..], it);
      InsertAscends(items[1..], it);
      assert rest[0] == it || rest[0] == items[1];
    }
  }

  function SortByDist(items: seq<Item>): (r: seq<Item>)
    ensures multiset(r) == multiset(items) && |r| == |items|
  {
    if items == [] then []
    else
      assert items == items[..|items| - 1] + [items[|items| - 1]];
      InsertByDist(SortByDist(items[..|items| - 1]), items[|items| - 1])
  }

  lemma {:induction false} SortAscends(items: seq<Item>)
    ensures Ascending(SortByDist(items))
  {
    hide Ascending, InsertByDist;
    if items != [] {
      SortAscends(items[..|items| - 1]);
      InsertAscends(SortByDist(items[..|items| - 1]), items[|items| - 1]);
    } else {
      AscendingNone(items);
    }
  }

  lemma {:induction false} AscendingNone(items: seq<Item>)
    requires items == []
    ensures Ascending(items)
  {
  }

  // ----- the greedy walk -----

  /** The nodes strictly nearer to q than d. */
  ghost function Nearer<V>(nodes: map<nat, Node<V>>, dist: (V, V) -> real, q: V, d: real): set<nat> {
    set x | x in nodes && Dist(nodes, dist, q, x) < d
  }

  /** Walks to ever nearer neighbours; stops, and where it stops no neighbour is nearer. */
  method GreedyClosest<V>(nodes: map<nat, Node<V>>, m: nat, dist: (V, V) -> real, q: V, ep: nat, layer: nat)
    returns (best: nat)
    requires EdgesOk(nodes, m) && ep in nodes && nodes[ep].level >= layer
    ensures best in nodes && nodes[best].level >= layer
    ensures Dist(nodes, dist, q, best) <= Dist(nodes, dist, q, ep)
    ensures forall y :: y in Nb(nodes, best, layer) ==>
      y in nodes && Dist(nodes, dist, q, best) <= Dist(nodes, dist, q, y)
    ensures Reachable(nodes, layer, {ep}, best)
  {
    hide Reachable, Dist;
    best := ep;
    var bestDist := dist(q, nodes[ep].vector);
    DistIs(nodes, dist, q, ep);
    assert Reachable(nodes, layer, {ep}, ep) by { ReachSelf(nodes, layer, ep); }
    var improved := true;
    while improved
      invariant best in nodes && nodes[best].level >= layer && bestDist == Dist(nodes, dist, q, best)
      invariant bestDist <= Dist(nodes, dist, q, ep) && Reachable(nodes, layer, {ep}, best)
      invariant !improved ==>
        forall y :: y in Nb(nodes, best, layer) ==> y in nodes && bestDist <= Dist(nodes, dist, q, y)
      decreases Nearer(nodes, dist, q, bestDist), improved
    {
      ghost var from, was := best, bestDist;
      improved := false;
      assert NodeOk(nodes, m, from);
      var nbs := nodes[best].neighbors[layer];
      var i := 0;
      while i < |nbs|
        invariant 0 <= i <= |nbs| && best in nodes && nodes[best].level >= layer
        invariant bestDist == Dist(nodes, dist, q, best) && Reachable(nodes, layer, {ep}, best)
        invariant forall j :: 0 <= j < i ==> nbs[j] in nodes && bestDist <= Dist(nodes, dist, q, nbs[j])
        invariant if improved then bestDist < was else best == from && bestDist == was
      {
        var x := nbs[i];
        if x in nodes {
          var d := dist(q, nodes[x].vector);
          DistIs(nodes, dist, q, x);
          if d < bestDist {
            ReachStep(nodes, layer, {ep}, from, x);
            best, bestDist, improved := x, d, true;
          }
        }
        i := i + 1;
      }
      if improved { NearerShrinks(nodes, dist, q, best, was); }
    }
  }

  lemma {:induction false} ReachSelf<V>(nodes: map<nat, Node<V>>, layer: nat, x: nat)
    requires x in nodes
    ensures Reachable(nodes, layer, {x}, x)
  {
  }

  lemma {:induction false} NearerShrinks<V>(nodes: map<nat, Node<V>>, dist: (V, V) -> real, q: V, x: nat, d: real)
    requires x in nodes && Dist(nodes, dist, q, x) < d
    ensures Nearer(nodes, dist, q, Dist(nodes, dist, q, x)) < Nearer(nodes, dist, q, d)
  {
    hide Dist;
    assert x in Nearer(nodes, dist, q, d);
  }

  // ----- choosing neighbours -----

  predicate DistinctIds(items: seq<Item>) {
    forall i, j :: 0 <= i < j < |items| ==> items[i].id != items[j].id
  }

  lemma {:induction false} InsertKeepsDistinct(items: seq<Item>, it: Item)
    requires DistinctIds(items) && forall x :: x in items ==> x.id != it.id
    ensures DistinctIds(InsertByDist(items, it))
  {
    if items != [] && it.dist > items[0].dist {
      InsertKeepsDistinct(items[1..], it);
      var rest := InsertByDist(items[1..], it);
      forall j | 0 <= j < |rest| ensures rest[j].id != items[0].id {
        assert rest[j] in multiset(rest);
        assert rest[j] == it || rest[j] in items[1..];
      }
    }
  }

  lemma {:induction false} SortKeepsDistinct(items: seq<Item>)
    requires DistinctIds(items)
    ensures DistinctIds(SortByDist(items))
  {
    hide InsertByDist;
    if items != [] {
      var n := |items| - 1;
      SortKeepsDistinct(items[..n]);
      SameMembers(items[..n]);
      InsertKeepsDistinct(SortByDist(items[..n]), items[n]);
    }
  }

  lemma {:induction false} SameMembers(items: seq<Item>)
    ensures forall x :: x in SortByDist(items) <==> x in items
  {
    hide SortByDist;
    assert forall x :: x in items <==> x in multiset(items);
    assert forall x :: x in SortByDist(items) <==> x in multiset(SortByDist(items));
  }

  /** c is nearer to the query than to anything selected so far. */
  predicate Diverse<V>(nodes: map<nat, Node<V>>, dist: (V, V) -> real, selected: seq<Item>, c: Item) {
    c.id in nodes && forall s :: s in selected ==>
      s.id in nodes && dist(nodes[c.id].vector, nodes[s.id].vector) >= c.dist
  }

  /** The check of one candidate against those selected. */
  method IsDiverse<V>(nodes: map<nat, Node<V>>, dist: (V, V) -> real, selected: seq<Item>, c: Item) returns (good: bool)
    requires c.id in nodes && forall s :: s in selected ==> s.id in nodes
    ensures good <==> Diverse(nodes, dist, selected, c)
  {
    for i := 0 to |selected|
      invariant forall j :: 0 <= j < i ==> dist(nodes[c.id].vector, nodes[selected[j].id].vector) >= c.dist
    {
      if dist(nodes[c.id].vector, nodes[selected[i].id].vector) < c.dist {
        return false;
      }
    }
    return true;
  }

  /** Taken in order, each candidate that is nearer to the query than to those taken before. */
  function Greedy<V>(nodes: map<nat, Node<V>>, dist: (V, V) -> real, sorted: seq<Item>, maxN: nat): seq<Item> {
    if sorted == [] then []
    else
      var k := |sorted| - 1;
      var before := Greedy(nodes, dist, sorted[..k], maxN);
      if |before| < maxN && Diverse(nodes, dist, before, sorted[k]) then before + [sorted[k]] else before
  }

  lemma {:induction false} GreedyFull<V>(nodes: map<nat, Node<V>>, dist: (V, V) -> real, sorted: seq<Item>, maxN: nat,
                                         i: nat)
    requires i <= |sorted| && |Greedy(nodes, dist, sorted[..i], maxN)| >= maxN
    ensures Greedy(nodes, dist, sorted, maxN) == Greedy(nodes, dist, sorted[..i], maxN)
    decreases |sorted|
  {
    hide Diverse;
    if i < |sorted| {
      var k := |sorted| - 1;
      assert sorted[..k][..i] == sorted[..i];
      GreedyFull(nodes, dist, sorted[..k], maxN, i);
    } else {
      assert sorted[..i] == sorted;
    }
  }

  /** The places left go to the other candidates, nearest first. */
  function Filled(sorted: seq<Item>, first: seq<Item>, maxN: nat): seq<Item> {
    if sorted == [] then first
    else
      var k := |sorted| - 1;
      var before := Filled(sorted[..k], first, maxN);
      if |before| < maxN && sorted[k].id !in IdsOf(first) then before + [sorted[k]] else before
  }

  function IdsOf(items: seq<Item>): set<nat> {
    set s | s in items :: s.id
  }

  lemma {:induction false} FilledFull(sorted: seq<Item>, first: seq<Item>, maxN: nat, i: nat)
    requires i <= |sorted| && |Filled(sorted[..i], first, maxN)| >= maxN
    ensures Filled(sorted, first, maxN) == Filled(sorted[..i], first, maxN)
    decreases |sorted|
  {
    if i < |sorted| {
      var k := |sorted| - 1;
      assert sorted[..k][..i] == sorted[..i];
      FilledFull(sorted[..k], first, maxN, i);
    } else {
      assert sorted[..i] == sorted;
    }
  }

  /** Algorithm 4 of Malkov and Yashunin with keepPrunedConnections. */
  function Selection<V>(nodes: map<nat, Node<V>>, dist: (V, V) -> real, sorted: seq<Item>, maxN: nat): seq<Item> {
    Filled(sorted, Greedy(nodes, dist, sorted, maxN), maxN)
  }

  lemma {:induction false} NothingLeft(sorted: seq<Item>, first: seq<Item>, maxN: nat)
    requires |first| >= maxN
    ensures Filled(sorted, first, maxN) == first
  {
    if sorted != [] { NothingLeft(sorted[..|sorted| - 1], first, maxN); }
  }

  /** The selection of the candidates in some order of their distance: at most maxN different
      ones, all of them if there are no more, among them the nearest. */
  method SelectNeighbors<V>(nodes: map<nat, Node<V>>, dist: (V, V) -> real, candidates: seq<Item>, maxN: nat)
    returns (selected: seq<Item>, ghost sorted: seq<Item>)
    requires DistinctIds(candidates) && forall c :: c in candidates ==> c.id in nodes
    ensures Ascending(sorted) && multiset(sorted) == multiset(candidates)
    ensures selected == Selection(nodes, dist, sorted, maxN)
    ensures |selected| <= maxN && DistinctIds(selected) && forall s :: s in selected ==> s in candidates
    ensures |selected| < maxN ==> forall c :: c in candidates ==> c in selected
    ensures |selected| == if |candidates| < maxN then |candidates| else maxN
    ensures candidates != [] && maxN > 0 ==>
      selected != [] && forall c :: c in candidates ==> selected[0].dist <= c.dist
  {
    hide SortByDist, Diverse, Greedy, Filled;
    var ranked := SortByDist(candidates);
    sorted := ranked;
    SortAscends(candidates);
    SortKeepsDistinct(candidates);
    SameMembers(candidates);
    selected := DiverseFirst(nodes, dist, ranked, maxN);
    GreedyIs(nodes, dist, ranked, maxN);
    FilledIs(ranked, ranked, selected, maxN);
    if |selected| < maxN {
      selected := Fill(ranked, selected, maxN);
    } else {
      NothingLeft(ranked, selected, maxN);
    }
    SelectedCount(candidates, selected, maxN);
  }

  method DiverseFirst<V>(nodes: map<nat, Node<V>>, dist: (V, V) -> real, sorted: seq<Item>, maxN: nat)
    returns (selected: seq<Item>)
    requires DistinctIds(sorted) && forall c :: c in sorted ==> c.id in nodes
    ensures selected == Greedy(nodes, dist, sorted, maxN)
  {
    hide Diverse;
    selected := [];
    var i := 0;
    while i < |sorted| && |selected| < maxN
      invariant 0 <= i <= |sorted| && forall s :: s in selected ==> s.id in nodes
      invariant selected == Greedy(nodes, dist, sorted[..i], maxN)
    {
      assert sorted[..i + 1][..i] == sorted[..i];
      var good := IsDiverse(nodes, dist, selected, sorted[i]);
      if good {
        selected := selected + [sorted[i]];
      }
      i := i + 1;
    }
    if i < |sorted| { GreedyFull(nodes, dist, sorted, maxN, i); } else { assert sorted[..i] == sorted; }
  }

  lemma {:induction false} DistinctAppend(items: seq<Item>, it: Item)
    requires DistinctIds(items) && forall s :: s in items ==> s.id != it.id
    ensures DistinctIds(items + [it])
  {
  }

  lemma {:induction false} LastApart(sorted: seq<Item>, k: nat)
    requires DistinctIds(sorted) && |sorted| == k + 1
    ensures DistinctIds(sorted[..k]) && (forall s :: s in sorted[..k] ==> s.id != sorted[k].id)
    ensures forall s :: s in sorted <==> s in sorted[..k] || s == sorted[k]
  {
    assert sorted == sorted[..k] + [sorted[k]];
  }

  /** Different candidates, the nearest of all first. */
  lemma {:induction false} GreedyIs<V>(nodes: map<nat, Node<V>>, dist: (V, V) -> real, sorted: seq<Item>, maxN: nat)
    requires DistinctIds(sorted) && forall c :: c in sorted ==> c.id in nodes
    ensures var r := Greedy(nodes, dist, sorted, maxN);
      && |r| <= maxN && DistinctIds(r) && (forall s :: s in r ==> s in sorted)
      && (sorted != [] && maxN > 0 ==> r != [] && r[0] == sorted[0])
  {
    hide Diverse, DistinctIds;
    if sorted != [] {
      var k := |sorted| - 1;
      LastApart(sorted, k);
      GreedyIs(nodes, dist, sorted[..k], maxN);
      var before := Greedy(nodes, dist, sorted[..k], maxN);
      DistinctAppend(before, sorted[k]);
      if k == 0 { DiverseNone(nodes, dist, before, sorted[k]); }
    }
  }

  /** What was taken is diverse, and what was left out, while there was room, is nearer to
      something taken than to the query. */
  lemma {:induction false} GreedyDiverse<V>(nodes: map<nat, Node<V>>, dist: (V, V) -> real, sorted: seq<Item>,
                                            maxN: nat)
    requires forall c :: c in sorted ==> c.id in nodes
    ensures var r := Greedy(nodes, dist, sorted, maxN);
      && (forall s :: s in r ==> s in sorted)
      && (forall j :: 0 <= j < |r| ==> Diverse(nodes, dist, r[..j], r[j]))
      && (forall i, j :: 0 <= i < j < |r| ==>
            r[i].id in nodes && r[j].id in nodes && dist(nodes[r[j].id].vector, nodes[r[i].id].vector) >= r[j].dist)
      && (|r| < maxN ==> forall c :: c in sorted && c !in r ==>
            exists s :: s in r && s.id in nodes && dist(nodes[c.id].vector, nodes[s.id].vector) < c.dist)
  {
    if sorted != [] {
      var k := |sorted| - 1;
      assert sorted == sorted[..k] + [sorted[k]];
      GreedyDiverse(nodes, dist, sorted[..k], maxN);
      var before, r := Greedy(nodes, dist, sorted[..k], maxN), Greedy(nodes, dist, sorted, maxN);
      forall j | 0 <= j < |r| ensures Diverse(nodes, dist, r[..j], r[j]) {
        assert r[..j] == if j < |before| then before[..j] else before;
      }
      forall i, j | 0 <= i < j < |r| ensures dist(nodes[r[j].id].vector, nodes[r[i].id].vector) >= r[j].dist {
        assert r[..j][i] == r[i];
      }
    }
  }

  lemma {:induction false} DiverseNone<V>(nodes: map<nat, Node<V>>, dist: (V, V) -> real, selected: seq<Item>, c: Item)
    requires c.id in nodes && forall s :: s in selected ==> s.id in nodes
    ensures selected == [] ==> Diverse(nodes, dist, selected, c)
  {
  }

  /** Pruned candidates fill the places left. */
  method Fill(sorted: seq<Item>, first: seq<Item>, maxN: nat) returns (selected: seq<Item>)
    ensures selected == Filled(sorted, first, maxN)
  {
    var taken := IdsOf(first);
    selected := first;
    var i := 0;
    while i < |sorted| && |selected| < maxN
      invariant 0 <= i <= |sorted| && selected == Filled(sorted[..i], first, maxN)
    {
      assert sorted[..i + 1][..i] == sorted[..i];
      if sorted[i].id !in taken {
        selected := selected + [sorted[i]];
      }
      i := i + 1;
    }
    if i < |sorted| { FilledFull(sorted, first, maxN, i); } else { assert sorted[..i] == sorted; }
  }

  /** Filling up adds different candidates until there are maxN or no more. */
  lemma {:induction false} FilledIs(all: seq<Item>, sorted: seq<Item>, first: seq<Item>, maxN: nat)
    requires DistinctIds(all) && DistinctIds(first) && |first| <= maxN && sorted <= all
    requires forall s :: s in first ==> s in all
    ensures var r := Filled(sorted, first, maxN);
      && |r| <= maxN && DistinctIds(r) && first <= r && (forall s :: s in r ==> s in first || s in sorted)
      && (|r| < maxN ==> forall c :: c in sorted ==> c in r)
  {
    hide DistinctIds;
    if sorted != [] {
      var k := |sorted| - 1;
      FilledIs(all, sorted[..k], first, maxN);
      var before, c := Filled(sorted[..k], first, maxN), sorted[k];
      assert sorted == sorted[..k] + [c];
      if c.id in IdsOf(first) { Listed(all, first, c, k); } else { FilledNext(all, k, first, before); }
    }
  }

  /** Of the candidates not taken for diversity the nearest fill up. */
  lemma {:induction false} FilledNearest(all: seq<Item>, sorted: seq<Item>, first: seq<Item>, maxN: nat)
    requires Ascending(all) && DistinctIds(all) && DistinctIds(first) && |first| <= maxN && sorted <= all
    requires forall s :: s in first ==> s in all
    ensures var r := Filled(sorted, first, maxN);
      forall s, c :: s in r && s !in first && c in sorted && c !in r ==> s.dist <= c.dist
  {
    if sorted != [] {
      var k := |sorted| - 1;
      var init, e := sorted[..k], sorted[k];
      assert sorted == init + [e] && forall s :: s in init ==> s.dist <= e.dist;
      FilledNearest(all, init, first, maxN);
      FilledIs(all, init, first, maxN);
      var before, r := Filled(init, first, maxN), Filled(sorted, first, maxN);
      assert r == before || (r == before + [e] && |before| < maxN);
      hide Filled, DistinctIds, Ascending;
      forall s, c | s in r && s !in first && c in sorted && c !in r ensures s.dist <= c.dist {
        if c == e { assert s in before; } else { assert c in init && r == before; }
      }
    }
  }

  lemma {:induction false} IdsCount(items: seq<Item>)
    requires DistinctIds(items)
    ensures |IdsOf(items)| == |items|
  {
    if items != [] {
      var k := |items| - 1;
      LastApart(items, k);
      hide DistinctIds;
      IdsCount(items[..k]);
      assert IdsOf(items) == IdsOf(items[..k]) + {items[k].id};
    }
  }

  /** As many as there is room for, or all there are. */
  lemma {:induction false} SelectedCount(candidates: seq<Item>, selected: seq<Item>, maxN: nat)
    requires DistinctIds(candidates) && DistinctIds(selected) && |selected| <= maxN
    requires forall s :: s in selected ==> s in candidates
    requires |selected| < maxN ==> forall c :: c in candidates ==> c in selected
    ensures |selected| == if |candidates| < maxN then |candidates| else maxN
  {
    hide DistinctIds;
    IdsCount(candidates);
    IdsCount(selected);
    forall x | x in IdsOf(selected) ensures x in IdsOf(candidates) {
      var s :| s in selected && s.id == x;
      assert s in candidates;
    }
    if |selected| >= |candidates| { SubsetSize(IdsOf(selected), IdsOf(candidates)); }
    if |selected| < maxN && |candidates| >= |selected| {
      forall x | x in IdsOf(candidates) ensures x in IdsOf(selected) {
        var c :| c in candidates && c.id == x;
        assert c in selected;
      }
      SubsetSize(IdsOf(candidates), IdsOf(selected));
    }
  }

  lemma {:induction false} FilledNext(all: seq<Item>, k: nat, first: seq<Item>, before: seq<Item>)
    requires DistinctIds(all) && k < |all| && DistinctIds(before) && all[k].id !in IdsOf(first)
    requires forall s :: s in before ==> s in first || s in all[..k]
    ensures DistinctIds(before + [all[k]])
  {
    DistinctAppend(before, all[k]);
  }

  lemma {:induction false} Listed(sorted: seq<Item>, first: seq<Item>, c: Item, i: nat)
    requires DistinctIds(sorted) && i < |sorted| && sorted[i] == c && forall s :: s in first ==> s in sorted
    requires exists s :: s in first && s.id == c.id
    ensures c in first
  {
    var s :| s in first && s.id == c.id;
    var j :| 0 <= j < |sorted| && sorted[j] == s;
  }

  /** Shrinking a list keeps the maxN nearest to its owner. */
  method ShrinkNeighbors<V>(nodes: map<nat, Node<V>>, dist: (V, V) -> real, x: nat, ids: seq<nat>, maxN: nat)
    returns (kept: seq<nat>)
    requires x in nodes && Distinct(ids) && forall y :: y in ids ==> y in nodes
    ensures |kept| == (if |ids| > maxN then maxN else |ids|) && Distinct(kept) && forall y :: y in kept ==> y in ids
    ensures forall y, z :: y in ids && y !in kept && z in kept ==>
      Dist(nodes, dist, nodes[x].vector, z) <= Dist(nodes, dist, nodes[x].vector, y)
  {
    hide SortByDist, Dist;
    var ranked: seq<Item> := [];
    for i := 0 to |ids|
      invariant |ranked| == i
      invariant forall j :: 0 <= j < i ==> ranked[j] == Item(ids[j], Dist(nodes, dist, nodes[x].vector, ids[j]))
    {
      DistIs(nodes, dist, nodes[x].vector, ids[i]);
      ranked := ranked + [Item(ids[i], dist(nodes[x].vector, nodes[ids[i]].vector))];
    }
    var sorted := SortByDist(ranked);
    SortAscends(ranked);
    SortKeepsDistinct(ranked);
    SameMembers(ranked);
    var n := if |sorted| > maxN then maxN else |sorted|;
    kept := TakeIds(sorted, n);
    Shrunk(nodes, dist, x, ids, ranked, sorted, n, kept);
  }

  lemma {:induction false} Shrunk<V>(nodes: map<nat, Node<V>>, dist: (V, V) -> real, x: nat, ids: seq<nat>,
                                     ranked: seq<Item>, sorted: seq<Item>, n: nat, kept: seq<nat>)
    requires x in nodes && |ranked| == |ids| && n <= |sorted| && kept == TakeIds(sorted, n)
    requires forall j :: 0 <= j < |ids| ==>
      ids[j] in nodes && ranked[j] == Item(ids[j], Dist(nodes, dist, nodes[x].vector, ids[j]))
    requires Ascending(sorted) && DistinctIds(sorted) && forall it :: it in sorted <==> it in ranked
    ensures Distinct(kept) && (forall y :: y in kept ==> y in ids)
    ensures (n == |sorted| ==> forall y :: y in ids ==> y in kept)
    ensures forall y, z :: y in ids && y !in kept && z in kept ==>
      Dist(nodes, dist, nodes[x].vector, z) <= Dist(nodes, dist, nodes[x].vector, y)
  {
    hide Dist;
    forall i | 0 <= i < n ensures kept[i] in ids && sorted[i].dist == Dist(nodes, dist, nodes[x].vector, kept[i]) {
      assert sorted[i] in ranked;
    }
    forall y | y in ids
      ensures exists j :: 0 <= j < |sorted| && sorted[j] == Item(y, Dist(nodes, dist, nodes[x].vector, y))
    {
      var i :| 0 <= i < |ids| && ids[i] == y;
      assert ranked[i] in sorted;
    }
    forall y, z | y in ids && y !in kept && z in kept
      ensures Dist(nodes, dist, nodes[x].vector, z) <= Dist(nodes, dist, nodes[x].vector, y)
    {
      var i :| 0 <= i < n && kept[i] == z;
      var j :| 0 <= j < |sorted| && sorted[j] == Item(y, Dist(nodes, dist, nodes[x].vector, y));
      assert forall m :: 0 <= m < n ==> sorted[m].id in kept by {
        assert forall m :: 0 <= m < n ==> kept[m] == sorted[m].id;
      }
      assert i < n <= j;
    }
  }

  function TakeIds(items: seq<Item>, n: nat): (ids: seq<nat>)
    requires n <= |items|
    ensures |ids| == n && forall i :: 0 <= i < n ==> ids[i] == items[i].id
  {
    seq(n, i requires 0 <= i < n => items[i].id)
  }
}
