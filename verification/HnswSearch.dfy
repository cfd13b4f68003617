/**
Beam search on one layer of an HNSW graph (vector/hnsw/search.go), and the greedy walk above
it. Nothing is assumed of the graph but that the entry points exist. Vectors are of any type
and the distance is any real-valued function.
*/
module HnswSearch {
  import opened Bytes
  import opened DistHeaps

  datatype Node<V> = Node(externalID: Bytes, vector: V, level: nat, neighbors: seq<seq<nat>>)

  /** The neighbours of an existing node at a layer. */
  function Nb<V>(nodes: map<nat, Node<V>>, x: nat, layer: nat): seq<nat> {
    if x in nodes && layer < |nodes[x].neighbors| then nodes[x].neighbors[layer] else []
  }

  function Dist<V>(nodes: map<nat, Node<V>>, dist: (V, V) -> real, q: V, x: nat): real
    requires x in nodes
  {
    dist(q, nodes[x].vector)
  }

  function IdSet(ids: seq<nat>): set<nat> {
    set x | x in ids
  }

  // ----- reachability -----

  /** S is closed under the edges of the layer between existing nodes. */
  predicate Closed<V>(nodes: map<nat, Node<V>>, layer: nat, s: set<nat>) {
    forall x, y :: x in s && y in Nb(nodes, x, layer) && y in nodes ==> y in s
  }

  /** x can be reached from the entries along the edges of the layer. */
  ghost predicate Reachable<V>(nodes: map<nat, Node<V>>, layer: nat, entries: set<nat>, x: nat) {
    x in nodes && forall s: set<nat> :: entries <= s && Closed(nodes, layer, s) ==> x in s
  }

  ghost function LiveReachable<V>(nodes: map<nat, Node<V>>, tombs: set<nat>, layer: nat, entries: set<nat>): set<nat> {
    set x | x in nodes && x !in tombs && Reachable(nodes, layer, entries, x)
  }

  lemma {:induction false} ReachStep<V>(nodes: map<nat, Node<V>>, layer: nat, entries: set<nat>, x: nat, y: nat)
    requires Reachable(nodes, layer, entries, x) && y in Nb(nodes, x, layer) && y in nodes
    ensures Reachable(nodes, layer, entries, y)
  {
  }

  // ----- what a search returns -----

  /** Items are existing nodes with their true distance. */
  ghost predicate Measured<V>(nodes: map<nat, Node<V>>, dist: (V, V) -> real, q: V, s: set<Item>) {
    forall it :: it in s ==> it.id in nodes && it.dist == Dist(nodes, dist, q, it.id)
  }

  /** rs are the ef nearest of the live nodes among ev, ties broken anyhow. */
  ghost predicate Nearest<V>(nodes: map<nat, Node<V>>, tombs: set<nat>, dist: (V, V) -> real, q: V, ev: set<nat>,
                             ef: nat, rs: set<Item>) {
    && ev <= nodes.Keys && |rs| <= ef && Measured(nodes, dist, q, rs)
    && (forall it :: it in rs ==> it.id in ev && it.id !in tombs)
    && (forall x :: x in ev && x !in tombs && !HasId(rs, x) ==>
          |rs| == ef && forall it :: it in rs ==> it.dist <= Dist(nodes, dist, q, x))
  }

  predicate HasId(s: set<Item>, x: nat) {
    exists it :: it in s && it.id == x
  }

  /** One more node evaluated: kept if there is room or it is nearer than the farthest, which
      then goes. */
  lemma {:induction false} NearestSkip<V>(nodes: map<nat, Node<V>>, tombs: set<nat>, dist: (V, V) -> real, q: V,
                                          ev: set<nat>, ef: nat, rs: set<Item>, x: nat)
    requires Nearest(nodes, tombs, dist, q, ev, ef, rs) && x in nodes
    requires x in tombs || (|rs| == ef && forall it :: it in rs ==> it.dist <= Dist(nodes, dist, q, x))
    ensures Nearest(nodes, tombs, dist, q, ev + {x}, ef, rs)
  {
    hide Dist;
  }

  lemma {:induction false} NearestGrow<V>(nodes: map<nat, Node<V>>, tombs: set<nat>, dist: (V, V) -> real, q: V,
                                          ev: set<nat>, ef: nat, rs: set<Item>, x: nat)
    requires Nearest(nodes, tombs, dist, q, ev, ef, rs) && x in nodes && x !in tombs && |rs| < ef
    ensures Nearest(nodes, tombs, dist, q, ev + {x}, ef, rs + {Item(x, Dist(nodes, dist, q, x))})
  {
    hide Dist;
    var new_ := Item(x, Dist(nodes, dist, q, x));
    assert new_ in rs + {new_};
    assert forall y :: HasId(rs, y) ==> HasId(rs + {new_}, y);
  }

  lemma {:induction false} NearestReplace<V>(nodes: map<nat, Node<V>>, tombs: set<nat>, dist: (V, V) -> real, q: V,
                                             ev: set<nat>, ef: nat, rs: set<Item>, x: nat, far: Item)
    requires Nearest(nodes, tombs, dist, q, ev, ef, rs) && x in nodes && x !in tombs && x !in ev && |rs| == ef
    requires var new_ := Item(x, Dist(nodes, dist, q, x));
      far in rs + {new_} && forall it :: it in rs + {new_} ==> it.dist <= far.dist
    ensures Nearest(nodes, tombs, dist, q, ev + {x}, ef, rs + {Item(x, Dist(nodes, dist, q, x))} - {far})
  {
    hide Dist;
    var new_ := Item(x, Dist(nodes, dist, q, x));
    var rs' := rs + {new_} - {far};
    assert new_ !in rs && |rs'| == ef;
    assert new_ != far ==> new_ in rs';
    assert forall it :: it in rs && it != far ==> it in rs';
    assert forall z :: z != far.id && (z == x || HasId(rs, z)) ==> HasId(rs', z);
    forall y | y in ev + {x} && y !in tombs && !HasId(rs', y)
      ensures forall it :: it in rs' ==> it.dist <= Dist(nodes, dist, q, y)
    {
      if y != far.id { FartherThanAll(nodes, tombs, dist, q, ev, ef, rs, y, far, new_); }
    }
  }

  lemma {:induction false} FartherThanAll<V>(nodes: map<nat, Node<V>>, tombs: set<nat>, dist: (V, V) -> real, q: V,
                                             ev: set<nat>, ef: nat, rs: set<Item>, y: nat, far: Item, new_: Item)
    requires Nearest(nodes, tombs, dist, q, ev, ef, rs) && y in ev && y !in tombs && !HasId(rs, y)
    requires far in rs + {new_} && forall it :: it in rs + {new_} ==> it.dist <= far.dist
    ensures forall it :: it in rs + {new_} - {far} ==> it.dist <= Dist(nodes, dist, q, y)
  {
  }

  // ----- beam search -----

  /** While there is room, every evaluated node waits as a candidate or has been expanded. */
  ghost predicate Expanded<V>(nodes: map<nat, Node<V>>, layer: nat, visited: set<nat>, cs: set<Item>, but: set<nat>) {
    forall x, y :: x in visited && x in nodes && x !in but && !HasId(cs, x) && y in Nb(nodes, x, layer) ==> y in visited
  }

  /** Every result waits as a candidate or has been expanded. */
  ghost predicate Settled<V>(nodes: map<nat, Node<V>>, layer: nat, visited: set<nat>, cs: set<Item>, rs: set<Item>,
                             but: set<nat>) {
    forall it, y :: it in rs && it !in cs && it.id !in but && y in Nb(nodes, it.id, layer) ==> y in visited
  }

  /** The heaps hold sets of items: nothing is pushed twice. */
  ghost predicate Holds(h: DistHeap, s: set<Item>)
    reads h
  {
    h.Valid() && multiset(h.items) == multiset(s)
  }

  lemma {:induction false} HoldsSize(h: DistHeap, s: set<Item>)
    requires Holds(h, s)
    ensures |h.items| == |s| && forall x :: x in h.items <==> x in s
  {
    assert |multiset(h.items)| == |h.items| && |multiset(s)| == |s|;
    assert forall x :: x in h.items <==> x in multiset(h.items);
  }

  /** Everything the two loops keep. but is the node being expanded. */
  ghost predicate Progress<V>(nodes: map<nat, Node<V>>, tombs: set<nat>, dist: (V, V) -> real, q: V, layer: nat,
                              entries: set<nat>, ef: nat, visited: set<nat>, cs: set<Item>, rs: set<Item>,
                              but: set<nat>) {
    && Nearest(nodes, tombs, dist, q, visited * nodes.Keys, ef, rs)
    && Measured(nodes, dist, q, cs) && (forall it :: it in cs ==> it.id in visited)
    && entries <= visited
    && (forall x :: x in visited && x in nodes ==> Reachable(nodes, layer, entries, x))
    && (|rs| < ef ==> Expanded(nodes, layer, visited, cs, but))
    && Settled(nodes, layer, visited, cs, rs, but)
  }

  /** The search is over: the nearest of what was evaluated, and everything live and reachable
      if there is room for it. */
  lemma {:induction false} Finished<V>(nodes: map<nat, Node<V>>, tombs: set<nat>, dist: (V, V) -> real, q: V,
                                       layer: nat, entries: set<nat>, ef: nat, visited: set<nat>, cs: set<Item>,
                                       rs: set<Item>)
    requires Progress(nodes, tombs, dist, q, layer, entries, ef, visited, cs, rs, {}) && entries <= nodes.Keys
    requires cs == {} || |rs| >= ef
    requires |LiveReachable(nodes, tombs, layer, entries)| <= ef
    ensures forall x :: x in LiveReachable(nodes, tombs, layer, entries) ==> HasId(rs, x)
  {
    hide Dist, Reachable;
    var live := LiveReachable(nodes, tombs, layer, entries);
    var ids := set it | it in rs :: it.id;
    IdsSize(nodes, dist, q, rs, ids);
    assert ids <= live;
    if |rs| >= ef {
      SubsetSize(ids, live);
    } else {
      AllVisited(nodes, layer, entries, visited);
    }
  }

  lemma {:induction false} IdsSize<V>(nodes: map<nat, Node<V>>, dist: (V, V) -> real, q: V, rs: set<Item>,
                                      ids: set<nat>)
    requires Measured(nodes, dist, q, rs) && ids == set it | it in rs :: it.id
    ensures |ids| == |rs|
    decreases |rs|
  {
    if rs != {} {
      var it :| it in rs;
      var rest := rs - {it};
      assert ids - {it.id} == set r | r in rest :: r.id by {
        forall r | r in rest ensures r.id != it.id { assert r.dist == Dist(nodes, dist, q, r.id); }
      }
      IdsSize(nodes, dist, q, rest, ids - {it.id});
    }
  }

  lemma {:induction false} SubsetSize(a: set<nat>, b: set<nat>)
    requires a <= b && |b| <= |a|
    ensures a == b
    decreases |a|
  {
    if a != {} {
      var x :| x in a;
      SubsetSize(a - {x}, b - {x});
      assert a == (a - {x}) + {x} && b == (b - {x}) + {x};
    }
  }

  /** A fully expanded set of visited nodes holds everything reachable. */
  lemma {:induction false} AllVisited<V>(nodes: map<nat, Node<V>>, layer: nat, entries: set<nat>, visited: set<nat>)
    requires entries <= visited && entries <= nodes.Keys && Expanded(nodes, layer, visited, {}, {})
    ensures forall x :: Reachable(nodes, layer, entries, x) ==> x in visited
  {
    assert forall x: nat :: !HasId({}, x);
    var s := visited * nodes.Keys;
    assert Closed(nodes, layer, s);
  }

  lemma {:induction false} BagAdd(s: set<Item>, it: Item)
    requires it !in s
    ensures multiset(s + {it}) == multiset(s) + multiset{it}
  {
  }

  lemma {:induction false} BagDrop(s: set<Item>, it: Item)
    requires it in s
    ensures multiset(s - {it}) == multiset(s) - multiset{it}
  {
  }

  /** One more node looked at. */
  lemma {:induction false} ProgressVisit<V>(nodes: map<nat, Node<V>>, tombs: set<nat>, dist: (V, V) -> real, q: V,
                                            layer: nat, entries: set<nat>, ef: nat, visited: set<nat>, cs: set<Item>,
                                            rs: set<Item>, but: set<nat>, x: nat, cs': set<Item>, rs': set<Item>)
    requires Progress(nodes, tombs, dist, q, layer, entries, ef, visited, cs, rs, but) && |rs| <= |rs'|
    requires x in nodes ==> Reachable(nodes, layer, entries, x)
    requires Nearest(nodes, tombs, dist, q, (visited + {x}) * nodes.Keys, ef, rs')
    requires cs' == cs || (x in nodes && cs' == cs + {Item(x, Dist(nodes, dist, q, x))})
    requires x in nodes && |rs'| < ef ==> cs' == cs + {Item(x, Dist(nodes, dist, q, x))}
    requires forall it :: it in rs' ==> it in rs || it in cs'
    ensures Progress(nodes, tombs, dist, q, layer, entries, ef, visited + {x}, cs', rs', but)
  {
    hide Dist, Reachable, Nearest;
    if |rs'| < ef {
      assert x in nodes ==> Item(x, Dist(nodes, dist, q, x)) in cs';
      assert x in nodes ==> HasId(cs', x);
      assert forall y :: HasId(cs, y) ==> HasId(cs', y);
    }
  }

  /** A neighbour seen for the first time: a candidate if it may matter, a result if it is live,
      at the expense of the farthest result when there are too many. */
  method Visit<V>(nodes: map<nat, Node<V>>, tombs: set<nat>, dist: (V, V) -> real, q: V, layer: nat,
                  ghost entries: set<nat>, ef: nat, x: nat, candidates: DistHeap, results: DistHeap,
                  ghost visited: set<nat>, ghost but: set<nat>, ghost cs: set<Item>, ghost rs: set<Item>)
    returns (ghost cs': set<Item>, ghost rs': set<Item>)
    requires ef >= 1 && x !in visited && (x in nodes ==> Reachable(nodes, layer, entries, x))
    requires candidates != results && Holds(candidates, cs) && Holds(results, rs) && results.max
    requires Progress(nodes, tombs, dist, q, layer, entries, ef, visited, cs, rs, but)
    modifies candidates, results
    ensures Holds(candidates, cs') && Holds(results, rs')
    ensures Progress(nodes, tombs, dist, q, layer, entries, ef, visited + {x}, cs', rs', but)
    ensures x !in nodes ==> cs' == cs
  {
    hide Dist, Reachable, Expanded, DistHeap.Valid, Nearest;
    cs', rs' := cs, rs;
    if x !in nodes {
      assert (visited + {x}) * nodes.Keys == visited * nodes.Keys;
      ProgressVisit(nodes, tombs, dist, q, layer, entries, ef, visited, cs, rs, but, x, cs, rs);
      return;
    }
    var d := dist(q, nodes[x].vector);
    ghost var it := Item(x, Dist(nodes, dist, q, x));
    assert it.dist == d by { DistIs(nodes, dist, q, x); }
    assert (visited + {x}) * nodes.Keys == visited * nodes.Keys + {x};
    HoldsSize(results, rs);
    Room(nodes, tombs, dist, q, visited * nodes.Keys, ef, rs, it);
    var shouldAdd := |results.items| < ef;
    if !shouldAdd {
      results.PeekExtreme();
      if d < results.Peek().dist {
        shouldAdd := true;
      } else {
        NearestSkip(nodes, tombs, dist, q, visited * nodes.Keys, ef, rs, x);
      }
    }
    if shouldAdd {
      candidates.Push(Item(x, d));
      BagAdd(cs, it);
      cs' := cs + {it};
      if x !in tombs {
        results.Push(Item(x, d));
        BagAdd(rs, it);
        rs' := rs + {it};
        HoldsSize(results, rs');
        if |results.items| > ef {
          var far := results.Pop();
          BagDrop(rs', far);
          NearestReplace(nodes, tombs, dist, q, visited * nodes.Keys, ef, rs, x, far);
          rs' := rs' - {far};
        } else {
          NearestGrow(nodes, tombs, dist, q, visited * nodes.Keys, ef, rs, x);
        }
      } else {
        NearestSkip(nodes, tombs, dist, q, visited * nodes.Keys, ef, rs, x);
      }
    }
    ProgressVisit(nodes, tombs, dist, q, layer, entries, ef, visited, cs, rs, but, x, cs', rs');
  }

  lemma {:induction false} DistIs<V>(nodes: map<nat, Node<V>>, dist: (V, V) -> real, q: V, x: nat)
    requires x in nodes
    ensures Dist(nodes, dist, q, x) == dist(q, nodes[x].vector)
  {
  }

  lemma {:induction false} Room<V>(nodes: map<nat, Node<V>>, tombs: set<nat>, dist: (V, V) -> real, q: V, ev: set<nat>,
                                   ef: nat, rs: set<Item>, it: Item)
    requires Nearest(nodes, tombs, dist, q, ev, ef, rs) && it.id !in ev
    ensures |rs| <= ef && it !in rs
  {
  }

  /** Once the neighbours of c are all visited, c is expanded. */
  lemma {:induction false} ProgressExpanded<V>(nodes: map<nat, Node<V>>, tombs: set<nat>, dist: (V, V) -> real, q: V,
                                               layer: nat, entries: set<nat>, ef: nat, visited: set<nat>, cs: set<Item>,
                                               rs: set<Item>, c: nat)
    requires Progress(nodes, tombs, dist, q, layer, entries, ef, visited, cs, rs, {c})
    requires forall y :: y in Nb(nodes, c, layer) ==> y in visited
    ensures Progress(nodes, tombs, dist, q, layer, entries, ef, visited, cs, rs, {})
  {
    hide Dist, Reachable, Nearest, Nb;
  }

  /** Taking a candidate out leaves it to be expanded. */
  lemma {:induction false} ProgressPop<V>(nodes: map<nat, Node<V>>, tombs: set<nat>, dist: (V, V) -> real, q: V,
                                          layer: nat, entries: set<nat>, ef: nat, visited: set<nat>, cs: set<Item>,
                                          rs: set<Item>, c: Item)
    requires Progress(nodes, tombs, dist, q, layer, entries, ef, visited, cs, rs, {}) && c in cs
    ensures Progress(nodes, tombs, dist, q, layer, entries, ef, visited, cs - {c}, rs, {c.id})
    ensures c.id in nodes && c.id in visited && Reachable(nodes, layer, entries, c.id)
  {
    hide Dist, Reachable, Nearest, Nb;
    assert forall x :: x != c.id && HasId(cs, x) ==> HasId(cs - {c}, x) by {
      forall x | x != c.id && HasId(cs, x) ensures HasId(cs - {c}, x) {
        var it :| it in cs && it.id == x;
        assert it in cs - {c};
      }
    }
  }

  /** All neighbours of a candidate are looked at. */
  method Expand<V>(nodes: map<nat, Node<V>>, tombs: set<nat>, dist: (V, V) -> real, q: V, layer: nat,
                   ghost entries: set<nat>, ef: nat, c: nat, candidates: DistHeap, results: DistHeap,
                   visited0: set<nat>, ghost cs0: set<Item>, ghost rs0: set<Item>)
    returns (visited: set<nat>, ghost cs: set<Item>, ghost rs: set<Item>)
    requires ef >= 1 && c in nodes && Reachable(nodes, layer, entries, c)
    requires candidates != results && Holds(candidates, cs0) && Holds(results, rs0) && results.max
    requires Progress(nodes, tombs, dist, q, layer, entries, ef, visited0, cs0, rs0, {c})
    modifies candidates, results
    ensures Holds(candidates, cs) && Holds(results, rs) && visited0 <= visited
    ensures Progress(nodes, tombs, dist, q, layer, entries, ef, visited, cs, rs, {})
    ensures (visited - visited0) * nodes.Keys == {} ==> cs == cs0
  {
    hide Dist, Reachable, Nearest, Progress, Holds;
    visited, cs, rs := visited0, cs0, rs0;
    var nbs := Nb(nodes, c, layer);
    var i := 0;
    while i < |nbs|
      invariant 0 <= i <= |nbs| && visited0 <= visited && forall j :: 0 <= j < i ==> nbs[j] in visited
      invariant Holds(candidates, cs) && Holds(results, rs)
      invariant Progress(nodes, tombs, dist, q, layer, entries, ef, visited, cs, rs, {c})
      invariant (visited - visited0) * nodes.Keys == {} ==> cs == cs0
    {
      var x := nbs[i];
      if x !in visited {
        if x in nodes { ReachStep(nodes, layer, entries, c, x); }
        ghost var before := visited;
        cs, rs := Visit(nodes, tombs, dist, q, layer, entries, ef, x, candidates, results, visited, {c}, cs, rs);
        visited := visited + {x};
        assert x in nodes ==> x in (visited - visited0) * nodes.Keys;
        assert (before - visited0) * nodes.Keys <= (visited - visited0) * nodes.Keys;
      }
      i := i + 1;
    }
    ProgressExpanded(nodes, tombs, dist, q, layer, entries, ef, visited, cs, rs, c);
  }

  /** All nodes seen so far are candidates. */
  ghost predicate Entered<V>(nodes: map<nat, Node<V>>, tombs: set<nat>, dist: (V, V) -> real, q: V, ef: nat,
                             visited: set<nat>, cs: set<Item>, rs: set<Item>) {
    && visited <= nodes.Keys && Nearest(nodes, tombs, dist, q, visited, ef, rs)
    && Measured(nodes, dist, q, cs) && rs <= cs && forall x :: x in visited <==> HasId(cs, x)
  }

  /** One entry point. */
  method EnterOne<V>(nodes: map<nat, Node<V>>, tombs: set<nat>, dist: (V, V) -> real, q: V, ef: nat, x: nat,
                     candidates: DistHeap, results: DistHeap, ghost visited: set<nat>, ghost cs: set<Item>,
                     ghost rs: set<Item>)
    returns (ghost cs': set<Item>, ghost rs': set<Item>)
    requires x in nodes && x !in visited && |rs| < ef && Entered(nodes, tombs, dist, q, ef, visited, cs, rs)
    requires candidates != results && Holds(candidates, cs) && Holds(results, rs)
    modifies candidates, results
    ensures Holds(candidates, cs') && Holds(results, rs') && |rs'| <= |rs| + 1
    ensures Entered(nodes, tombs, dist, q, ef, visited + {x}, cs', rs')
  {
    hide Dist, Nearest, Holds;
    var d := dist(q, nodes[x].vector);
    ghost var it := Item(x, Dist(nodes, dist, q, x));
    assert it.dist == d by { DistIs(nodes, dist, q, x); }
    Room(nodes, tombs, dist, q, visited, ef, rs, it);
    assert it !in cs;
    PushInto(candidates, cs, Item(x, d));
    HasIdAdd(cs, it);
    cs', rs' := cs + {it}, rs;
    if x !in tombs {
      PushInto(results, rs, Item(x, d));
      NearestGrow(nodes, tombs, dist, q, visited, ef, rs, x);
      rs' := rs + {it};
    } else {
      NearestSkip(nodes, tombs, dist, q, visited, ef, rs, x);
    }
  }

  /** The entry points: all of them are candidates, and results if live. */
  method Enter<V>(nodes: map<nat, Node<V>>, tombs: set<nat>, dist: (V, V) -> real, q: V, layer: nat, entryIDs: seq<nat>,
                  ef: nat, candidates: DistHeap, results: DistHeap)
    returns (visited: set<nat>, ghost cs: set<Item>, ghost rs: set<Item>)
    requires |entryIDs| <= ef && forall e :: e in entryIDs ==> e in nodes
    requires candidates != results && Holds(candidates, {}) && Holds(results, {})
    modifies candidates, results
    ensures Holds(candidates, cs) && Holds(results, rs) && visited <= nodes.Keys
    ensures Progress(nodes, tombs, dist, q, layer, IdSet(entryIDs), ef, visited, cs, rs, {})
  {
    hide Holds, Entered, Progress, Reachable;
    visited, cs, rs := {}, {}, {};
    EnteredNone(nodes, tombs, dist, q, ef);
    var i := 0;
    while i < |entryIDs|
      invariant 0 <= i <= |entryIDs| && visited == IdSet(entryIDs[..i]) && |rs| <= i
      invariant Holds(candidates, cs) && Holds(results, rs)
      invariant Entered(nodes, tombs, dist, q, ef, visited, cs, rs)
    {
      var x := entryIDs[i];
      assert entryIDs[..i + 1] == entryIDs[..i] + [x];
      assert IdSet(entryIDs[..i + 1]) == visited + {x};
      if x !in visited {
        cs, rs := EnterOne(nodes, tombs, dist, q, ef, x, candidates, results, visited, cs, rs);
        visited := visited + {x};
      }
      i := i + 1;
    }
    assert entryIDs[..|entryIDs|] == entryIDs;
    EnteredAll(nodes, tombs, dist, q, layer, ef, visited, cs, rs);
  }

  lemma {:induction false} EnteredNone<V>(nodes: map<nat, Node<V>>, tombs: set<nat>, dist: (V, V) -> real, q: V,
                                          ef: nat)
    ensures Entered(nodes, tombs, dist, q, ef, {}, {}, {})
  {
  }

  lemma {:induction false} EnteredAll<V>(nodes: map<nat, Node<V>>, tombs: set<nat>, dist: (V, V) -> real, q: V,
                                         layer: nat, ef: nat, visited: set<nat>, cs: set<Item>, rs: set<Item>)
    requires Entered(nodes, tombs, dist, q, ef, visited, cs, rs)
    ensures visited <= nodes.Keys && Progress(nodes, tombs, dist, q, layer, visited, ef, visited, cs, rs, {})
  {
    hide Dist, Nearest;
    assert visited * nodes.Keys == visited;
    assert forall it :: it in cs ==> HasId(cs, it.id);
  }

  lemma {:induction false} HasIdAdd(s: set<Item>, it: Item)
    ensures forall y :: HasId(s + {it}, y) <==> HasId(s, y) || y == it.id
  {
    forall y | HasId(s, y) || y == it.id ensures HasId(s + {it}, y) {
      if y == it.id { assert it in s + {it}; }
    }
  }

  method PushInto(h: DistHeap, ghost s: set<Item>, it: Item)
    requires Holds(h, s) && it !in s
    modifies h
    ensures Holds(h, s + {it})
  {
    h.Push(it);
    BagAdd(s, it);
  }

  /** Every existing neighbour of a result was evaluated. */
  ghost predicate NeighborsSeen<V>(nodes: map<nat, Node<V>>, layer: nat, rs: set<Item>, ev: set<nat>) {
    forall it, y :: it in rs && y in Nb(nodes, it.id, layer) && y in nodes ==> y in ev
  }

  /** What a search of a layer guarantees about the nodes it evaluated and its results: the entry
      points were evaluated, nothing but reachable nodes, and the neighbours of every result; the
      results are the nearest live ones of them, and all live reachable nodes if these fit. */
  ghost predicate Explored<V>(nodes: map<nat, Node<V>>, tombs: set<nat>, dist: (V, V) -> real, q: V,
                              entries: set<nat>, ef: nat, layer: nat, ev: set<nat>, rs: set<Item>) {
    && Nearest(nodes, tombs, dist, q, ev, ef, rs) && entries <= ev && NeighborsSeen(nodes, layer, rs, ev)
    && (forall x :: x in ev ==> Reachable(nodes, layer, entries, x))
    && var all := LiveReachable(nodes, tombs, layer, entries);
       |all| <= ef ==> forall x :: x in all ==> HasId(rs, x)
  }

  /** Beam search: exactly the ef nearest of the live nodes it evaluated, which include all
      neighbours of the results, and everything live and reachable when ef leaves room for it. */
  method SearchLayer<V>(nodes: map<nat, Node<V>>, tombs: set<nat>, dist: (V, V) -> real, q: V, entryIDs: seq<nat>,
                        ef: nat, layer: nat) returns (out: seq<Item>, ghost ev: set<nat>, ghost rs: set<Item>)
    requires ef >= 1 && |entryIDs| <= ef && forall e :: e in entryIDs ==> e in nodes
    ensures multiset(out) == multiset(rs) && Explored(nodes, tombs, dist, q, IdSet(entryIDs), ef, layer, ev, rs)
  {
    hide Dist, Reachable, Nearest, Progress, Holds, LiveReachable;
    ghost var entries := IdSet(entryIDs);
    var candidates := new DistHeap(false);
    var results := new DistHeap(true);
    HoldsNone(candidates);
    HoldsNone(results);
    var visited, cs, rs0 := Enter(nodes, tombs, dist, q, layer, entryIDs, ef, candidates, results);
    rs := rs0;
    while candidates.items != []
      invariant Holds(candidates, cs) && Holds(results, rs)
      invariant Progress(nodes, tombs, dist, q, layer, entries, ef, visited, cs, rs, {})
      decreases nodes.Keys - visited, |candidates.items|
    {
      ghost var unseen, size := nodes.Keys - visited, |candidates.items|;
      var c := PopFrom(candidates, cs);
      HoldsSize(results, rs);
      if |results.items| >= ef && c.dist > results.Peek().dist {
        NotWaiting(results, rs, cs, c);
        Stop(nodes, tombs, dist, q, layer, entries, ef, visited, cs, rs);
        out, ev := results.items, visited * nodes.Keys;
        HoldsIs(results, rs);
        return;
      }
      ProgressPop(nodes, tombs, dist, q, layer, entries, ef, visited, cs, rs, c);
      ghost var before, cs0 := visited, cs - {c};
      HoldsSize(candidates, cs0);
      visited, cs, rs := Expand(nodes, tombs, dist, q, layer, entries, ef, c.id, candidates, results, visited, cs0, rs);
      HoldsSize(candidates, cs);
      assert nodes.Keys - visited <= unseen;
      if nodes.Keys - visited == unseen { assert (visited - before) * nodes.Keys == {}; }
    }
    HoldsSize(candidates, cs);
    Stop(nodes, tombs, dist, q, layer, entries, ef, visited, cs, rs);
    out, ev := results.items, visited * nodes.Keys;
    HoldsIs(results, rs);
  }

  lemma {:induction false} HoldsNone(h: DistHeap)
    requires h.Valid() && h.items == []
    ensures Holds(h, {})
  {
  }

  lemma {:induction false} HoldsIs(h: DistHeap, s: set<Item>)
    requires Holds(h, s)
    ensures multiset(h.items) == multiset(s)
  {
  }

  /** Candidates farther than every result are no results. */
  lemma {:induction false} NotWaiting(results: DistHeap, rs: set<Item>, cs: set<Item>, c: Item)
    requires Holds(results, rs) && results.max && results.items != [] && c.dist > results.Peek().dist
    requires forall x :: x in cs ==> !Above(false, x, c)
    ensures forall it :: it in rs ==> it !in cs
  {
    HoldsSize(results, rs);
    results.PeekExtreme();
  }

  method PopFrom(h: DistHeap, ghost s: set<Item>) returns (it: Item)
    requires Holds(h, s) && h.items != []
    modifies h
    ensures Holds(h, s - {it}) && it in s && |h.items| < old(|h.items|)
    ensures forall x :: x in s ==> !Above(h.max, x, it)
  {
    HoldsSize(h, s);
    it := h.Pop();
    BagDrop(s, it);
    HoldsSize(h, s - {it});
  }

  lemma {:induction false} Stop<V>(nodes: map<nat, Node<V>>, tombs: set<nat>, dist: (V, V) -> real, q: V, layer: nat,
                                   entries: set<nat>, ef: nat, visited: set<nat>, cs: set<Item>, rs: set<Item>)
    requires Progress(nodes, tombs, dist, q, layer, entries, ef, visited, cs, rs, {}) && entries <= nodes.Keys
    requires (cs == {} || |rs| >= ef) && forall it :: it in rs ==> it !in cs
    ensures Nearest(nodes, tombs, dist, q, visited * nodes.Keys, ef, rs) && entries <= visited * nodes.Keys
    ensures NeighborsSeen(nodes, layer, rs, visited * nodes.Keys)
    ensures forall x :: x in visited * nodes.Keys ==> Reachable(nodes, layer, entries, x)
    ensures |LiveReachable(nodes, tombs, layer, entries)| <= ef ==>
      forall x :: x in LiveReachable(nodes, tombs, layer, entries) ==> HasId(rs, x)
  {
    hide Dist, Reachable, Nearest, Expanded, LiveReachable, Nb;
    if |LiveReachable(nodes, tombs, layer, entries)| <= ef {
      Finished(nodes, tombs, dist, q, layer, entries, ef, visited, cs, rs);
    }
  }
}
