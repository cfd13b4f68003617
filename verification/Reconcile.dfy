/**
Repairing one bucket between two replicas (cluster/antientropy/reconcile.go): a merge join of
the two key-sorted buckets that copies the later entry over the earlier one, pulling into the
local store at once and pushing to the peer in batches. Remote calls succeed, and nobody else
writes.
*/
module Reconcile {
  import opened Bytes
  import opened Timestamps
  import opened Merkle

  const PUSH_BATCH_SIZE: nat := 256

  /** What a replica stores under a key. */
  datatype Stored = Stored(ts: Timestamp, value: Bytes, deleted: bool)

  type Store = map<Bytes, Stored>

  class Replica {
    var store: Store

    constructor (store: Store)
      ensures this.store == store
    {
      this.store := store;
    }

    method Put(key: Bytes, s: Stored)
      modifies this
      ensures store == old(store)[key := s]
    {
      store := store[key := s];
    }

    /** Stores a batch without looking at what is there. */
    method WriteBatch(batch: seq<(Bytes, Stored)>)
      modifies this
      ensures store == Batched(old(store), batch)
    {
      var i := 0;
      while i < |batch|
        invariant 0 <= i <= |batch| && store == Batched(old(store), batch[..i])
      {
        assert batch[..i + 1][..i] == batch[..i];
        store := store[batch[i].0 := batch[i].1];
        i := i + 1;
      }
      assert batch[..|batch|] == batch;
    }
  }

  function Batched(store: Store, batch: seq<(Bytes, Stored)>): Store {
    if batch == [] then store else Batched(store, batch[..|batch| - 1])[batch[|batch| - 1].0 := batch[|batch| - 1].1]
  }

  lemma {:induction false} BatchedElsewhere(store: Store, batch: seq<(Bytes, Stored)>, k: Bytes)
    requires forall i :: 0 <= i < |batch| ==> batch[i].0 != k
    ensures k in Batched(store, batch) <==> k in store
    ensures k in store ==> Batched(store, batch)[k] == store[k]
  {
    if batch != [] { BatchedElsewhere(store, batch[..|batch| - 1], k); }
  }

  // ----- the buckets -----

  predicate Ascending(es: seq<Entry>) {
    forall i, j :: 0 <= i < j < |es| ==> Less(es[i].key, es[j].key)
  }

  /** The entries of a bucket are those of the store. */
  predicate Drawn(es: seq<Entry>, store: Store) {
    forall i :: 0 <= i < |es| ==>
      es[i].key in store && store[es[i].key].ts == es[i].ts && store[es[i].key].deleted == es[i].deleted
  }

  function KeysOf(es: seq<Entry>): (ks: set<Bytes>)
    ensures forall k :: k in ks <==> exists i :: 0 <= i < |es| && es[i].key == k
  {
    set i | 0 <= i < |es| :: es[i].key
  }

  /** The bucket holds every key of ks the store has. */
  predicate Complete(es: seq<Entry>, store: Store, ks: set<Bytes>) {
    KeysOf(es) <= ks && forall k :: k in ks && k in store ==> k in KeysOf(es)
  }

  /** What a bucket shows of the store it was drawn from. Entries younger than the grace period
      are stored but not shown. */
  function View(es: seq<Entry>, store: Store): (v: Store)
    ensures Drawn(es, store) ==> v.Keys == KeysOf(es)
    ensures forall k :: k in v ==> k in store && v[k] == store[k]
  {
    map k | k in KeysOf(es) && k in store :: store[k]
  }

  // ----- what a repair comes to -----

  /** By what the buckets show, the later entry wins; a tie leaves both sides alone. */
  predicate Loses(mine: Store, theirs: Store, k: Bytes) {
    k in theirs && (k !in mine || Precedes(mine[k].ts, theirs[k].ts))
  }

  /** One side after the keys of done were compared and repaired, by what the buckets showed. */
  ghost predicate Repaired(now: Store, was: Store, mine: Store, theirs: Store, done: set<Bytes>) {
    && (forall k :: k in now <==> k in was || (k in done && Loses(mine, theirs, k)))
    && (forall k :: k in now ==> now[k] == if k in done && Loses(mine, theirs, k) then theirs[k] else was[k])
  }

  lemma {:induction false} BothCannotLose(mine: Store, theirs: Store, k: Bytes)
    requires Loses(mine, theirs, k)
    ensures !Loses(theirs, mine, k)
  {
    if k in mine { PrecedesTotal(mine[k].ts, theirs[k].ts); }
  }

  lemma {:induction false} RepairOne(now: Store, was: Store, mine: Store, theirs: Store, done: set<Bytes>, k: Bytes)
    requires Repaired(now, was, mine, theirs, done) && k !in done && Loses(mine, theirs, k)
    ensures Repaired(now[k := theirs[k]], was, mine, theirs, done + {k})
  {
    hide Precedes;
  }

  lemma {:induction false} KeepOne(now: Store, was: Store, mine: Store, theirs: Store, done: set<Bytes>, k: Bytes)
    requires Repaired(now, was, mine, theirs, done) && k !in done && !Loses(mine, theirs, k)
    ensures Repaired(now, was, mine, theirs, done + {k})
  {
    hide Precedes;
  }

  /** Nothing is ever replaced by something earlier. */
  predicate NotLowered(before: Store, after: Store) {
    forall k :: k in before ==> k in after && !Precedes(after[k].ts, before[k].ts)
  }

  /** A stored entry that its bucket does not show, while the other bucket shows an earlier one. */
  predicate Hidden(was: Store, mine: Store, theirs: Store, k: Bytes) {
    k in was && k !in mine && k in theirs && Precedes(theirs[k].ts, was[k].ts)
  }

  /** Repairs overwrite blindly: a timestamp falls exactly where a stored entry was not shown and
      the other side showed an earlier one. */
  lemma {:induction false} LoweredIff(now: Store, was: Store, mine: Store, theirs: Store, done: set<Bytes>)
    requires Repaired(now, was, mine, theirs, done) && forall k :: k in mine ==> k in was && mine[k] == was[k]
    ensures NotLowered(was, now) <==> forall k :: k in done ==> !Hidden(was, mine, theirs, k)
  {
    hide Precedes;
    forall k | k in was
      ensures k in now && (Precedes(now[k].ts, was[k].ts) <==> k in done && Hidden(was, mine, theirs, k))
    {
      PrecedesTotal(was[k].ts, was[k].ts);
      if k in mine && k in theirs { PrecedesTotal(was[k].ts, theirs[k].ts); }
    }
  }

  /** Both sides hold the later timestamp for every key. */
  ghost predicate Converged(a: Store, b: Store, a0: Store, b0: Store, ks: set<Bytes>) {
    forall k :: k in ks && (k in a0 || k in b0) ==>
      && k in a && k in b && a[k].ts == b[k].ts
      && a[k].ts == (if k !in a0 then b0[k].ts else if k !in b0 then a0[k].ts else Max(a0[k].ts, b0[k].ts))
  }

  /** The bucket shows all of the store, as far as the keys of ks go. */
  ghost predicate Shown(mine: Store, was: Store, ks: set<Bytes>) {
    forall k :: k in ks ==> (k in mine <==> k in was) && (k in was ==> mine[k] == was[k])
  }

  lemma {:induction false} RepairConverges(a: Store, b: Store, a0: Store, b0: Store, v: Store, w: Store, ks: set<Bytes>)
    requires Repaired(a, a0, v, w, ks) && Repaired(b, b0, w, v, ks) && Shown(v, a0, ks) && Shown(w, b0, ks)
    ensures Converged(a, b, a0, b0, ks)
  {
    hide Precedes;
    forall k | k in ks && (k in a0 || k in b0)
      ensures k in a && k in b && a[k].ts == b[k].ts
      ensures a[k].ts == (if k !in a0 then b0[k].ts else if k !in b0 then a0[k].ts else Max(a0[k].ts, b0[k].ts))
    {
      if k in a0 && k in b0 { PrecedesTotal(a0[k].ts, b0[k].ts); }
    }
  }

  /** Afterwards the buckets agree entry by entry unless a key had equal timestamps and different
      contents: those are never repaired. */
  lemma {:induction false} AgreeUnlessTied(a: Store, b: Store, a0: Store, b0: Store, v: Store, w: Store,
                                           ks: set<Bytes>, k: Bytes)
    requires Repaired(a, a0, v, w, ks) && Repaired(b, b0, w, v, ks) && Shown(v, a0, ks) && Shown(w, b0, ks)
    requires k in ks && (k in a0 || k in b0)
    ensures k in a && k in b
    ensures a[k] == b[k] <==> !(k in a0 && k in b0 && a0[k].ts == b0[k].ts && a0[k] != b0[k])
  {
    hide Precedes;
    if k in a0 && k in b0 { PrecedesTotal(a0[k].ts, b0[k].ts); }
  }

  // ----- the merge join -----

  /** What both replicas stored at the start, and what their buckets showed. */
  datatype Start = Start(local: Store, peer: Store, mine: Store, theirs: Store)

  ghost predicate StartOk(z: Start) {
    && (forall k :: k in z.mine ==> k in z.local && z.mine[k] == z.local[k])
    && (forall k :: k in z.theirs ==> k in z.peer && z.theirs[k] == z.peer[k])
  }

  /** Both stores, with the pushes still pending counted as made, after the keys of done. */
  ghost predicate Joined(local: Store, peer: Store, batch: seq<(Bytes, Stored)>, z: Start, done: set<Bytes>) {
    && StartOk(z)
    && Repaired(local, z.local, z.mine, z.theirs, done)
    && Repaired(Batched(peer, batch), z.peer, z.theirs, z.mine, done)
    && forall i :: 0 <= i < |batch| ==> batch[i].0 in done
  }

  /** Fetches an entry from the peer. */
  method PullFromPeer(local: Replica, peer: Replica, key: Bytes, ghost batch: seq<(Bytes, Stored)>, ghost z: Start,
                      ghost done: set<Bytes>)
    requires local != peer && Joined(local.store, peer.store, batch, z, done) && key !in done
    requires Loses(z.mine, z.theirs, key)
    modifies local
    ensures Joined(local.store, peer.store, batch, z, done + {key})
  {
    hide Precedes, Repaired, Batched;
    PeerHas(local.store, peer.store, batch, z, done, key);
    var s := peer.store[key];
    RepairOne(local.store, z.local, z.mine, z.theirs, done, key);
    BothCannotLose(z.mine, z.theirs, key);
    KeepOne(Batched(peer.store, batch), z.peer, z.theirs, z.mine, done, key);
    local.Put(key, s);
  }

  lemma {:induction false} PeerHas(local: Store, peer: Store, batch: seq<(Bytes, Stored)>, z: Start, done: set<Bytes>,
                                   k: Bytes)
    requires Joined(local, peer, batch, z, done) && k !in done
    ensures k in peer <==> k in z.peer
    ensures k in z.peer ==> peer[k] == z.peer[k]
    ensures k in z.local ==> k in local && local[k] == z.local[k]
  {
    hide Precedes, Batched;
    BatchedElsewhere(peer, batch, k);
  }

  /** Queues an entry for the peer; a full batch is sent. */
  method PushLocal(local: Replica, peer: Replica, key: Bytes, batch0: seq<(Bytes, Stored)>, ghost z: Start,
                   ghost done: set<Bytes>) returns (batch: seq<(Bytes, Stored)>)
    requires local != peer && Joined(local.store, peer.store, batch0, z, done) && key !in done
    requires Loses(z.theirs, z.mine, key)
    modifies peer
    ensures Joined(local.store, peer.store, batch, z, done + {key})
  {
    hide Precedes, Repaired, Batched;
    PeerHas(local.store, peer.store, batch0, z, done, key);
    batch := batch0 + [(key, local.store[key])];
    BatchedNext(peer.store, batch0, key, z.mine[key]);
    RepairOne(Batched(peer.store, batch0), z.peer, z.theirs, z.mine, done, key);
    BothCannotLose(z.theirs, z.mine, key);
    KeepOne(local.store, z.local, z.mine, z.theirs, done, key);
    if |batch| >= PUSH_BATCH_SIZE {
      BatchedNone(Batched(peer.store, batch));
      peer.WriteBatch(batch);
      batch := [];
    }
  }

  lemma {:induction false} BatchedNext(store: Store, batch: seq<(Bytes, Stored)>, key: Bytes, s: Stored)
    ensures Batched(store, batch + [(key, s)]) == Batched(store, batch)[key := s]
  {
    assert (batch + [(key, s)])[..|batch|] == batch;
  }

  lemma {:induction false} BatchedNone(store: Store)
    ensures Batched(store, []) == store
  {
  }

  /** Equal timestamps: nothing to do. */
  lemma {:induction false} Tied(local: Store, peer: Store, batch: seq<(Bytes, Stored)>, z: Start, done: set<Bytes>,
                                k: Bytes)
    requires Joined(local, peer, batch, z, done) && k !in done && !Loses(z.mine, z.theirs, k)
    requires !Loses(z.theirs, z.mine, k)
    ensures Joined(local, peer, batch, z, done + {k})
  {
    hide Precedes, Repaired, Batched, Loses;
    KeepOne(local, z.local, z.mine, z.theirs, done, k);
    KeepOne(Batched(peer, batch), z.peer, z.theirs, z.mine, done, k);
  }

  /** All keys dealt with come before everything still to come. */
  ghost predicate Ahead(done: set<Bytes>, es: seq<Entry>, i: nat) {
    forall k, j :: k in done && i <= j < |es| ==> Less(k, es[j].key)
  }

  lemma {:induction false} AheadFresh(done: set<Bytes>, es: seq<Entry>, i: nat)
    requires Ahead(done, es, i) && i < |es|
    ensures es[i].key !in done
  {
    hide Less;
    LessIrreflexive(es[i].key);
  }

  /** The head of one bucket, smaller than everything left of the other, is not in the other. */
  lemma {:induction false} OnlyHere(done: set<Bytes>, es: seq<Entry>, i: nat, k: Bytes)
    requires i <= |es| && KeysOf(es[..i]) <= done && k !in done
    requires forall j :: i <= j < |es| ==> Less(k, es[j].key)
    ensures k !in KeysOf(es)
  {
    hide Less;
    LessIrreflexive(k);
    forall j | 0 <= j < |es| ensures es[j].key != k {
      if j < i { assert es[..i][j].key in KeysOf(es[..i]); }
    }
  }

  /** The two positions of the join: what lies before them is done, and comes first. */
  ghost predicate Positioned(mine: seq<Entry>, theirs: seq<Entry>, i: nat, j: nat, done: set<Bytes>) {
    && i <= |mine| && j <= |theirs| && done == KeysOf(mine[..i]) + KeysOf(theirs[..j])
    && Ahead(done, mine, i) && Ahead(done, theirs, j)
  }

  lemma {:induction false} KeysNext(es: seq<Entry>, i: nat)
    requires i < |es|
    ensures KeysOf(es[..i + 1]) == KeysOf(es[..i]) + {es[i].key}
  {
    var a, b := es[..i], es[..i + 1];
    assert b == a + [es[i]];
    forall k | k in KeysOf(a) + {es[i].key} ensures k in KeysOf(b) {
      if k == es[i].key { assert b[i].key == k; } else {
        var n :| 0 <= n < |a| && a[n].key == k;
        assert b[n].key == k;
      }
    }
  }

  /** Moving past the head of one or both buckets. */
  lemma {:induction false} Advance(mine: seq<Entry>, theirs: seq<Entry>, i: nat, j: nat, done: set<Bytes>, k: Bytes,
                                   i': nat, j': nat)
    requires Positioned(mine, theirs, i, j, done) && Ascending(mine) && Ascending(theirs)
    requires i <= i' <= i + 1 && j <= j' <= j + 1 && i' <= |mine| && j' <= |theirs| && i + j < i' + j'
    requires i' == i + 1 ==> mine[i].key == k
    requires j' == j + 1 ==> theirs[j].key == k
    requires i' == i && i < |mine| ==> Less(k, mine[i].key)
    requires j' == j && j < |theirs| ==> Less(k, theirs[j].key)
    ensures Positioned(mine, theirs, i', j', done + {k})
  {
    hide Less, KeysOf, Ahead;
    if i' == i + 1 { KeysNext(mine, i); }
    if j' == j + 1 { KeysNext(theirs, j); }
    RestAhead(done, mine, i, i', k);
    RestAhead(done, theirs, j, j', k);
  }

  lemma {:induction false} RestAhead(done: set<Bytes>, es: seq<Entry>, i: nat, i': nat, k: Bytes)
    requires Ahead(done, es, i) && Ascending(es) && i <= i' <= i + 1 && i' <= |es|
    requires if i' == i + 1 then es[i].key == k else i < |es| ==> Less(k, es[i].key)
    ensures Ahead(done + {k}, es, i')
    ensures forall n :: i' <= n < |es| ==> Less(k, es[n].key)
  {
    hide Less;
    forall n | i' <= n < |es| ensures Less(k, es[n].key) {
      if i' == i && n > i { LessTransitive(k, es[i].key, es[n].key); }
    }
  }

  /** Which side, if any, loses at the heads of the join. */
  lemma {:induction false} HeadFacts(mine: seq<Entry>, theirs: seq<Entry>, i: nat, j: nat, done: set<Bytes>,
                                     l0: Store, p0: Store)
    requires Positioned(mine, theirs, i, j, done) && Ascending(mine) && Ascending(theirs)
    requires Drawn(mine, l0) && Drawn(theirs, p0)
    ensures var v, w := View(mine, l0), View(theirs, p0);
      && (i < |mine| ==> mine[i].key !in done && mine[i].key in v && v[mine[i].key].ts == mine[i].ts)
      && (j < |theirs| ==> theirs[j].key !in done && theirs[j].key in w && w[theirs[j].key].ts == theirs[j].ts)
      && (i < |mine| && (j == |theirs| || Less(mine[i].key, theirs[j].key)) ==> mine[i].key !in w)
      && (j < |theirs| && (i == |mine| || Less(theirs[j].key, mine[i].key)) ==> theirs[j].key !in v)
  {
    hide Less, KeysOf, Ahead;
    if i < |mine| {
      AheadFresh(done, mine, i);
      assert mine[i].key in KeysOf(mine);
      if j == |theirs| || Less(mine[i].key, theirs[j].key) { HeadOnlyHere(done, mine[i].key, theirs, j); }
    }
    if j < |theirs| {
      AheadFresh(done, theirs, j);
      assert theirs[j].key in KeysOf(theirs);
      if i == |mine| || Less(theirs[j].key, mine[i].key) { HeadOnlyHere(done, theirs[j].key, mine, i); }
    }
  }

  lemma {:induction false} HeadOnlyHere(done: set<Bytes>, k: Bytes, there: seq<Entry>, j: nat)
    requires j <= |there| && k !in done && KeysOf(there[..j]) <= done && Ascending(there)
    requires j == |there| || Less(k, there[j].key)
    ensures k !in KeysOf(there)
  {
    hide Less;
    forall n | j <= n < |there| ensures Less(k, there[n].key) {
      if n > j { LessTransitive(k, there[j].key, there[n].key); }
    }
    OnlyHere(done, there, j, k);
  }

  /** The keys of done that one side had to take from the other. */
  ghost function Fixed(mine: Store, theirs: Store, done: set<Bytes>): set<Bytes> {
    set k | k in done && (Loses(mine, theirs, k) || Loses(theirs, mine, k))
  }

  lemma {:induction false} FixedNext(mine: Store, theirs: Store, done: set<Bytes>, k: Bytes)
    requires k !in done
    ensures |Fixed(mine, theirs, done + {k})| ==
            |Fixed(mine, theirs, done)| + (if Loses(mine, theirs, k) || Loses(theirs, mine, k) then 1 else 0)
  {
    hide Loses;
    var before, after := Fixed(mine, theirs, done), Fixed(mine, theirs, done + {k});
    if Loses(mine, theirs, k) || Loses(theirs, mine, k) {
      assert after == before + {k};
    } else {
      assert after == before;
    }
  }

  /** One round of the join: the smaller head, or both when they carry the same key. */
  method JoinStep(local: Replica, peer: Replica, mine: seq<Entry>, theirs: seq<Entry>, i: nat, j: nat,
                  batch0: seq<(Bytes, Stored)>, ghost z: Start, ghost done: set<Bytes>)
    returns (i': nat, j': nat, batch: seq<(Bytes, Stored)>, n: nat, ghost done': set<Bytes>)
    requires local != peer && Joined(local.store, peer.store, batch0, z, done)
    requires Positioned(mine, theirs, i, j, done) && (i < |mine| || j < |theirs|)
    requires Ascending(mine) && Ascending(theirs) && Drawn(mine, z.local) && Drawn(theirs, z.peer)
    requires z.mine == View(mine, z.local) && z.theirs == View(theirs, z.peer)
    modifies local, peer
    ensures Joined(local.store, peer.store, batch, z, done') && Positioned(mine, theirs, i', j', done')
    ensures i + j < i' + j' && n <= 1 && |Fixed(z.mine, z.theirs, done')| == |Fixed(z.mine, z.theirs, done)| + n
  {
    hide Less, Precedes, Joined, KeysOf, Ahead, Drawn, Ascending, Fixed, View;
    HeadFacts(mine, theirs, i, j, done, z.local, z.peer);
    i', j', batch, n := i, j, batch0, 0;
    ghost var k :=
      if i < |mine| && (j == |theirs| || !Less(theirs[j].key, mine[i].key)) then mine[i].key else theirs[j].key;
    done' := done + {k};
    if i == |mine| {
      PullFromPeer(local, peer, theirs[j].key, batch, z, done);
      j', n := j + 1, 1;
    } else if j == |theirs| {
      batch := PushLocal(local, peer, mine[i].key, batch, z, done);
      i', n := i + 1, 1;
    } else if mine[i].key == theirs[j].key {
      LessIrreflexive(mine[i].key);
      PrecedesTotal(mine[i].ts, theirs[j].ts);
      if Precedes(mine[i].ts, theirs[j].ts) {
        PullFromPeer(local, peer, theirs[j].key, batch, z, done);
        n := 1;
      } else if Precedes(theirs[j].ts, mine[i].ts) {
        batch := PushLocal(local, peer, mine[i].key, batch, z, done);
        n := 1;
      } else {
        Tied(local.store, peer.store, batch, z, done, k);
      }
      i', j' := i + 1, j + 1;
    } else if Less(mine[i].key, theirs[j].key) {
      LessAsymmetric(mine[i].key, theirs[j].key);
      batch := PushLocal(local, peer, mine[i].key, batch, z, done);
      i', n := i + 1, 1;
    } else {
      LessConnected(mine[i].key, theirs[j].key);
      PullFromPeer(local, peer, theirs[j].key, batch, z, done);
      j', n := j + 1, 1;
    }
    Advance(mine, theirs, i, j, done, k, i', j');
    FixedNext(z.mine, z.theirs, done, k);
  }

  /** Repairs at most budget keys. Short of the budget all keys of both buckets are compared, and
      both sides end with the later entry for every key that the buckets show as stored. */
  method ReconcileBucket(local: Replica, peer: Replica, mine: seq<Entry>, theirs: seq<Entry>, budget: int)
    returns (repaired: nat, ghost done: set<Bytes>)
    requires local != peer && Ascending(mine) && Ascending(theirs)
    requires Drawn(mine, local.store) && Drawn(theirs, peer.store)
    modifies local, peer
    ensures var v, w := View(mine, old(local.store)), View(theirs, old(peer.store));
      && repaired <= (if budget <= 0 then 0 else budget) && repaired == |Fixed(v, w, done)|
      && Repaired(local.store, old(local.store), v, w, done) && Repaired(peer.store, old(peer.store), w, v, done)
    ensures done <= KeysOf(mine) + KeysOf(theirs)
    ensures repaired < budget ==> done == KeysOf(mine) + KeysOf(theirs)
    ensures forall ks: set<Bytes> ::
      Complete(mine, old(local.store), ks) && Complete(theirs, old(peer.store), ks) && repaired < budget ==>
      Converged(local.store, peer.store, old(local.store), old(peer.store), ks)
    ensures forall ks: set<Bytes> :: Complete(mine, old(local.store), ks) && Complete(theirs, old(peer.store), ks) ==>
      NotLowered(old(local.store), local.store) && NotLowered(old(peer.store), peer.store)
  {
    hide Less, Precedes, Joined, KeysOf, Ahead, Complete, Drawn, Ascending, Repaired, Converged, Positioned, Loses,
      View, NotLowered, Shown;
    ghost var z := Start(local.store, peer.store, View(mine, local.store), View(theirs, peer.store));
    repaired, done := 0, {};
    StartJoin(mine, theirs, z);
    var batch: seq<(Bytes, Stored)> := [];
    var i: nat, j: nat := 0, 0;
    while repaired < budget && (i < |mine| || j < |theirs|)
      invariant repaired <= (if budget <= 0 then 0 else budget) && repaired == |Fixed(z.mine, z.theirs, done)|
      invariant Joined(local.store, peer.store, batch, z, done) && Positioned(mine, theirs, i, j, done)
      invariant i <= |mine| && j <= |theirs|
      decreases |mine| + |theirs| - i - j
    {
      var n: nat;
      i, j, batch, n, done := JoinStep(local, peer, mine, theirs, i, j, batch, z, done);
      InRange(mine, theirs, i, j, done);
      repaired := repaired + n;
    }
    Flushed(local.store, peer.store, batch, z, done);
    peer.WriteBatch(batch);
    AllDone(mine, theirs, i, j, done);
    forall ks: set<Bytes> | Complete(mine, z.local, ks) && Complete(theirs, z.peer, ks)
      ensures NotLowered(z.local, local.store) && NotLowered(z.peer, peer.store)
    {
      AllShown(mine, z.local, ks);
      AllShown(theirs, z.peer, ks);
      InBuckets(mine, theirs, z, done, ks);
      ShownNotLowered(local.store, z.local, z.mine, z.theirs, done, ks);
      ShownNotLowered(peer.store, z.peer, z.theirs, z.mine, done, ks);
    }
    if i == |mine| && j == |theirs| {
      forall ks: set<Bytes> | Complete(mine, z.local, ks) && Complete(theirs, z.peer, ks)
        ensures Converged(local.store, peer.store, z.local, z.peer, ks)
      {
        BucketConverges(local.store, peer.store, mine, theirs, z, done, ks);
      }
    }
  }

  lemma {:induction false} InBuckets(mine: seq<Entry>, theirs: seq<Entry>, z: Start, done: set<Bytes>, ks: set<Bytes>)
    requires Complete(mine, z.local, ks) && Complete(theirs, z.peer, ks) && done <= KeysOf(mine) + KeysOf(theirs)
    ensures done <= ks
  {
    hide KeysOf;
  }

  lemma {:induction false} StartJoin(mine: seq<Entry>, theirs: seq<Entry>, z: Start)
    requires z.mine == View(mine, z.local) && z.theirs == View(theirs, z.peer)
    ensures Joined(z.local, z.peer, [], z, {}) && Positioned(mine, theirs, 0, 0, {})
  {
    hide Less, Precedes, View;
  }

  lemma {:induction false} InRange(mine: seq<Entry>, theirs: seq<Entry>, i: nat, j: nat, done: set<Bytes>)
    requires Positioned(mine, theirs, i, j, done)
    ensures i <= |mine| && j <= |theirs|
  {
    hide Less;
  }

  lemma {:induction false} Flushed(local: Store, peer: Store, batch: seq<(Bytes, Stored)>, z: Start, done: set<Bytes>)
    requires Joined(local, peer, batch, z, done)
    ensures Repaired(local, z.local, z.mine, z.theirs, done)
    ensures Repaired(Batched(peer, batch), z.peer, z.theirs, z.mine, done)
  {
    hide Precedes;
  }

  lemma {:induction false} AllDone(mine: seq<Entry>, theirs: seq<Entry>, i: nat, j: nat, done: set<Bytes>)
    requires Positioned(mine, theirs, i, j, done)
    ensures done <= KeysOf(mine) + KeysOf(theirs)
    ensures i == |mine| && j == |theirs| ==> done == KeysOf(mine) + KeysOf(theirs)
  {
    hide Less, Ahead, KeysOf;
    PrefixKeys(mine, i);
    PrefixKeys(theirs, j);
    assert mine[..|mine|] == mine && theirs[..|theirs|] == theirs;
  }

  lemma {:induction false} PrefixKeys(es: seq<Entry>, i: nat)
    requires i <= |es|
    ensures KeysOf(es[..i]) <= KeysOf(es)
  {
    forall k | k in KeysOf(es[..i]) ensures k in KeysOf(es) {
      var n :| 0 <= n < i && es[..i][n].key == k;
      assert es[n].key == k;
    }
  }

  /** Buckets that show all of ks, compared to the end. */
  lemma {:induction false} BucketConverges(a: Store, b: Store, mine: seq<Entry>, theirs: seq<Entry>, z: Start,
                                           done: set<Bytes>, ks: set<Bytes>)
    requires Drawn(mine, z.local) && Drawn(theirs, z.peer) && Complete(mine, z.local, ks)
    requires Complete(theirs, z.peer, ks)
    requires z.mine == View(mine, z.local) && z.theirs == View(theirs, z.peer) && done == KeysOf(mine) + KeysOf(theirs)
    requires Repaired(a, z.local, z.mine, z.theirs, done) && Repaired(b, z.peer, z.theirs, z.mine, done)
    ensures Converged(a, b, z.local, z.peer, ks)
  {
    hide Precedes, KeysOf, Drawn, Converged, Repaired, Shown, Complete, View;
    AllShown(mine, z.local, ks);
    AllShown(theirs, z.peer, ks);
    WithinBuckets(mine, theirs, z, done, ks);
    NothingMore(a, z.local, z.mine, z.theirs, done, ks);
    NothingMore(b, z.peer, z.theirs, z.mine, done, ks);
    RepairConverges(a, b, z.local, z.peer, z.mine, z.theirs, ks);
  }

  lemma {:induction false} AllShown(es: seq<Entry>, store: Store, ks: set<Bytes>)
    requires Drawn(es, store) && Complete(es, store, ks)
    ensures Shown(View(es, store), store, ks)
  {
    hide KeysOf, Drawn;
  }

  lemma {:induction false} WithinBuckets(mine: seq<Entry>, theirs: seq<Entry>, z: Start, done: set<Bytes>,
                                         ks: set<Bytes>)
    requires Complete(mine, z.local, ks) && Complete(theirs, z.peer, ks) && done == KeysOf(mine) + KeysOf(theirs)
    requires z.mine == View(mine, z.local) && z.theirs == View(theirs, z.peer)
    ensures done <= ks && forall k :: k in ks && k !in done ==> k !in z.mine && k !in z.theirs
  {
    hide KeysOf, Drawn;
  }

  /** Keys that neither bucket shows make no difference. */
  lemma {:induction false} NothingMore(now: Store, was: Store, mine: Store, theirs: Store, done: set<Bytes>,
                                       ks: set<Bytes>)
    requires Repaired(now, was, mine, theirs, done) && done <= ks
    requires forall k :: k in ks && k !in done ==> k !in mine && k !in theirs
    ensures Repaired(now, was, mine, theirs, ks)
  {
    hide Precedes;
  }

  /** Nothing falls where the buckets show everything. */
  lemma {:induction false} ShownNotLowered(now: Store, was: Store, mine: Store, theirs: Store, done: set<Bytes>,
                                           ks: set<Bytes>)
    requires Repaired(now, was, mine, theirs, done) && done <= ks && Shown(mine, was, ks)
    requires forall k :: k in mine ==> k in was && mine[k] == was[k]
    ensures NotLowered(was, now)
  {
    hide Precedes, Repaired, NotLowered;
    LoweredIff(now, was, mine, theirs, done);
  }
}
