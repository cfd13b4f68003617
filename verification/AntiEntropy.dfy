/**
A round of anti-entropy (cluster/antientropy/reconcile.go:107-179): the trees of two replicas are
compared, and the buckets whose leaves differ are reconciled one after the other while the
repair budget lasts. Entries younger than a cutoff are left out: the trees and the buckets of the
peer go by the cutoff in the digest, a local bucket by one computed when it is drained. drain and
peerDrain stand for scanning a bucket of a store.
*/
module AntiEntropy {
  import opened Bytes
  import opened Timestamps
  import opened Merkle
  import opened MerkleTree
  import opened Reconcile

  /** The entries older than the cutoff in force for their bucket. */
  function Old(store: Store, cut: nat -> int, bucket: Bytes -> nat): (r: Store)
    ensures forall k :: k in r ==> k in store && r[k] == store[k]
  {
    map k | k in store && store[k].ts.wall < cut(bucket(k)) :: store[k]
  }

  /** One cutoff for all buckets, such as the one in the digest that the peer goes by. */
  function Throughout(cutoff: int): nat -> int {
    _ => cutoff
  }

  /** The old entries of one bucket, in key order. */
  ghost predicate Drains(es: seq<Entry>, store: Store, b: nat, bucket: Bytes -> nat, cut: nat -> int) {
    && Ascending(es) && Drawn(es, store)
    && forall k :: k in KeysOf(es) <==> k in Old(store, cut, bucket) && bucket(k) == b
  }

  ghost predicate Apart(bs: seq<nat>) {
    forall i, j :: 0 <= i < j < |bs| ==> bs[i] != bs[j]
  }

  /** Only keys of the first n buckets have been compared. */
  ghost predicate Within(done: set<Bytes>, bs: seq<nat>, n: nat, bucket: Bytes -> nat)
    requires n <= |bs|
  {
    forall k :: k in done ==> bucket(k) in bs[..n]
  }

  /** All keys of the first n buckets have been compared. */
  ghost predicate Covers(done: set<Bytes>, bs: seq<nat>, n: nat, bucket: Bytes -> nat, mine: Store, theirs: Store)
    requires n <= |bs|
  {
    forall k :: (k in mine || k in theirs) && bucket(k) in bs[..n] ==> k in done
  }

  /** Two pairs of stores show the same for these keys. */
  ghost predicate Alike(v: Store, mine: Store, ks: set<Bytes>) {
    && (forall k :: k in ks ==> (k in v <==> k in mine))
    && (forall k :: k in ks && k in v ==> v[k] == mine[k])
  }

  /** Repairing one bucket more. */
  lemma {:induction false} RepairedMore(now: Store, mid: Store, was: Store, mine: Store, theirs: Store, v: Store,
                                        w: Store, done: set<Bytes>, more: set<Bytes>)
    requires Repaired(mid, was, mine, theirs, done) && Repaired(now, mid, v, w, more) && done !! more
    requires Alike(v, mine, more) && Alike(w, theirs, more)
    ensures Repaired(now, was, mine, theirs, done + more)
  {
    hide Precedes;
  }

  /** What one bucket more adds to the number of keys repaired. */
  lemma {:induction false} FixedMore(mine: Store, theirs: Store, v: Store, w: Store, done: set<Bytes>,
                                     more: set<Bytes>)
    requires done !! more && Alike(v, mine, more) && Alike(w, theirs, more)
    ensures |Fixed(mine, theirs, done + more)| == |Fixed(mine, theirs, done)| + |Fixed(v, w, more)|
  {
    hide Loses, Alike;
    FixedAlike(mine, theirs, v, w, more);
    assert Fixed(mine, theirs, done + more) == Fixed(mine, theirs, done) + Fixed(mine, theirs, more);
  }

  lemma {:induction false} FixedAlike(mine: Store, theirs: Store, v: Store, w: Store, ks: set<Bytes>)
    requires Alike(v, mine, ks) && Alike(w, theirs, ks)
    ensures Fixed(v, w, ks) == Fixed(mine, theirs, ks)
  {
    hide Precedes;
  }

  /** No more keys are repaired than differ. */
  lemma {:induction false} FixedWithin(mine: Store, theirs: Store, done: set<Bytes>)
    ensures |Fixed(mine, theirs, done)| <= |Fixed(mine, theirs, mine.Keys + theirs.Keys)|
  {
    hide Precedes;
    var all := Fixed(mine, theirs, mine.Keys + theirs.Keys);
    assert Fixed(mine, theirs, done) <= all;
    SubsetSize(Fixed(mine, theirs, done), all);
  }

  lemma {:induction false} SubsetSize(a: set<Bytes>, b: set<Bytes>)
    requires a <= b
    ensures |a| <= |b|
  {
    assert b == a + (b - a);
  }

  /** A bucket not touched yet still shows what it showed at the start. */
  lemma {:induction false} StillShows(es: seq<Entry>, now: Store, was: Store, mine: Store, theirs: Store,
                                      done: set<Bytes>, b: nat, bucket: Bytes -> nat, cut: nat -> int, k: Bytes)
    requires Drains(es, now, b, bucket, cut) && Repaired(now, was, mine, theirs, done) && k !in done
    requires bucket(k) == b
    ensures k in View(es, now) <==> k in Old(was, cut, bucket)
    ensures k in View(es, now) ==> View(es, now)[k] == was[k]
  {
    hide Precedes, KeysOf, Ascending;
  }

  /** The replicas after the keys of done were compared, by what both showed at the start. */
  ghost predicate Compared(local: Store, peer: Store, l0: Store, p0: Store, mine: Store, theirs: Store,
                           done: set<Bytes>) {
    Repaired(local, l0, mine, theirs, done) && Repaired(peer, p0, theirs, mine, done)
  }

  lemma {:induction false} BucketAlike(es: seq<Entry>, now: Store, was: Store, mine: Store, theirs: Store,
                                       done: set<Bytes>, more: set<Bytes>, b: nat, bucket: Bytes -> nat,
                                       cut: nat -> int)
    requires Drains(es, now, b, bucket, cut) && Repaired(now, was, mine, theirs, done) && mine == Old(was, cut, bucket)
    requires forall k :: k in more ==> bucket(k) == b && k !in done
    ensures Alike(View(es, now), mine, more)
  {
    hide Precedes, Repaired, View, Old, KeysOf, Ascending, Drains;
    forall k | k in more
      ensures k in View(es, now) <==> k in mine
      ensures k in View(es, now) ==> View(es, now)[k] == mine[k]
    {
      StillShows(es, now, was, mine, theirs, done, b, bucket, cut, k);
    }
  }

  lemma {:induction false} DrainedBucket(es: seq<Entry>, store: Store, b: nat, bucket: Bytes -> nat, cut: nat -> int)
    requires Drains(es, store, b, bucket, cut)
    ensures Ascending(es) && Drawn(es, store) && forall k :: k in KeysOf(es) ==> bucket(k) == b
  {
    hide Ascending, Drawn, KeysOf, Old;
  }

  lemma {:induction false} OneBucketMore(l2: Store, p2: Store, l1: Store, p1: Store, l0: Store, p0: Store,
                                         v: Store, w: Store, mine: seq<Entry>, theirs: seq<Entry>,
                                         done: set<Bytes>, more: set<Bytes>, b: nat, bucket: Bytes -> nat,
                                         mineCut: nat -> int, theirCut: nat -> int)
    requires Compared(l1, p1, l0, p0, v, w, done) && (forall k :: k in done ==> bucket(k) != b)
    requires v == Old(l0, mineCut, bucket) && w == Old(p0, theirCut, bucket)
    requires Drains(mine, l1, b, bucket, mineCut) && Drains(theirs, p1, b, bucket, theirCut)
    requires more <= KeysOf(mine) + KeysOf(theirs)
    requires Repaired(l2, l1, View(mine, l1), View(theirs, p1), more)
    requires Repaired(p2, p1, View(theirs, p1), View(mine, l1), more)
    ensures Compared(l2, p2, l0, p0, v, w, done + more) && forall k :: k in more ==> bucket(k) == b
    ensures |Fixed(v, w, done + more)| == |Fixed(v, w, done)| + |Fixed(View(mine, l1), View(theirs, p1), more)|
  {
    hide Precedes, Repaired, View, Old, KeysOf, Ascending, Drains, Alike, Fixed;
    DrainedBucket(mine, l1, b, bucket, mineCut);
    DrainedBucket(theirs, p1, b, bucket, theirCut);
    BucketAlike(mine, l1, l0, v, w, done, more, b, bucket, mineCut);
    BucketAlike(theirs, p1, p0, w, v, done, more, b, bucket, theirCut);
    RepairedMore(l2, l1, l0, v, w, View(mine, l1), View(theirs, p1), done, more);
    RepairedMore(p2, p1, p0, w, v, View(theirs, p1), View(mine, l1), done, more);
    FixedMore(v, w, View(mine, l1), View(theirs, p1), done, more);
  }

  /** Reconciles the buckets in order, within the budget. The local bucket is drained with a cutoff
      computed afresh each time, the peer's with the digest's. */
  method RepairBuckets(local: Replica, peer: Replica, buckets: seq<nat>, bucket: Bytes -> nat,
                       drain: (Store, nat) -> seq<Entry>, peerDrain: (Store, nat) -> seq<Entry>,
                       ghost localCut: nat -> int, ghost peerCut: nat -> int, budget: nat)
    returns (repaired: nat, ghost done: set<Bytes>)
    requires local != peer && Apart(buckets)
    requires forall store: Store, b: nat :: Drains(drain(store, b), store, b, bucket, localCut)
    requires forall store: Store, b: nat :: Drains(peerDrain(store, b), store, b, bucket, peerCut)
    modifies local, peer
    ensures var v, w := Old(old(local.store), localCut, bucket), Old(old(peer.store), peerCut, bucket);
      && Compared(local.store, peer.store, old(local.store), old(peer.store), v, w, done)
      && repaired == |Fixed(v, w, done)| && repaired <= budget
      && (|Fixed(v, w, v.Keys + w.Keys)| < budget ==> repaired < budget)
      && (repaired < budget ==> forall k :: (k in v || k in w) && bucket(k) in buckets ==> k in done)
    ensures forall k :: k in done ==> bucket(k) in buckets
  {
    hide Precedes, Repaired, View, Old, KeysOf, Compared, Drains, Within, Covers, Complete, Converged, Fixed;
    ghost var l0, p0 := local.store, peer.store;
    ghost var v, w := Old(l0, localCut, bucket), Old(p0, peerCut, bucket);
    repaired, done := 0, {};
    StartRound(l0, p0, v, w, buckets, bucket);
    var i := 0;
    while i < |buckets|
      invariant 0 <= i <= |buckets| && repaired <= budget && repaired == |Fixed(v, w, done)|
      invariant Compared(local.store, peer.store, l0, p0, v, w, done) && Within(done, buckets, i, bucket)
      invariant repaired < budget ==> Covers(done, buckets, i, bucket, v, w)
    {
      if repaired >= budget {
        WithinAll(done, buckets, i, bucket);
        FixedWithin(v, w, done);
        return;
      }
      ghost var l1, p1, before := local.store, peer.store, done;
      var mine, theirs := drain(local.store, buckets[i]), peerDrain(peer.store, buckets[i]);
      DrainedBucket(mine, l1, buckets[i], bucket, localCut);
      DrainedBucket(theirs, p1, buckets[i], bucket, peerCut);
      NotYet(done, buckets, i, bucket);
      var n, more := ReconcileBucket(local, peer, mine, theirs, budget - repaired);
      OneBucketMore(local.store, peer.store, l1, p1, l0, p0, v, w, mine, theirs, done, more, buckets[i], bucket,
                    localCut, peerCut);
      repaired, done := repaired + n, done + more;
      WithinNext(before, more, buckets, i, bucket);
      if repaired < budget {
        CoversNext(l1, p1, l0, p0, v, w, mine, theirs, before, more, buckets, i, bucket, localCut, peerCut);
      }
      i := i + 1;
    }
    WithinAll(done, buckets, i, bucket);
    FixedWithin(v, w, done);
    if repaired < budget { CoversAll(done, buckets, bucket, v, w); }
  }

  lemma {:induction false} StartRound(l0: Store, p0: Store, v: Store, w: Store, bs: seq<nat>, bucket: Bytes -> nat)
    ensures Compared(l0, p0, l0, p0, v, w, {}) && Within({}, bs, 0, bucket)
    ensures Covers({}, bs, 0, bucket, v, w) && |Fixed(v, w, {})| == 0
  {
    hide Precedes, Loses;
    assert Fixed(v, w, {}) == {};
  }

  lemma {:induction false} NotYet(done: set<Bytes>, bs: seq<nat>, i: nat, bucket: Bytes -> nat)
    requires i < |bs| && Apart(bs) && Within(done, bs, i, bucket)
    ensures forall k :: k in done ==> bucket(k) != bs[i]
  {
    assert bs[i] !in bs[..i];
  }

  lemma {:induction false} WithinNext(done: set<Bytes>, more: set<Bytes>, bs: seq<nat>, i: nat, bucket: Bytes -> nat)
    requires i < |bs| && Within(done, bs, i, bucket) && forall k :: k in more ==> bucket(k) == bs[i]
    ensures Within(done + more, bs, i + 1, bucket)
  {
    assert bs[..i + 1] == bs[..i] + [bs[i]];
  }

  lemma {:induction false} WithinAll(done: set<Bytes>, bs: seq<nat>, i: nat, bucket: Bytes -> nat)
    requires i <= |bs| && Within(done, bs, i, bucket)
    ensures forall k :: k in done ==> bucket(k) in bs
  {
  }

  lemma {:induction false} CoversAll(done: set<Bytes>, bs: seq<nat>, bucket: Bytes -> nat, mine: Store, theirs: Store)
    requires Covers(done, bs, |bs|, bucket, mine, theirs)
    ensures forall k :: (k in mine || k in theirs) && bucket(k) in bs ==> k in done
  {
    assert bs[..|bs|] == bs;
  }

  lemma {:induction false} CoversNext(l1: Store, p1: Store, l0: Store, p0: Store, v: Store, w: Store,
                                      mine: seq<Entry>, theirs: seq<Entry>, done: set<Bytes>, more: set<Bytes>,
                                      bs: seq<nat>, i: nat, bucket: Bytes -> nat, mineCut: nat -> int,
                                      theirCut: nat -> int)
    requires i < |bs| && Apart(bs) && Within(done, bs, i, bucket) && Compared(l1, p1, l0, p0, v, w, done)
    requires v == Old(l0, mineCut, bucket) && w == Old(p0, theirCut, bucket)
    requires Covers(done, bs, i, bucket, v, w) && more == KeysOf(mine) + KeysOf(theirs)
    requires Drains(mine, l1, bs[i], bucket, mineCut) && Drains(theirs, p1, bs[i], bucket, theirCut)
    ensures Covers(done + more, bs, i + 1, bucket, v, w)
  {
    hide Precedes, Repaired, Old, KeysOf, Ascending, Drawn, Drains, View;
    NotYet(done, bs, i, bucket);
    assert bs[..i + 1] == bs[..i] + [bs[i]];
    forall k | (k in v || k in w) && bucket(k) == bs[i] ensures k in more {
      ViewKeys(mine, l1, k);
      ViewKeys(theirs, p1, k);
      StillShows(mine, l1, l0, v, w, done, bs[i], bucket, mineCut, k);
      StillShows(theirs, p1, p0, w, v, done, bs[i], bucket, theirCut, k);
    }
  }

  lemma {:induction false} ViewKeys(es: seq<Entry>, store: Store, k: Bytes)
    ensures k in View(es, store) ==> k in KeysOf(es)
  {
  }

  // ----- a whole round -----

  /** A scan of the store: an entry for each key, in any order. */
  ghost predicate Lists(es: seq<Entry>, store: Store) {
    && (forall k :: k in store ==> Entry(k, store[k].ts, store[k].deleted) in es)
    && (forall e :: e in es ==> e.key in store && e == Entry(e.key, store[e.key].ts, store[e.key].deleted))
  }

  lemma {:induction false} SettledIs(es: seq<Entry>, cutoff: int, e: Entry)
    ensures e in Settled(es, cutoff) <==> e in es && e.ts.wall < cutoff
  {
    if es != [] {
      var n := |es| - 1;
      assert es == es[..n] + [es[n]];
      SettledIs(es[..n], cutoff, e);
    }
  }

  lemma {:induction false} OldListed(es: seq<Entry>, store: Store, cutoff: int, bucket: Bytes -> nat)
    requires Lists(es, store)
    ensures Lists(Settled(es, cutoff), Old(store, Throughout(cutoff), bucket))
  {
    hide Settled;
    forall e: Entry ensures e in Settled(es, cutoff) <==> e in es && e.ts.wall < cutoff { SettledIs(es, cutoff, e); }
  }

  /** Both sides hold the key with the same timestamp, or not at all. */
  predicate SameAt(mine: Store, theirs: Store, k: Bytes) {
    (k in mine <==> k in theirs) && (k in mine ==> mine[k].ts == theirs[k].ts)
  }

  /** Equal leaves mean the same entries in the bucket; LeafHash.SameLeafIff says when they do. */
  ghost predicate LeafTells(es: seq<Entry>, fs: seq<Entry>, b: nat, bucket: Bytes -> nat, eh: Entry -> Hash) {
    Leaf(es, b, bucket, eh) == Leaf(fs, b, bucket, eh) ==>
      forall e: Entry :: bucket(e.key) == b ==> (e in es <==> e in fs)
  }

  lemma {:induction false} SameLeafSame(es: seq<Entry>, fs: seq<Entry>, mine: Store, theirs: Store, k: Bytes,
                                        bucket: Bytes -> nat, eh: Entry -> Hash)
    requires Lists(es, mine) && Lists(fs, theirs) && LeafTells(es, fs, bucket(k), bucket, eh)
    requires Leaf(es, bucket(k), bucket, eh) == Leaf(fs, bucket(k), bucket, eh)
    ensures SameAt(mine, theirs, k)
  {
    hide Leaf;
    if k in mine { assert Entry(k, mine[k].ts, mine[k].deleted) in fs; }
    if k in theirs { assert Entry(k, theirs[k].ts, theirs[k].deleted) in es; }
  }

  /** No hash hides a difference: neither the root's, nor that of a node above, nor a leaf's. */
  ghost predicate HashesTell(f: nat, depth: nat, a: seq<seq<Hash>>, b: seq<seq<Hash>>, es: seq<Entry>, fs: seq<Entry>,
                             bucket: Bytes -> nat, eh: Entry -> Hash) {
    && f >= 1 && depth >= 1 && Sized(f, depth, a) && Sized(f, depth, b) && NoCollision(f, depth, a, b)
    && (a[0] == b[0] ==> a[depth] == b[depth])
    && forall i: nat :: i < Pow(f, depth) ==> LeafTells(es, fs, i, bucket, eh)
  }

  /** Every stored copy of the key is old enough to take part. */
  predicate OldAt(store: Store, k: Bytes, cutoff: int) {
    k in store ==> store[k].ts.wall < cutoff
  }

  /** A key compared by what both sides stored, or the same on both to begin with, has converged. */
  lemma {:induction false} KeyConverges(a: Store, b: Store, a0: Store, b0: Store, v: Store, w: Store,
                                        done: set<Bytes>, k: Bytes)
    requires Compared(a, b, a0, b0, v, w, done) && Shown(v, a0, {k}) && Shown(w, b0, {k})
    requires k in done || SameAt(a0, b0, k)
    ensures Converged(a, b, a0, b0, {k})
  {
    hide Precedes;
    if k in a0 && k in b0 { PrecedesTotal(a0[k].ts, b0[k].ts); }
  }

  lemma {:induction false} OldShown(store: Store, cut: nat -> int, bucket: Bytes -> nat, k: Bytes)
    requires OldAt(store, k, cut(bucket(k)))
    ensures Shown(Old(store, cut, bucket), store, {k})
  {
  }

  lemma {:induction false} LeafSame(es: seq<Entry>, b: nat, f: Bytes -> nat, g: Bytes -> nat, eh: Entry -> Hash)
    requires forall k :: f(k) == g(k)
    ensures Leaf(es, b, f, eh) == Leaf(es, b, g, eh)
  {
    if es != [] { LeafSame(es[..|es| - 1], b, f, g, eh); }
  }

  /** A tree over these entries, with its leaves for this way of filling buckets. */
  ghost predicate TreeOf(f: nat, depth: nat, levels: seq<seq<Hash>>, es: seq<Entry>, bucket: Bytes -> nat,
                         eh: Entry -> Hash) {
    && f >= 2 && depth >= 1 && Sized(f, depth, levels)
    && forall i: nat :: i < Pow(f, depth) ==> levels[depth][i] == Leaf(es, i, bucket, eh)
  }

  /** The leaves of this bucket differ. */
  predicate DifferAt(a: seq<seq<Hash>>, b: seq<seq<Hash>>, depth: nat, i: nat) {
    depth < |a| && depth < |b| && i < |a[depth]| && i < |b[depth]| && a[depth][i] != b[depth][i]
  }

  lemma {:induction false} TreeLeaves(t: Tree, bucket: Bytes -> nat)
    requires t.Valid() && forall k :: bucket(k) == t.BucketFor(k)
    ensures TreeOf(t.fanout, t.depth, t.levels, t.entries, bucket, t.entryHash)
  {
    hide Leaf, Pow;
    forall i: nat | i < Pow(t.fanout, t.depth) ensures t.levels[t.depth][i] == Leaf(t.entries, i, bucket, t.entryHash) {
      LeafSame(t.entries, i, bucket, t.BucketFor, t.entryHash);
    }
  }

  /** The buckets in which the round leaves nothing to do. */
  lemma {:induction false} QuietBuckets(f: nat, depth: nat, a: seq<seq<Hash>>, b: seq<seq<Hash>>, es: seq<Entry>,
                                        fs: seq<Entry>, mine: Store, theirs: Store, bucket: Bytes -> nat,
                                        eh: Entry -> Hash, found: seq<nat>, k: Bytes)
    requires TreeOf(f, depth, a, es, bucket, eh) && TreeOf(f, depth, b, fs, bucket, eh) && Lists(es, mine)
    requires Lists(fs, theirs)
    requires HashesTell(f, depth, a, b, es, fs, bucket, eh) && bucket(k) < Pow(f, depth)
    requires (a[0] == b[0] && found == []) || found == Reaches(f, a, b, depth, 0, Pow(f, depth))
    ensures bucket(k) in found || SameAt(mine, theirs, k)
  {
    hide Leaf, Reaches, Lists, SameAt, LeafTells, NoCollision, Pow;
    var i := bucket(k);
    if i !in found {
      if found == Reaches(f, a, b, depth, 0, Pow(f, depth)) {
        DivergentAreDiffering(f, depth, a, b, found);
      }
      assert a[depth][i] == b[depth][i];
      SameLeafSame(es, fs, mine, theirs, k, bucket, eh);
    }
  }

  /** The trees of a round: those of the old entries of both sides, finished. */
  ghost predicate RoundTrees(f: int, depth: int, a: seq<seq<Hash>>, b: seq<seq<Hash>>, es: seq<Entry>, fs: seq<Entry>,
                             bucket: Bytes -> nat, entryHash: Entry -> Hash, hashChildren: seq<Hash> -> Hash) {
    && f >= 2 && depth >= 1 && TreeOf(f, depth, a, es, bucket, entryHash) && TreeOf(f, depth, b, fs, bucket, entryHash)
    && Final(f, depth, a, hashChildren) && Final(f, depth, b, hashChildren)
  }

  /** If the roots differ, every key of a bucket that the descent reaches has been compared. */
  ghost predicate ReachedDone(f: nat, depth: nat, a: seq<seq<Hash>>, b: seq<seq<Hash>>, v: Store, w: Store,
                              bucket: Bytes -> nat, done: set<Bytes>) {
    f >= 1 && |a| > 0 && |b| > 0 && a[0] != b[0] ==>
      forall k :: (k in v || k in w) && bucket(k) in Reaches(f, a, b, depth, 0, Pow(f, depth)) ==> k in done
  }

  /** The copies of the key that take part in the trees, and later in the buckets, are all there are. */
  predicate Settles(local: Store, peer: Store, k: Bytes, cutoff: int, localCutoff: int) {
    OldAt(local, k, cutoff) && OldAt(local, k, localCutoff) && OldAt(peer, k, cutoff)
  }

  /** A round: after it, if the budget was not used up and no hash hid a difference, both sides
      hold the later timestamp for every key whose copies were all old enough. Only keys in
      buckets whose leaves differ are touched. */
  method Round(local: Replica, peer: Replica, mine: seq<Entry>, theirs: seq<Entry>, cutoff: int, fanout: int,
               depth: int, hash: Bytes -> nat, entryHash: Entry -> Hash, hashChildren: seq<Hash> -> Hash,
               bucket: Bytes -> nat, drain: (Store, nat) -> seq<Entry>, peerDrain: (Store, nat) -> seq<Entry>,
               ghost localCut: nat -> int, budget: nat)
    returns (ok: bool, repaired: nat, ghost a: seq<seq<Hash>>, ghost b: seq<seq<Hash>>, ghost done: set<Bytes>)
    requires local != peer && Lists(mine, local.store) && Lists(theirs, peer.store)
    requires fanout >= 2 && depth >= 1 ==> forall k :: bucket(k) == hash(k) % Pow(fanout, depth)
    requires forall store: Store, i: nat :: Drains(drain(store, i), store, i, bucket, localCut)
    requires forall store: Store, i: nat :: Drains(peerDrain(store, i), store, i, bucket, Throughout(cutoff))
    modifies local, peer
    ensures ok <==> fanout >= 2 && 1 <= depth <= MAX_DEPTH && Pow(fanout, depth) <= MAX_INT
    ensures !ok ==> local.store == old(local.store) && peer.store == old(peer.store) && done == {}
    ensures ok ==> RoundTrees(fanout, depth, a, b, Settled(mine, cutoff), Settled(theirs, cutoff), bucket, entryHash,
                              hashChildren)
    ensures ok ==> forall k :: k in done ==> DifferAt(a, b, depth, bucket(k))
    ensures var v, w := Old(old(local.store), localCut, bucket), Old(old(peer.store), Throughout(cutoff), bucket);
      && Compared(local.store, peer.store, old(local.store), old(peer.store), v, w, done)
      && repaired == |Fixed(v, w, done)| && repaired <= budget
      && (|Fixed(v, w, v.Keys + w.Keys)| < budget ==> repaired < budget)
      && (ok && repaired < budget ==> ReachedDone(fanout, depth, a, b, v, w, bucket, done))
    ensures (
      && ok && repaired < budget
      && HashesTell(fanout, depth, a, b, Settled(mine, cutoff), Settled(theirs, cutoff), bucket, entryHash)) ==>
      forall k :: Settles(old(local.store), old(peer.store), k, cutoff, localCut(bucket(k))) ==>
        Converged(local.store, peer.store, old(local.store), old(peer.store), {k})
  {
    hide Precedes, Repaired, Old, Compared, Drains, Converged, Leaf, Reaches, Settled, Lists, SameAt, Settles,
      HashesTell, Sized, Final, TreeOf, Fixed, DifferAt;
    ghost var l0, p0 := local.store, peer.store;
    StartRound(l0, p0, Old(l0, localCut, bucket), Old(p0, Throughout(cutoff), bucket), [], bucket);
    ok, repaired, a, b, done := false, 0, [], [], {};
    var localTree := BuildTree(mine, cutoff, fanout, depth, hash, entryHash, hashChildren);
    if localTree.None? {
      return;
    }
    var peerTree := BuildTree(theirs, cutoff, fanout, depth, hash, entryHash, hashChildren);
    var s, t := localTree.value, peerTree.value;
    ok, a, b := true, s.levels, t.levels;
    TreeLeaves(s, bucket);
    TreeLeaves(t, bucket);
    var found: seq<nat> := [];
    RootThere(s.fanout, s.depth, a, b);
    if s.levels[0][0] != t.levels[0][0] {
      found := FindDivergentBuckets(s, t);
    }
    FoundApart(s.fanout, s.depth, a, b, found);
    repaired, done := RepairBuckets(local, peer, found, bucket, drain, peerDrain, localCut, Throughout(cutoff), budget);
    if repaired < budget
      && HashesTell(fanout, depth, a, b, Settled(mine, cutoff), Settled(theirs, cutoff), bucket, entryHash) {
      forall k | Settles(l0, p0, k, cutoff, localCut(bucket(k)))
        ensures Converged(local.store, peer.store, l0, p0, {k})
      {
        RoundConverges(local.store, peer.store, l0, p0, mine, theirs, cutoff, localCut, fanout, depth, a, b, bucket,
                       entryHash, found, done, k);
      }
    }
  }

  /** One key of a round that was not cut short. */
  lemma {:induction false} RoundConverges(l: Store, p: Store, l0: Store, p0: Store, mine: seq<Entry>,
                                          theirs: seq<Entry>, cutoff: int, localCut: nat -> int, f: nat, depth: nat,
                                          a: seq<seq<Hash>>, b: seq<seq<Hash>>, bucket: Bytes -> nat,
                                          eh: Entry -> Hash, found: seq<nat>, done: set<Bytes>, k: Bytes)
    requires Lists(mine, l0) && Lists(theirs, p0) && Settles(l0, p0, k, cutoff, localCut(bucket(k)))
    requires TreeOf(f, depth, a, Settled(mine, cutoff), bucket, eh)
    requires TreeOf(f, depth, b, Settled(theirs, cutoff), bucket, eh) && bucket(k) < Pow(f, depth)
    requires HashesTell(f, depth, a, b, Settled(mine, cutoff), Settled(theirs, cutoff), bucket, eh)
    requires (a[0] == b[0] && found == []) || found == Reaches(f, a, b, depth, 0, Pow(f, depth))
    requires var v, w := Old(l0, localCut, bucket), Old(p0, Throughout(cutoff), bucket);
      && Compared(l, p, l0, p0, v, w, done) && ((k in v || k in w) && bucket(k) in found ==> k in done)
    ensures Converged(l, p, l0, p0, {k})
  {
    hide Precedes, Repaired, Old, Compared, Converged, Leaf, Reaches, Settled, Lists, HashesTell, TreeOf, Pow,
      Throughout;
    var v, w, u := Old(l0, localCut, bucket), Old(p0, Throughout(cutoff), bucket), Old(l0, Throughout(cutoff), bucket);
    OldListed(mine, l0, cutoff, bucket);
    OldListed(theirs, p0, cutoff, bucket);
    QuietBuckets(f, depth, a, b, Settled(mine, cutoff), Settled(theirs, cutoff), u, w, bucket, eh, found, k);
    Steady(cutoff, bucket(k));
    OldShown(l0, localCut, bucket, k);
    OldShown(l0, Throughout(cutoff), bucket, k);
    OldShown(p0, Throughout(cutoff), bucket, k);
    KeyConverges(l, p, l0, p0, v, w, done, k);
  }

  lemma {:induction false} Steady(cutoff: int, b: nat)
    ensures Throughout(cutoff)(b) == cutoff
  {
  }

  /** What a round overwrites: a timestamp falls exactly where a compared key had a copy on this
      side too young for this side's cutoff, and an earlier one on the other, old enough for the
      other's. */
  lemma {:induction false} RoundLowersIff(now: Store, was: Store, other: Store, done: set<Bytes>, bucket: Bytes -> nat,
                                          mineCut: nat -> int, otherCut: nat -> int)
    requires Repaired(now, was, Old(was, mineCut, bucket), Old(other, otherCut, bucket), done)
    ensures NotLowered(was, now) <==>
      forall k :: k in done && k in was && k in other ==>
        || was[k].ts.wall < mineCut(bucket(k)) || other[k].ts.wall >= otherCut(bucket(k))
        || !Precedes(other[k].ts, was[k].ts)
  {
    hide Repaired, NotLowered, Precedes;
    LoweredIff(now, was, Old(was, mineCut, bucket), Old(other, otherCut, bucket), done);
    forall k ensures Hidden(was, Old(was, mineCut, bucket), Old(other, otherCut, bucket), k) <==>
      k in was && k in other && was[k].ts.wall >= mineCut(bucket(k)) && other[k].ts.wall < otherCut(bucket(k))
      && Precedes(other[k].ts, was[k].ts)
    {
    }
  }

  /** The local cutoff is later than the digest's: a key that neither tree holds, written to both
      sides in between, is taken from the local side although the peer has it later. */
  lemma {:induction false} LaterCutoffLowers(now: Store, peer: Store, local: Store, done: set<Bytes>,
                                             bucket: Bytes -> nat, cutoff: int, localCut: nat -> int, k: Bytes)
    requires Repaired(now, peer, Old(peer, Throughout(cutoff), bucket), Old(local, localCut, bucket), done)
    requires k in done && k in peer && k in local && Precedes(local[k].ts, peer[k].ts)
    requires cutoff <= local[k].ts.wall < localCut(bucket(k))
    ensures peer[k].ts.wall >= cutoff && !NotLowered(peer, now)
  {
    hide Repaired, NotLowered, Throughout;
    RoundLowersIff(now, peer, local, done, bucket, Throughout(cutoff), localCut);
    Steady(cutoff, bucket(k));
  }

  lemma {:induction false} RootThere(f: nat, depth: nat, a: seq<seq<Hash>>, b: seq<seq<Hash>>)
    requires Sized(f, depth, a) && Sized(f, depth, b)
    ensures |a| > 0 && |a[0]| == 1 && |b| > 0 && |b[0]| == 1 && (a[0][0] == b[0][0] ==> a[0] == b[0])
  {
    PowZero(f);
  }

  lemma {:induction false} FoundApart(f: nat, depth: nat, a: seq<seq<Hash>>, b: seq<seq<Hash>>, found: seq<nat>)
    requires f >= 1 && depth >= 1 && Sized(f, depth, a) && Sized(f, depth, b)
    requires found == [] || found == Reaches(f, a, b, depth, 0, Pow(f, depth))
    ensures Apart(found) && forall i :: i in found ==> DifferAt(a, b, depth, i)
  {
    hide Reaches, Pow;
    if found != [] { DivergentAreDiffering(f, depth, a, b, found); }
  }
}
