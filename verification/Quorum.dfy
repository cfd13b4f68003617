/**
Quorum writes and reads (cluster/coordinator.go). Every replica asked answers exactly once, in
any order; the coordinator stops listening as soon as the outcome is decided.
*/
module Quorum {
  import opened Optional
  import opened Bytes
  import opened Timestamps

  /** A replica's answer: failure, or what it stores under the key. */
  datatype Answer = Answer(node: Bytes, ok: bool, stored: Option<Timestamp>)

  function Successes(as_: seq<Answer>): nat {
    if as_ == [] then 0 else Successes(as_[..|as_| - 1]) + (if as_[|as_| - 1].ok then 1 else 0)
  }

  lemma {:induction false} SuccessesBound(as_: seq<Answer>, i: nat)
    requires i <= |as_|
    ensures Successes(as_[..i]) <= Successes(as_) <= Successes(as_[..i]) + (|as_| - i)
    ensures Successes(as_[..i]) <= i
    decreases |as_|
  {
    if as_ != [] {
      var n := |as_| - 1;
      if i < |as_| {
        assert as_[..n][..i] == as_[..i];
        SuccessesBound(as_[..n], i);
      } else {
        assert as_[..i] == as_;
        SuccessesBound(as_[..n], n);
        assert as_[..n][..n] == as_[..n];
      }
    }
  }

  /** The nodes whose answers count. */
  function Responders(as_: seq<Answer>): set<Bytes> {
    if as_ == [] then {}
    else Responders(as_[..|as_| - 1]) + (if as_[|as_| - 1].ok then {as_[|as_| - 1].node} else {})
  }

  predicate DistinctNodes(as_: seq<Answer>) {
    forall i, j :: 0 <= i < j < |as_| ==> as_[i].node != as_[j].node
  }

  lemma {:induction false} RespondersAre(as_: seq<Answer>)
    ensures forall x :: x in Responders(as_) ==> exists i :: 0 <= i < |as_| && as_[i].ok && as_[i].node == x
  {
    if as_ != [] {
      var n := |as_| - 1;
      RespondersAre(as_[..n]);
      forall x | x in Responders(as_) ensures exists i :: 0 <= i < |as_| && as_[i].ok && as_[i].node == x {
        if x in Responders(as_[..n]) {
          var i :| 0 <= i < n && as_[..n][i].ok && as_[..n][i].node == x;
          assert as_[i].ok && as_[i].node == x;
        } else {
          assert as_[n].ok && as_[n].node == x;
        }
      }
    }
  }

  lemma {:induction false} RespondersCount(as_: seq<Answer>)
    requires DistinctNodes(as_)
    ensures |Responders(as_)| == Successes(as_)
  {
    if as_ != [] {
      var n := |as_| - 1;
      RespondersCount(as_[..n]);
      RespondersAre(as_[..n]);
      assert as_[n].node !in Responders(as_[..n]);
    }
  }

  // ----- collecting -----

  /** The replicas that are joining, or those that are not, in order. */
  function Where(replicas: seq<Bytes>, joining: Bytes -> bool, want: bool): seq<Bytes> {
    if replicas == [] then []
    else
      var k := |replicas| - 1;
      Where(replicas[..k], joining, want) + (if joining(replicas[k]) == want then [replicas[k]] else [])
  }

  /** Every replica counts as a voter or as a learner, never as both. */
  lemma {:induction false} WhereSplits(replicas: seq<Bytes>, joining: Bytes -> bool)
    ensures var voters, learners := Where(replicas, joining, false), Where(replicas, joining, true);
      && |voters| + |learners| == |replicas|
      && (forall r :: r in voters <==> r in replicas && !joining(r))
      && (forall r :: r in learners <==> r in replicas && joining(r))
  {
    if replicas != [] {
      var k := |replicas| - 1;
      assert replicas == replicas[..k] + [replicas[k]];
      WhereSplits(replicas[..k], joining);
    }
  }

  /** Voters are the replicas not joining. */
  method SplitReplicas(replicas: seq<Bytes>, joining: Bytes -> bool) returns (voters: seq<Bytes>, learners: seq<Bytes>)
    ensures voters == Where(replicas, joining, false) && learners == Where(replicas, joining, true)
  {
    voters, learners := [], [];
    for i := 0 to |replicas|
      invariant voters == Where(replicas[..i], joining, false) && learners == Where(replicas[..i], joining, true)
    {
      assert replicas[..i + 1][..i] == replicas[..i];
      if joining(replicas[i]) {
        learners := learners + [replicas[i]];
      } else {
        voters := voters + [replicas[i]];
      }
    }
    assert replicas[..|replicas|] == replicas;
  }

  /** Listens until need successes are in or can no longer be reached. It never waits for an
      answer nobody will send, and the outcome does not depend on the order of arrival. */
  method Collect(arrivals: seq<Answer>, need: int)
    returns (enough: bool, received: seq<Answer>, heard: nat, remaining: int)
    requires |arrivals| >= need
    ensures enough <==> Successes(arrivals) >= need
    ensures heard <= |arrivals| && received == Good(arrivals[..heard]) && |received| == Successes(arrivals[..heard])
    ensures enough && need >= 0 ==> |received| == need
    ensures remaining == |arrivals| - heard
  {
    hide Good, Successes;
    var maxFailures := |arrivals| - need + 1;
    var failures := 0;
    received, heard := [], 0;
    assert Good(arrivals[..0]) == [] && Successes(arrivals[..0]) == 0 by { NoAnswers(arrivals[..0]); }
    while |received| < need && failures < maxFailures
      invariant 0 <= heard <= |arrivals| && heard == |received| + failures && failures <= maxFailures
      invariant received == Good(arrivals[..heard]) && |received| == Successes(arrivals[..heard])
      invariant need >= 0 ==> |received| <= need
      decreases |arrivals| - heard
    {
      SuccessesBound(arrivals, heard);
      var a := arrivals[heard];
      assert arrivals[..heard + 1] == arrivals[..heard] + [a];
      OneMore(arrivals[..heard], a);
      if a.ok {
        received := received + [a];
      } else {
        failures := failures + 1;
      }
      heard := heard + 1;
    }
    SuccessesBound(arrivals, heard);
    enough := |received| >= need;
    remaining := |arrivals| - |received| - failures;
  }

  lemma {:induction false} NoAnswers(as_: seq<Answer>)
    requires as_ == []
    ensures Good(as_) == [] && Successes(as_) == 0
  {
  }

  lemma {:induction false} OneMore(as_: seq<Answer>, a: Answer)
    ensures Good(as_ + [a]) == Good(as_) + (if a.ok then [a] else [])
    ensures Successes(as_ + [a]) == Successes(as_) + (if a.ok then 1 else 0)
  {
    assert (as_ + [a])[..|as_|] == as_;
  }

  function Good(as_: seq<Answer>): seq<Answer> {
    if as_ == [] then [] else Good(as_[..|as_| - 1]) + (if as_[|as_| - 1].ok then [as_[|as_| - 1]] else [])
  }

  /** The newest of the answers that found the key. */
  method Newest(as_: seq<Answer>) returns (newest: Option<Timestamp>)
    ensures newest.None? <==> forall i :: 0 <= i < |as_| ==> as_[i].stored.None?
    ensures newest.Some? ==> exists i :: 0 <= i < |as_| && as_[i].stored == newest
    ensures newest.Some? ==>
      forall i :: 0 <= i < |as_| && as_[i].stored.Some? ==> !Precedes(newest.value, as_[i].stored.value)
  {
    hide Precedes;
    newest := None;
    for i := 0 to |as_|
      invariant newest.None? <==> forall j :: 0 <= j < i ==> as_[j].stored.None?
      invariant newest.Some? ==> exists j :: 0 <= j < i && as_[j].stored == newest
      invariant newest.Some? ==>
        forall j :: 0 <= j < i && as_[j].stored.Some? ==> !Precedes(newest.value, as_[j].stored.value)
    {
      if as_[i].stored.Some? {
        var ts := as_[i].stored.value;
        PrecedesTotal(ts, ts);
        if newest.None? {
          newest := Some(ts);
        } else if Precedes(newest.value, ts) {
          forall j | 0 <= j < i && as_[j].stored.Some? ensures !Precedes(ts, as_[j].stored.value) {
            NotPrecedesTransitive(ts, newest.value, as_[j].stored.value);
          }
          newest := Some(ts);
        }
      }
    }
  }

  lemma {:induction false} NotPrecedesTransitive(a: Timestamp, b: Timestamp, c: Timestamp)
    requires Precedes(b, a) && !Precedes(b, c)
    ensures !Precedes(a, c)
  {
    hide Precedes;
    PrecedesTotal(b, c);
    if Precedes(a, c) { PrecedesTransitive(b, a, c); }
  }

  datatype Outcome = NotEnoughReplicas | QuorumNotMet | Done(newest: Option<Timestamp>)

  /** A write asks every voter, and succeeds exactly if enough of them store the value. */
  method Write(acks: seq<Answer>, w: int) returns (o: Outcome)
    ensures o == if |acks| < w then NotEnoughReplicas else if Successes(acks) < w then QuorumNotMet else Done(None)
  {
    hide Successes, Good;
    if |acks| < w {
      return NotEnoughReplicas;
    }
    var enough, _, _, _ := Collect(acks, w);
    return if enough then Done(None) else QuorumNotMet;
  }

  /** A read succeeds exactly if enough replicas answer, and returns the newest of the first ones. */
  method Read(arrivals: seq<Answer>, r: nat) returns (o: Outcome, received: seq<Answer>)
    ensures if Successes(arrivals) >= r then o.Done? else o == QuorumNotMet
    ensures o.Done? ==>
      && |received| == r && (exists heard :: 0 <= heard <= |arrivals| && received == Good(arrivals[..heard]))
      && (o.newest.None? <==> forall i :: 0 <= i < r ==> received[i].stored.None?)
      && (o.newest.Some? ==> exists i :: 0 <= i < r && received[i].stored == o.newest)
      && (o.newest.Some? ==>
            forall i :: 0 <= i < r && received[i].stored.Some? ==> !Precedes(o.newest.value, received[i].stored.value))
  {
    hide Successes, Good, Precedes;
    SuccessesBound(arrivals, |arrivals|);
    assert arrivals[..|arrivals|] == arrivals;
    if |arrivals| < r {
      return QuorumNotMet, [];
    }
    var enough, heard, remaining;
    enough, received, heard, remaining := Collect(arrivals, r);
    if !enough {
      return QuorumNotMet, received;
    }
    var newest := Newest(received);
    return Done(newest), received;
  }

  // ----- reading your writes -----

  /** A write arriving at a replica, which stores it without looking at what it had. */
  datatype Delivery = Delivery(node: Bytes, ts: Timestamp)

  /** What the replicas store under the key once the writes have arrived in this order. */
  function Stores(ds: seq<Delivery>): map<Bytes, Timestamp> {
    if ds == [] then map[] else Stores(ds[..|ds| - 1])[ds[|ds| - 1].node := ds[|ds| - 1].ts]
  }

  /** The replica has nothing, or something older. */
  predicate Stale(ds: seq<Delivery>, x: Bytes, ts: Timestamp) {
    x !in Stores(ds) || Precedes(Stores(ds)[x], ts)
  }

  /** An answer says what its replica stored at some moment from began on. */
  ghost predicate Seen(ds: seq<Delivery>, a: Answer, began: nat) {
    exists t :: began <= t <= |ds| && a.stored == Looked(ds[..t], a.node)
  }

  function Looked(ds: seq<Delivery>, x: Bytes): Option<Timestamp> {
    if x in Stores(ds) then Some(Stores(ds)[x]) else None
  }

  /** Answers of different voters to a read that began at that moment. */
  ghost predicate Answered(ds: seq<Delivery>, voters: set<Bytes>, as_: seq<Answer>, began: nat) {
    DistinctNodes(as_) && forall i :: 0 <= i < |as_| ==> as_[i].ok && as_[i].node in voters && Seen(ds, as_[i], began)
  }

  /** One of the answers is at least as new as ts. */
  predicate Fresh(as_: seq<Answer>, ts: Timestamp) {
    exists i :: 0 <= i < |as_| && as_[i].stored.Some? && !Precedes(as_[i].stored.value, ts)
  }

  /** The voters that are stale at some moment from began on. */
  ghost function Lagging(ds: seq<Delivery>, voters: set<Bytes>, ts: Timestamp, began: nat): set<Bytes> {
    set x | x in voters && LagsFrom(ds, x, ts, began)
  }

  ghost predicate LagsFrom(ds: seq<Delivery>, x: Bytes, ts: Timestamp, began: nat) {
    exists t :: began <= t <= |ds| && Stale(ds[..t], x, ts)
  }

  /** Every read by r voters is at least as new as ts. */
  ghost predicate AlwaysFresh(ds: seq<Delivery>, voters: set<Bytes>, ts: Timestamp, began: nat, r: nat) {
    forall as_ :: Answered(ds, voters, as_, began) && |as_| >= r ==> Fresh(as_, ts)
  }

  /** Every r voters include one at least as new as ts exactly if fewer than r of them lag. */
  lemma {:induction false} AlwaysFreshIff(ds: seq<Delivery>, voters: set<Bytes>, ts: Timestamp, began: nat, r: nat)
    ensures AlwaysFresh(ds, voters, ts, began, r) <==> |Lagging(ds, voters, ts, began)| < r
  {
    hide Answered, Fresh, LagsFrom;
    var lagging := Lagging(ds, voters, ts, began);
    if |lagging| < r {
      forall as_ | Answered(ds, voters, as_, began) && |as_| >= r ensures Fresh(as_, ts) {
        if !Fresh(as_, ts) { StaleAnswersLag(ds, voters, as_, ts, began); }
      }
    } else {
      var as_ := LaggingAnswers(ds, voters, lagging, ts, began);
    }
  }

  /** Answers none of which is fresh come from as many voters that lag. */
  lemma {:induction false} StaleAnswersLag(ds: seq<Delivery>, voters: set<Bytes>, as_: seq<Answer>, ts: Timestamp,
                                           began: nat)
    requires Answered(ds, voters, as_, began) && !Fresh(as_, ts)
    ensures |as_| <= |Lagging(ds, voters, ts, began)|
  {
    hide Precedes, Stores;
    AllSucceed(as_);
    RespondersCount(as_);
    RespondersAre(as_);
    forall x | x in Responders(as_) ensures x in Lagging(ds, voters, ts, began) {
      var i :| 0 <= i < |as_| && as_[i].ok && as_[i].node == x;
      assert Seen(ds, as_[i], began);
      var t :| began <= t <= |ds| && as_[i].stored == Looked(ds[..t], x);
      assert Stale(ds[..t], x, ts);
    }
    SubsetSize(Responders(as_), Lagging(ds, voters, ts, began));
  }

  /** Voters that lag can all give stale answers to the same read. */
  lemma {:induction false} LaggingAnswers(ds: seq<Delivery>, voters: set<Bytes>, xs: set<Bytes>, ts: Timestamp,
                                          began: nat)
    returns (as_: seq<Answer>)
    requires xs <= Lagging(ds, voters, ts, began)
    ensures Answered(ds, voters, as_, began) && |as_| == |xs| && !Fresh(as_, ts)
    ensures forall i :: 0 <= i < |as_| ==> as_[i].node in xs
    decreases |xs|
  {
    hide Precedes, Stores;
    as_ := [];
    if xs != {} {
      var x :| x in xs;
      var rest := LaggingAnswers(ds, voters, xs - {x}, ts, began);
      assert x in Lagging(ds, voters, ts, began);
      var t :| began <= t <= |ds| && Stale(ds[..t], x, ts);
      var a := Answer(x, true, Looked(ds[..t], x));
      assert Seen(ds, a, began);
      as_ := rest + [a];
    }
  }

  // ----- which deliveries leave a voter behind -----

  /** ts has arrived at the replica before moment n. */
  ghost predicate Reached(ds: seq<Delivery>, x: Bytes, ts: Timestamp, n: nat) {
    exists i :: 0 <= i < n && i < |ds| && ds[i] == Delivery(x, ts)
  }

  /** Nothing older than ts arrives at the replica at or after moment n. */
  ghost predicate Undisturbed(ds: seq<Delivery>, x: Bytes, ts: Timestamp, n: nat) {
    forall j :: n <= j < |ds| && ds[j].node == x ==> !Precedes(ds[j].ts, ts)
  }

  lemma {:induction false} StoresNext(ds: seq<Delivery>, t: nat)
    requires t < |ds|
    ensures Stores(ds[..t + 1]) == Stores(ds[..t])[ds[t].node := ds[t].ts]
  {
    assert ds[..t + 1][..t] == ds[..t];
  }

  /** A replica that is up to date at a moment lags from it on exactly if something older arrives
      later. */
  lemma {:induction false} LagsIff(ds: seq<Delivery>, x: Bytes, ts: Timestamp, began: nat)
    requires began <= |ds| && !Stale(ds[..began], x, ts)
    ensures LagsFrom(ds, x, ts, began) <==> !Undisturbed(ds, x, ts, began)
  {
    hide Precedes, Stores;
    if !Undisturbed(ds, x, ts, began) {
      var j :| began <= j < |ds| && ds[j].node == x && Precedes(ds[j].ts, ts);
      StoresNext(ds, j);
      assert Stale(ds[..j + 1], x, ts);
    } else {
      forall t | began <= t <= |ds| ensures !Stale(ds[..t], x, ts) { StaysFresh(ds, x, ts, began, t); }
    }
  }

  lemma {:induction false} StaysFresh(ds: seq<Delivery>, x: Bytes, ts: Timestamp, began: nat, t: nat)
    requires began <= t <= |ds| && !Stale(ds[..began], x, ts) && Undisturbed(ds, x, ts, began)
    ensures !Stale(ds[..t], x, ts)
    decreases t
  {
    hide Precedes, Stores;
    if t > began {
      StaysFresh(ds, x, ts, began, t - 1);
      StoresNext(ds, t - 1);
    }
  }

  /** A replica that ts has reached, and nothing older since, is up to date. */
  lemma {:induction false} ReachedFresh(ds: seq<Delivery>, x: Bytes, ts: Timestamp, i: nat, began: nat)
    requires i < began <= |ds| && ds[i] == Delivery(x, ts) && Undisturbed(ds, x, ts, i)
    ensures !LagsFrom(ds, x, ts, began)
  {
    hide Precedes, Stores;
    PrecedesTotal(ts, ts);
    StoresNext(ds, i);
    assert !Stale(ds[..i + 1], x, ts);
    StaysFresh(ds, x, ts, i + 1, began);
    LagsIff(ds, x, ts, began);
  }

  lemma {:induction false} DisjointUnion(a: set<Bytes>, b: set<Bytes>)
    requires a * b == {}
    ensures |a + b| == |a| + |b|
  {
  }

  lemma {:induction false} SubsetSize(a: set<Bytes>, b: set<Bytes>)
    requires a <= b
    ensures |a| <= |b|
  {
    assert b == a + (b - a) && a * (b - a) == {};
    DisjointUnion(a, b - a);
  }

  /** ts has arrived at the replica before the read began, and nothing older at it since. */
  ghost predicate Holds(ds: seq<Delivery>, x: Bytes, ts: Timestamp, began: nat) {
    exists i :: 0 <= i < began && i < |ds| && ds[i] == Delivery(x, ts) && Undisturbed(ds, x, ts, i)
  }

  /** Overlapping quorums: if w voters hold ts, every read by r of them is at least as new. */
  lemma {:induction false} QuorumsOverlap(ds: seq<Delivery>, voters: set<Bytes>, acked: set<Bytes>, w: nat, r: nat,
                                          ts: Timestamp, began: nat)
    requires acked <= voters && |acked| >= w && r + w > |voters| && began <= |ds|
    requires forall x :: x in acked ==> Holds(ds, x, ts, began)
    ensures AlwaysFresh(ds, voters, ts, began, r)
  {
    hide LagsFrom, AlwaysFresh, Undisturbed;
    var lagging := Lagging(ds, voters, ts, began);
    forall x | x in acked ensures x !in lagging {
      var i :| 0 <= i < began && i < |ds| && ds[i] == Delivery(x, ts) && Undisturbed(ds, x, ts, i);
      ReachedFresh(ds, x, ts, i, began);
    }
    assert lagging <= voters - acked;
    SubsetSize(lagging, voters - acked);
    assert voters == acked + (voters - acked) && acked * (voters - acked) == {};
    DisjointUnion(acked, voters - acked);
    AlwaysFreshIff(ds, voters, ts, began, r);
  }

  /** Whatever the order in which the answers to a write and to a later read arrive: if both
      reach their quorums, and nothing older reaches the replicas that acknowledged the write
      after it did, the read returns a timestamp at least as new as the write's. */
  lemma {:induction false} WriteThenRead(ds: seq<Delivery>, voters: set<Bytes>, w: nat, r: nat, ts: Timestamp,
                                         began: nat, acks: seq<Answer>, received: seq<Answer>,
                                         newest: Option<Timestamp>)
    requires r + w > |voters| && began <= |ds| && Successes(acks) >= w && DistinctNodes(acks)
    requires forall i :: 0 <= i < |acks| ==>
      acks[i].node in voters && (acks[i].ok ==> Holds(ds, acks[i].node, ts, began))
    requires Answered(ds, voters, received, began) && |received| >= r
    requires newest.None? <==> forall i :: 0 <= i < |received| ==> received[i].stored.None?
    requires newest.Some? ==>
      forall i :: 0 <= i < |received| && received[i].stored.Some? ==> !Precedes(newest.value, received[i].stored.value)
    ensures newest.Some? && !Precedes(newest.value, ts)
  {
    hide Precedes, Holds, Answered;
    RespondersCount(acks);
    RespondersAre(acks);
    QuorumsOverlap(ds, voters, Responders(acks), w, r, ts, began);
    var i :| 0 <= i < |received| && received[i].stored.Some? && !Precedes(received[i].stored.value, ts);
    NewestNotBefore(newest.value, received[i].stored.value, ts);
  }

  lemma {:induction false} NewestNotBefore(newest: Timestamp, seen: Timestamp, ts: Timestamp)
    requires !Precedes(newest, seen) && !Precedes(seen, ts)
    ensures !Precedes(newest, ts)
  {
    hide Precedes;
    PrecedesTotal(newest, seen);
    PrecedesTotal(seen, ts);
    if Precedes(newest, ts) && Precedes(seen, newest) { PrecedesTransitive(seen, newest, ts); }
  }

  lemma {:induction false} AllSucceed(as_: seq<Answer>)
    requires forall i :: 0 <= i < |as_| ==> as_[i].ok
    ensures Successes(as_) == |as_|
  {
    if as_ != [] { AllSucceed(as_[..|as_| - 1]); }
  }

  // ----- two writes that arrive in the wrong order -----

  /** The write arriving at one replica after the other. */
  function ToAll(xs: seq<Bytes>, ts: Timestamp): (ds: seq<Delivery>)
    ensures |ds| == |xs| && forall i :: 0 <= i < |xs| ==> ds[i] == Delivery(xs[i], ts)
  {
    seq(|xs|, i requires 0 <= i < |xs| => Delivery(xs[i], ts))
  }

  lemma {:induction false} StoredLast(ds: seq<Delivery>, xs: seq<Bytes>, ts: Timestamp, x: Bytes)
    requires x in xs
    ensures var all := Stores(ds + ToAll(xs, ts)); x in all && all[x] == ts
    decreases |xs|
  {
    var n := |xs| - 1;
    var all := ds + ToAll(xs, ts);
    assert all[..|all| - 1] == ds + ToAll(xs[..n], ts) && all[|all| - 1] == Delivery(xs[n], ts);
    if x != xs[n] { StoredLast(ds, xs[..n], ts, x); }
  }

  /** The newer write reaches every voter and succeeds with any quorum; then the older one, sent
      before, arrives. From then on every read is stale, however many voters answer it. */
  lemma {:induction false} BlindWriteIsStale(xs: seq<Bytes>, older: Timestamp, newer: Timestamp, as_: seq<Answer>)
    requires Precedes(older, newer)
    requires var ds := ToAll(xs, newer) + ToAll(xs, older); Answered(ds, (set x | x in xs), as_, |ds|)
    ensures var ds := ToAll(xs, newer) + ToAll(xs, older);
      && (forall x :: x in xs ==> Reached(ds, x, newer, |xs|) && !Stale(ds[..|xs|], x, newer))
      && !Fresh(as_, newer) && (forall i :: 0 <= i < |as_| ==> as_[i].stored == Some(older))
  {
    hide Precedes, Stores, ToAll, Stale, Seen;
    var ds := ToAll(xs, newer) + ToAll(xs, older);
    forall x | x in xs ensures Reached(ds, x, newer, |xs|) && !Stale(ds[..|xs|], x, newer) {
      FirstReached(xs, older, newer, x);
    }
    forall i | 0 <= i < |as_| ensures as_[i].stored == Some(older) { LastAnswer(xs, older, newer, as_[i]); }
  }

  lemma {:induction false} FirstReached(xs: seq<Bytes>, older: Timestamp, newer: Timestamp, x: Bytes)
    requires x in xs
    ensures var ds := ToAll(xs, newer) + ToAll(xs, older); Reached(ds, x, newer, |xs|) && !Stale(ds[..|xs|], x, newer)
  {
    hide Precedes, Stores, ToAll;
    var ds := ToAll(xs, newer) + ToAll(xs, older);
    assert ds[..|xs|] == [] + ToAll(xs, newer);
    PrecedesTotal(newer, newer);
    StoredLast([], xs, newer, x);
    var i :| 0 <= i < |xs| && xs[i] == x;
    assert ds[i] == Delivery(x, newer);
  }

  lemma {:induction false} LastAnswer(xs: seq<Bytes>, older: Timestamp, newer: Timestamp, a: Answer)
    requires a.node in xs
    requires var ds := ToAll(xs, newer) + ToAll(xs, older); Seen(ds, a, |ds|)
    ensures a.stored == Some(older)
  {
    hide Stores, ToAll;
    var ds := ToAll(xs, newer) + ToAll(xs, older);
    var t :| |ds| <= t <= |ds| && a.stored == Looked(ds[..t], a.node);
    assert ds[..t] == ds;
    StoredLast(ToAll(xs, newer), xs, older, a.node);
  }
}
