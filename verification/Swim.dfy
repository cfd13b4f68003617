/**
SWIM membership (cluster/membership.go, swim.go, gossip.go) as an object whose every step,
taken under its lock, keeps an invariant: the node itself stays a live member, dead members
are exactly those waiting to be reaped, a suspect timer runs only for a suspect, and ring
states come from the ring descriptor, whose version never falls. Times are arguments; random
orders are arbitrary.
*/
module Swim {
  import opened Optional
  import opened Bytes
  import opened SwimMerge

  const DEFAULT_MAX_BROADCASTS: nat := 128

  datatype Broadcast = Broadcast(state: Member, retransmits: int)

  datatype Event = Event(id: Bytes, from: Liveness, to: Liveness)

  // ----- the retransmit buffer -----

  /** The smallest k with 2^k >= n. */
  function CeilLog2(n: nat): nat {
    if n <= 1 then 0 else 1 + CeilLog2((n + 1) / 2)
  }

  lemma {:induction false} CeilLog2Least(n: nat)
    ensures n <= Pow2(CeilLog2(n))
    ensures n >= 2 ==> CeilLog2(n) >= 1 && Pow2(CeilLog2(n) - 1) < n
  {
    if n > 1 { CeilLog2Least((n + 1) / 2); }
  }

  lemma {:induction false} CeilLog2Is(n: nat, k: nat)
    requires k >= 1 && Pow2(k - 1) < n <= Pow2(k)
    ensures n >= 2 && CeilLog2(n) == k
  {
    Pow2Grows(0, k - 1);
    CeilLog2Least(n);
    if CeilLog2(n) < k { Pow2Grows(CeilLog2(n), k - 1); }
    if CeilLog2(n) > k { Pow2Grows(k, CeilLog2(n) - 1); }
  }

  lemma {:induction false} Pow2Grows(j: nat, k: nat)
    requires j <= k
    ensures Pow2(j) <= Pow2(k)
  {
    if j < k { Pow2Grows(j, k - 1); }
  }

  predicate FreshestFirst(bs: seq<Broadcast>) {
    forall i, j :: 0 <= i < j < |bs| ==> bs[i].retransmits >= bs[j].retransmits
  }

  /** What sort.Slice promises: ties fall in any order. */
  ghost predicate Sorting(bs: seq<Broadcast>, r: seq<Broadcast>) {
    multiset(r) == multiset(bs) && FreshestFirst(r)
  }

  lemma {:induction false} InsertCounts(r: seq<Broadcast>, k: nat, b: Broadcast)
    requires k <= |r|
    ensures multiset(r[..k] + [b] + r[k..]) == multiset(r) + multiset{b}
  {
    assert r == r[..k] + r[k..];
  }

  lemma {:induction false} InsertOrders(r: seq<Broadcast>, k: nat, b: Broadcast)
    requires k <= |r| && FreshestFirst(r)
    requires (k > 0 ==> r[k - 1].retransmits >= b.retransmits) && (k < |r| ==> r[k].retransmits <= b.retransmits)
    ensures FreshestFirst(r[..k] + [b] + r[k..])
  {
    var s := r[..k] + [b] + r[k..];
    forall i, j | 0 <= i < j < |s| ensures s[i].retransmits >= s[j].retransmits {
      assert i < k ==> s[i] == r[i];
      assert j > k ==> s[j] == r[j - 1];
    }
  }

  method SortFresh(bs: seq<Broadcast>) returns (r: seq<Broadcast>)
    ensures Sorting(bs, r) && |r| == |bs|
  {
    hide FreshestFirst;
    r := [];
    NoneOrders(r);
    var i := 0;
    while i < |bs|
      invariant 0 <= i <= |bs| && |r| == i && multiset(r) == multiset(bs[..i]) && FreshestFirst(r)
    {
      var k := i;
      while k > 0 && r[k - 1].retransmits < bs[i].retransmits
        invariant 0 <= k <= i && (k < i ==> r[k].retransmits <= bs[i].retransmits)
      {
        k := k - 1;
      }
      assert bs[..i + 1] == bs[..i] + [bs[i]];
      InsertCounts(r, k, bs[i]);
      InsertOrders(r, k, bs[i]);
      r := r[..k] + [bs[i]] + r[k..];
      i := i + 1;
    }
    assert bs[..|bs|] == bs;
  }

  lemma {:induction false} NoneOrders(bs: seq<Broadcast>)
    requires bs == []
    ensures FreshestFirst(bs)
  {
  }

  /** All transmissions still to be made. */
  function Pending(bs: seq<Broadcast>): int {
    if bs == [] then 0 else Pending(bs[..|bs| - 1]) + bs[|bs| - 1].retransmits
  }

  predicate Positive(bs: seq<Broadcast>) {
    forall i :: 0 <= i < |bs| ==> bs[i].retransmits >= 1
  }

  lemma {:induction false} PendingAppend(bs: seq<Broadcast>, b: Broadcast)
    ensures Pending(bs + [b]) == Pending(bs) + b.retransmits
  {
    assert (bs + [b])[..|bs|] == bs;
  }

  lemma {:induction false} PendingNone(bs: seq<Broadcast>)
    requires bs == []
    ensures Pending(bs) == 0
  {
  }

  lemma {:induction false} PendingRemove(bs: seq<Broadcast>, j: nat)
    requires j < |bs|
    ensures Pending(bs) == Pending(bs[..j] + bs[j + 1..]) + bs[j].retransmits
  {
    hide Pending;
    var a, b := bs[..j], bs[j + 1..];
    assert bs == (a + [bs[j]]) + b;
    PendingConcat(a + [bs[j]], b);
    PendingConcat(a, b);
    PendingAppend(a, bs[j]);
  }

  lemma {:induction false} PendingConcat(a: seq<Broadcast>, b: seq<Broadcast>)
    ensures Pending(a + b) == Pending(a) + Pending(b)
    decreases |b|
  {
    hide Pending;
    if b == [] {
      assert a + b == a;
      PendingNone(b);
    } else {
      var n := |b| - 1;
      assert a + b == (a + b[..n]) + [b[n]] && b == b[..n] + [b[n]];
      PendingAppend(a + b[..n], b[n]);
      PendingAppend(b[..n], b[n]);
      PendingConcat(a, b[..n]);
    }
  }

  /** What is pending does not depend on the order. */
  lemma {:induction false} PendingSame(bs: seq<Broadcast>, r: seq<Broadcast>)
    requires multiset(bs) == multiset(r)
    ensures Pending(bs) == Pending(r)
    decreases |r|
  {
    hide Pending;
    assert |multiset(bs)| == |multiset(r)|;
    if r == [] {
      PendingNone(bs);
      PendingNone(r);
    } else {
      var n := |r| - 1;
      assert r[n] in multiset(r);
      assert r[n] in multiset(bs);
      var j :| 0 <= j < |bs| && bs[j] == r[n];
      PendingRemove(bs, j);
      PendingRemove(r, n);
      RemoveCounts(bs, j);
      RemoveCounts(r, n);
      assert r[..n] + r[n + 1..] == r[..n];
      PendingSame(bs[..j] + bs[j + 1..], r[..n]);
    }
  }

  lemma {:induction false} RemoveCounts(bs: seq<Broadcast>, j: nat)
    requires j < |bs|
    ensures multiset(bs[..j] + bs[j + 1..]) == multiset(bs) - multiset{bs[j]}
  {
    assert bs == bs[..j] + [bs[j]] + bs[j + 1..];
  }

  /** The first n of a sorted buffer once the first k of it have been sent once more: an update
      with no transmission left is dropped. */
  function Leftover(sorted: seq<Broadcast>, k: nat, n: nat): seq<Broadcast>
    requires n <= |sorted|
  {
    if n == 0 then []
    else
      var b := sorted[n - 1];
      var c := if n - 1 < k then b.(retransmits := b.retransmits - 1) else b;
      Leftover(sorted, k, n - 1) + if c.retransmits > 0 then [c] else []
  }

  /** Takes up to limit updates, freshest first. Every update taken costs one transmission and
      nothing else is lost: what is pending falls by exactly the number taken. */
  method TakeBroadcasts(bs: seq<Broadcast>, limit: nat)
    returns (taken: seq<Member>, rest: seq<Broadcast>, ghost sorted: seq<Broadcast>)
    ensures |sorted| == |bs| && Sorting(bs, sorted) && |taken| == if limit < |bs| then limit else |bs|
    ensures forall i :: 0 <= i < |taken| ==> taken[i] == sorted[i].state
    ensures rest == Leftover(sorted, |taken|, |sorted|) && Positive(rest) && |rest| <= |bs|
    ensures forall b :: b in rest <==> b.retransmits > 0 && Spared(sorted, |taken|, |sorted|, b)
    ensures Positive(bs) ==> Pending(rest) == Pending(bs) - |taken|
  {
    hide Pending, Sorting, Leftover;
    var order := SortFresh(bs);
    sorted := order;
    taken, rest := [], [];
    ghost var k := if limit < |bs| then limit else |bs|;
    LeftoverNone(sorted, k);
    var i := 0;
    while i < |order|
      invariant 0 <= i <= |order| && |taken| == (if limit < i then limit else i)
      invariant forall j :: 0 <= j < |taken| ==> taken[j] == sorted[j].state
      invariant rest == Leftover(sorted, k, i)
    {
      var b := order[i];
      LeftoverNext(sorted, k, i);
      if |taken| < limit {
        taken := taken + [b.state];
        b := b.(retransmits := b.retransmits - 1);
      }
      if b.retransmits > 0 {
        rest := rest + [b];
      }
      i := i + 1;
    }
    SortedSame(bs, sorted);
    LeftoverPending(sorted, k, |sorted|);
    LeftoverIs(sorted, k, |sorted|);
    assert sorted[..|sorted|] == sorted;
  }

  /** Among the first k of a buffer with a transmission more, or among the others up to n. */
  ghost predicate Spared(sorted: seq<Broadcast>, k: nat, n: nat, b: Broadcast)
    requires n <= |sorted|
  {
    || (exists i :: 0 <= i < k && i < n && sorted[i] == Broadcast(b.state, b.retransmits + 1))
    || (exists i :: k <= i < n && sorted[i] == b)
  }

  lemma {:induction false} LeftoverIs(sorted: seq<Broadcast>, k: nat, n: nat)
    requires n <= |sorted|
    ensures forall b :: b in Leftover(sorted, k, n) <==> b.retransmits > 0 && Spared(sorted, k, n, b)
    decreases n
  {
    hide Leftover;
    if n == 0 {
      LeftoverNone(sorted, k);
    } else {
      LeftoverIs(sorted, k, n - 1);
      LeftoverNext(sorted, k, n - 1);
      forall b ensures b in Leftover(sorted, k, n) <==> b.retransmits > 0 && Spared(sorted, k, n, b) {
        SparedNext(sorted, k, n - 1, b);
      }
    }
  }

  lemma {:induction false} SparedNext(sorted: seq<Broadcast>, k: nat, i: nat, b: Broadcast)
    requires i < |sorted|
    ensures Spared(sorted, k, i + 1, b) <==>
      || Spared(sorted, k, i, b)
      || sorted[i] == if i < k then Broadcast(b.state, b.retransmits + 1) else b
  {
  }

  lemma {:induction false} LeftoverNone(sorted: seq<Broadcast>, k: nat)
    ensures Leftover(sorted, k, 0) == []
  {
  }

  lemma {:induction false} LeftoverNext(sorted: seq<Broadcast>, k: nat, i: nat)
    requires i < |sorted|
    ensures var b := sorted[i];
      var c := if i < k then b.(retransmits := b.retransmits - 1) else b;
      Leftover(sorted, k, i + 1) == if c.retransmits > 0 then Leftover(sorted, k, i) + [c] else Leftover(sorted, k, i)
  {
    assert Leftover(sorted, k, i) + [] == Leftover(sorted, k, i);
  }

  /** What was taken is all that is gone. */
  lemma {:induction false} LeftoverPending(sorted: seq<Broadcast>, k: nat, n: nat)
    requires n <= |sorted|
    ensures Positive(Leftover(sorted, k, n)) && |Leftover(sorted, k, n)| <= n
    ensures Positive(sorted) ==> Pending(Leftover(sorted, k, n)) == Pending(sorted[..n]) - (if k < n then k else n)
    decreases n
  {
    hide Pending, Leftover;
    if n == 0 {
      LeftoverNone(sorted, k);
      PendingNone(sorted[..0]);
      PendingNone(Leftover(sorted, k, 0));
    } else {
      var i := n - 1;
      var b := sorted[i];
      LeftoverPending(sorted, k, i);
      LeftoverNext(sorted, k, i);
      assert sorted[..n] == sorted[..i] + [b];
      PendingAppend(sorted[..i], b);
      PendingAppend(Leftover(sorted, k, i), if i < k then b.(retransmits := b.retransmits - 1) else b);
    }
  }

  lemma {:induction false} SortedSame(bs: seq<Broadcast>, r: seq<Broadcast>)
    requires Sorting(bs, r)
    ensures Pending(r) == Pending(bs) && (Positive(bs) ==> Positive(r))
  {
    hide Pending;
    PendingSame(bs, r);
    forall i | 0 <= i < |r| && Positive(bs) ensures r[i].retransmits >= 1 {
      assert r[i] in multiset(r);
      var j :| 0 <= j < |bs| && bs[j] == r[i];
    }
  }

  // ----- the membership table -----

  /** The buffer r is bs with one more update; overflowing, it is cut down to the freshest. */
  ghost predicate Enqueued(bs: seq<Broadcast>, b: Broadcast, limit: nat, r: seq<Broadcast>) {
    if |bs| < limit then r == bs + [b]
    else exists sorted :: |sorted| > limit && Sorting(bs + [b], sorted) && r == sorted[..limit]
  }

  /** Nothing is made up, no more is dropped than must be, and whatever is dropped is no
      fresher than anything kept. */
  lemma {:induction false} DropsLeastFresh(bs: seq<Broadcast>, b: Broadcast, limit: nat, r: seq<Broadcast>)
    requires Enqueued(bs, b, limit, r)
    ensures multiset(r) <= multiset(bs + [b]) && |r| == if |bs| < limit then |bs| + 1 else limit
    ensures forall kept, dropped :: kept in r && dropped in multiset(bs + [b]) - multiset(r) ==>
      dropped.retransmits <= kept.retransmits
  {
    hide FreshestFirst;
    if |bs| >= limit {
      var sorted :| |sorted| > limit && Sorting(bs + [b], sorted) && r == sorted[..limit];
      CutCounts(sorted, limit);
      CutOrders(sorted, limit);
    }
  }

  lemma {:induction false} CutCounts(sorted: seq<Broadcast>, n: nat)
    requires n <= |sorted|
    ensures multiset(sorted[..n]) <= multiset(sorted)
    ensures multiset(sorted) - multiset(sorted[..n]) == multiset(sorted[n..])
  {
    assert sorted == sorted[..n] + sorted[n..];
  }

  lemma {:induction false} CutOrders(sorted: seq<Broadcast>, n: nat)
    requires n <= |sorted| && FreshestFirst(sorted)
    ensures forall kept, dropped :: kept in sorted[..n] && dropped in multiset(sorted[n..]) ==>
      dropped.retransmits <= kept.retransmits
  {
    forall kept, dropped | kept in sorted[..n] && dropped in multiset(sorted[n..])
      ensures dropped.retransmits <= kept.retransmits
    {
      var i :| 0 <= i < n && sorted[i] == kept;
      var j :| n <= j < |sorted| && sorted[j] == dropped;
    }
  }

  ghost predicate SelfOk(members: map<Bytes, Member>, self: Bytes) {
    self in members && members[self].liveness == Alive
  }

  ghost predicate Filed(members: map<Bytes, Member>) {
    forall id :: id in members ==> members[id].id == id
  }

  /** Dead members are exactly those with a time of death. */
  ghost predicate DeathsOk(members: map<Bytes, Member>, deadSince: map<Bytes, int>) {
    forall id :: id in deadSince <==> id in members && members[id].liveness == Dead
  }

  ghost predicate TimersOk(members: map<Bytes, Member>, timers: set<Bytes>) {
    forall id :: id in timers ==> id in members && members[id].liveness == Suspect
  }

  ghost predicate RingOk(members: map<Bytes, Member>, ms: seq<RingMember>) {
    forall id :: id in members ==> members[id].ring in {FirstState(ms, id), LastState(ms, id)}
  }

  /** The descriptor determines a member's ring state exactly if its first and last entries for
      the member, if any, carry the same state. */
  lemma {:induction false} RingStatesAgree(members: map<Bytes, Member>, ms: seq<RingMember>, id: Bytes)
    requires RingOk(members, ms) && id in members
    ensures members[id].ring == FirstState(ms, id) == LastState(ms, id) <==> SameEnds(ms, id)
  {
    hide FirstState, LastState;
    LookupsAgreeIff(ms, id);
  }

  /** Everything kept about the table. */
  ghost predicate TableOk(members: map<Bytes, Member>, self: Bytes, deadSince: map<Bytes, int>, timers: set<Bytes>,
                          ms: seq<RingMember>) {
    && SelfOk(members, self) && Filed(members) && DeathsOk(members, deadSince) && TimersOk(members, timers)
    && RingOk(members, ms)
  }

  /** A change of liveness, with the bookkeeping that goes with it. */
  lemma {:induction false} LivenessKeeps(members: map<Bytes, Member>, self: Bytes, deadSince: map<Bytes, int>,
                                         timers: set<Bytes>, ms: seq<RingMember>, id: Bytes, to: Liveness, now: int)
    requires TableOk(members, self, deadSince, timers, ms) && id in members && members[id].liveness != to
    requires id == self ==> to == Alive
    ensures TableOk(members[id := members[id].(liveness := to)], self,
                    if to == Dead then deadSince[id := now] else deadSince - {id},
                    if members[id].liveness == Suspect then timers - {id} else timers, ms)
  {
    hide FirstState, LastState;
  }

  /** A change that touches neither id, nor liveness, nor ring state. */
  lemma {:induction false} RewriteKeeps(members: map<Bytes, Member>, self: Bytes, deadSince: map<Bytes, int>,
                                        timers: set<Bytes>, ms: seq<RingMember>, id: Bytes, m: Member)
    requires TableOk(members, self, deadSince, timers, ms) && id in members && m.id == id
    requires m.liveness == members[id].liveness && m.ring == members[id].ring
    ensures TableOk(members[id := m], self, deadSince, timers, ms)
  {
    hide FirstState, LastState;
  }

  lemma {:induction false} AddKeeps(members: map<Bytes, Member>, self: Bytes, deadSince: map<Bytes, int>,
                                    timers: set<Bytes>, ms: seq<RingMember>, m: Member, now: int)
    requires TableOk(members, self, deadSince, timers, ms) && m.id !in members && m.ring == FirstState(ms, m.id)
    ensures TableOk(members[m.id := m], self,
                    if m.liveness == Dead then deadSince[m.id := now] else deadSince, timers, ms)
  {
    hide FirstState, LastState;
  }

  lemma {:induction false} SelfThere(members: map<Bytes, Member>, self: Bytes, deadSince: map<Bytes, int>,
                                     timers: set<Bytes>, ms: seq<RingMember>)
    requires TableOk(members, self, deadSince, timers, ms)
    ensures self in members && members[self].liveness == Alive
    ensures forall id :: id in members ==> members[id].id == id
  {
  }

  // ----- which suspects have a timer -----

  /** What became of a member's liveness; probed: through a failed probe of this node. */
  datatype Change = Change(id: Bytes, to: Liveness, probed: bool)

  function Latest(log: seq<Change>, id: Bytes): Option<Change> {
    if log == [] then None
    else if log[|log| - 1].id == id then Some(log[|log| - 1])
    else Latest(log[..|log| - 1], id)
  }

  /** The log of all changes ends in the present table, and a timer runs for exactly those members
      that last became suspect through a failed probe of this node. */
  ghost predicate Logged(members: map<Bytes, Member>, timers: set<Bytes>, log: seq<Change>) {
    && (forall id :: id in members ==> Latest(log, id).Some? && Latest(log, id).value.to == members[id].liveness)
    && (forall id :: id in timers <==> id in members && Latest(log, id) == Some(Change(id, Suspect, true)))
  }

  /** A suspect has a timer if and only if this node's own probe made it a suspect. One suspected
      by hearsay has none, and no failed probe starts one: it stays a suspect until a message, or an
      answer, says otherwise. */
  lemma {:induction false} TimedIff(members: map<Bytes, Member>, timers: set<Bytes>, log: seq<Change>, id: Bytes)
    requires Logged(members, timers, log) && id in members && members[id].liveness == Suspect
    ensures Latest(log, id).Some? && (id in timers <==> Latest(log, id).value.probed)
  {
    LatestIs(log, id);
  }

  lemma {:induction false} LatestIs(log: seq<Change>, id: Bytes)
    ensures Latest(log, id).Some? ==> Latest(log, id).value.id == id
  {
    if log != [] { LatestIs(log[..|log| - 1], id); }
  }

  lemma {:induction false} LatestNext(log: seq<Change>, c: Change)
    ensures forall id :: Latest(log + [c], id) == if c.id == id then Some(c) else Latest(log, id)
  {
    assert (log + [c])[..|log|] == log;
  }

  lemma {:induction false} LogChanged(members: map<Bytes, Member>, timers: set<Bytes>, log: seq<Change>, id: Bytes,
                                      to: Liveness)
    requires Logged(members, timers, log) && id in members && members[id].liveness != to
    ensures Logged(members[id := members[id].(liveness := to)],
                   if members[id].liveness == Suspect then timers - {id} else timers, log + [Change(id, to, false)])
  {
    hide Latest;
    LatestNext(log, Change(id, to, false));
  }

  lemma {:induction false} LogAdded(members: map<Bytes, Member>, timers: set<Bytes>, log: seq<Change>, m: Member)
    requires Logged(members, timers, log) && m.id !in members
    ensures Logged(members[m.id := m], timers, log + [Change(m.id, m.liveness, false)])
  {
    hide Latest;
    LatestNext(log, Change(m.id, m.liveness, false));
  }

  lemma {:induction false} LogTimed(members: map<Bytes, Member>, timers: set<Bytes>, log: seq<Change>, id: Bytes)
    requires Logged(members, timers, log) && id in members && members[id].liveness == Suspect
    ensures Logged(members, timers + {id}, log + [Change(id, Suspect, true)])
  {
    hide Latest;
    LatestNext(log, Change(id, Suspect, true));
  }

  lemma {:induction false} LogSame(members: map<Bytes, Member>, members': map<Bytes, Member>, timers: set<Bytes>,
                                   log: seq<Change>)
    requires Logged(members, timers, log) && members'.Keys == members.Keys
    requires forall id :: id in members ==> members'[id].liveness == members[id].liveness
    ensures Logged(members', timers, log)
  {
    hide Latest;
  }

  lemma {:induction false} TimersAreSuspects(members: map<Bytes, Member>, timers: set<Bytes>, log: seq<Change>)
    requires Logged(members, timers, log)
    ensures forall id :: id in timers ==> id in members && members[id].liveness == Suspect
  {
    hide Latest;
  }

  lemma {:induction false} LogReaped(members: map<Bytes, Member>, timers: set<Bytes>, log: seq<Change>, id: Bytes)
    requires Logged(members, timers, log) && id in members && members[id].liveness == Dead
    ensures Logged(members - {id}, timers, log)
  {
    hide Latest;
  }

  /** Every member but the node itself and the dead, once. */
  ghost predicate ProbeList(members: map<Bytes, Member>, self: Bytes, order: seq<Bytes>) {
    && (forall i, j :: 0 <= i < j < |order| ==> order[i] != order[j])
    && (forall id :: id in order <==> id in members && id != self && members[id].liveness != Dead)
  }

  /** The list stays right as long as no other member comes, goes or changes liveness. */
  lemma {:induction false} ProbeListSame(members: map<Bytes, Member>, members': map<Bytes, Member>, self: Bytes,
                                         order: seq<Bytes>)
    requires ProbeList(members, self, order) && members'.Keys == members.Keys
    requires forall id :: id in members && id != self ==> members'[id].liveness == members[id].liveness
    ensures ProbeList(members', self, order)
  {
  }

  lemma {:induction false} OnProbeList(members: map<Bytes, Member>, self: Bytes, order: seq<Bytes>, i: nat)
    requires ProbeList(members, self, order) && i < |order|
    ensures order[i] in members && members[order[i]].liveness != Dead && order[i] != self
  {
    assert order[i] in order;
  }

  /** What an update leaves in the table. */
  function Table(members: map<Bytes, Member>, self: Bytes, u: Member, ring: RingState): map<Bytes, Member> {
    members[u.id :=
      if u.id !in members then Merged(None, u, ring)
      else if u.id == self then MergedSelf(members[self], u)
      else Merged(Some(members[u.id]), u, ring)]
  }

  /** What an update leaves in the table, by the names of the states. A new member is as told. Of a
      known one a higher incarnation is believed; at the same one it is dead if either side says
      so and alive only if both do. Suspicion of the node itself is outbid. */
  ghost predicate Updated(members: map<Bytes, Member>, self: Bytes, u: Member, ring: RingState,
                          r: map<Bytes, Member>)
    requires self in members
  {
    && u.id in r && r == members[u.id := r[u.id]] && (u.id !in members ==> r[u.id] == u.(ring := ring))
    && (u.id in members && u.id != self && u.incarnation > members[u.id].incarnation ==>
          r[u.id] == u.(ring := members[u.id].ring))
    && (u.id in members && u.id != self && u.incarnation < members[u.id].incarnation ==> r == members)
    && (u.id in members && u.id != self && u.incarnation == members[u.id].incarnation ==>
          && r[u.id] == members[u.id].(liveness := r[u.id].liveness)
          && (r[u.id].liveness == Dead <==> members[u.id].liveness == Dead || u.liveness == Dead)
          && (r[u.id].liveness == Alive <==> members[u.id].liveness == Alive && u.liveness == Alive))
    && (u.id == self && u.liveness != Alive && u.incarnation >= members[self].incarnation ==>
          r[self] == members[self].(incarnation := (u.incarnation + 1) % U64, liveness := Alive))
    && (u.id == self && u.liveness == Alive && u.incarnation > members[self].incarnation ==>
          r[self] == u.(ring := members[self].ring, liveness := members[self].liveness))
    && (u.id == self && u.incarnation < members[self].incarnation ==> r == members)
    && (u.id == self && u.liveness == Alive && u.incarnation == members[self].incarnation ==> r == members)
  }

  lemma {:induction false} TableNames(members: map<Bytes, Member>, self: Bytes, u: Member, ring: RingState)
    requires self in members
    ensures Updated(members, self, u, ring, Table(members, self, u, ring))
  {
    hide Merged;
    if u.id in members { MergedNames(members[u.id], u, ring); } else { MergedNames(u, u, ring); }
  }

  class Membership {
    const selfID: Bytes
    const retransmitMult: int
    const maxBroadcasts: int
    const reapTimeout: int
    var members: map<Bytes, Member>
    var broadcasts: seq<Broadcast>
    var suspectTimers: set<Bytes>
    var deadSince: map<Bytes, int>
    var memberGen: nat
    var ringDesc: RingDescriptor
    var probeOrder: seq<Bytes>
    var probeIdx: nat
    var probeOrderGen: nat
    ghost var log: seq<Change>         // all changes of liveness

    function BufferLimit(): nat {
      if maxBroadcasts <= 0 then DEFAULT_MAX_BROADCASTS else maxBroadcasts
    }

    ghost predicate Valid()
      reads this
    {
      && TableOk(members, selfID, deadSince, suspectTimers, ringDesc.members) && Logged(members, suspectTimers, log)
      && |broadcasts| <= BufferLimit() && probeOrderGen <= memberGen
      && (probeOrderGen == memberGen ==> ProbeList(members, selfID, probeOrder))
    }

    constructor (selfID: Bytes, addr: Bytes, retransmitMult: int, maxBroadcasts: int, reapTimeout: int)
      ensures Valid() && members == map[selfID := Member(selfID, addr, Alive, RingNone, 1)]
      ensures this.selfID == selfID && ringDesc == RingDescriptor(0, []) && broadcasts == []
    {
      this.selfID, this.retransmitMult, this.maxBroadcasts, this.reapTimeout :=
        selfID, retransmitMult, maxBroadcasts, reapTimeout;
      members := map[selfID := Member(selfID, addr, Alive, RingNone, 1)];
      broadcasts, suspectTimers, deadSince, memberGen := [], {}, map[], 0;
      ringDesc, probeOrder, probeIdx, probeOrderGen := RingDescriptor(0, []), [], 0, 0;
      log := [Change(selfID, Alive, false)];
      LatestNext([], Change(selfID, Alive, false));
      assert [] + [Change(selfID, Alive, false)] == [Change(selfID, Alive, false)];
    }

    function RetransmitLimit(): int
      reads this
    {
      if |members| < 2 then retransmitMult else retransmitMult * CeilLog2(|members|)
    }

    /** An update goes out a number of times logarithmic in the size of the cluster. */
    lemma {:induction false} RetransmitLimitIs(k: nat)
      ensures |members| < 2 ==> RetransmitLimit() == retransmitMult
      ensures |members| <= Pow2(k) && k >= 1 && Pow2(k - 1) < |members| ==> RetransmitLimit() == retransmitMult * k
    {
      if |members| <= Pow2(k) && k >= 1 && Pow2(k - 1) < |members| { CeilLog2Is(|members|, k); }
    }

    /** The buffer never outgrows its limit; overflowing, it drops the least fresh. */
    method QueueBroadcast(state: Member)
      requires |broadcasts| <= BufferLimit()
      modifies this`broadcasts
      ensures |broadcasts| <= BufferLimit()
      ensures Enqueued(old(broadcasts), Broadcast(state, RetransmitLimit()), BufferLimit(), broadcasts)
      ensures maxBroadcasts <= 0 ==>
        Enqueued(old(broadcasts), Broadcast(state, RetransmitLimit()), 128, broadcasts)
      ensures maxBroadcasts > 0 ==>
        Enqueued(old(broadcasts), Broadcast(state, RetransmitLimit()), maxBroadcasts, broadcasts)
    {
      broadcasts := broadcasts + [Broadcast(state, RetransmitLimit())];
      if |broadcasts| > BufferLimit() {
        var sorted := SortFresh(broadcasts);
        broadcasts := sorted[..BufferLimit()];
      }
    }

    /** Every liveness change goes through here. Only a member never itself is ever set to
        anything but Alive. */
    method SetLiveness(id: Bytes, to: Liveness, now: int) returns (ev: Option<Event>)
      requires Valid() && (id == selfID ==> to == Alive)
      modifies this`members, this`broadcasts, this`suspectTimers, this`deadSince, this`memberGen, this`log
      ensures Valid()
      ensures members ==
        if id in old(members) then old(members)[id := old(members)[id].(liveness := to)] else old(members)
      ensures ev ==
        if id in old(members) && old(members)[id].liveness != to then Some(Event(id, old(members)[id].liveness, to))
        else None
      ensures suspectTimers ==
        if ev.Some? && ev.value.from == Suspect then old(suspectTimers) - {id} else old(suspectTimers)
      ensures log == old(log) + (if ev.Some? then [Change(id, to, false)] else [])
      ensures ev.None? ==> deadSince == old(deadSince) && broadcasts == old(broadcasts)
      ensures ev.Some? ==> deadSince == if to == Dead then old(deadSince)[id := now] else old(deadSince) - {id}
      ensures ev.Some? ==>
        Enqueued(old(broadcasts), Broadcast(members[id], RetransmitLimit()), BufferLimit(), broadcasts)
      ensures ev.Some? ==> memberGen == old(memberGen) + 1
    {
      hide TableOk, CeilLog2, Enqueued, ProbeList, Logged;
      assert log + [] == log;
      if id !in members {
        return None;
      }
      var from := members[id].liveness;
      if from == to {
        assert members == members[id := members[id].(liveness := to)];
        return None;
      }
      LivenessKeeps(members, selfID, deadSince, suspectTimers, ringDesc.members, id, to, now);
      LogChanged(members, suspectTimers, log, id, to);
      log := log + [Change(id, to, false)];
      members := members[id := members[id].(liveness := to)];
      memberGen := memberGen + 1;
      if to == Dead {
        deadSince := deadSince[id := now];
      } else {
        deadSince := deadSince - {id};
      }
      if from == Suspect {
        suspectTimers := suspectTimers - {id};
      }
      QueueBroadcast(members[id]);
      ev := Some(Event(id, from, to));
    }

    method StartSuspectTimer(id: Bytes)
      requires Valid() && id in members && members[id].liveness == Suspect
      modifies this`suspectTimers, this`log
      ensures Valid() && suspectTimers == old(suspectTimers) + {id} && log == old(log) + [Change(id, Suspect, true)]
    {
      hide FirstState, LastState, Logged, ProbeList;
      LogTimed(members, suspectTimers, log, id);
      log := log + [Change(id, Suspect, true)];
      suspectTimers := suspectTimers + {id};
    }

    /** A timer callback, however late it gets the lock. */
    method SuspectTimeout(id: Bytes, now: int) returns (ev: Option<Event>)
      requires Valid()
      modifies this`members, this`broadcasts, this`suspectTimers, this`deadSince, this`memberGen, this`log
      ensures Valid() && members.Keys == old(members).Keys
      ensures members == if id in old(members) && old(members)[id].liveness == Suspect
                         then old(members)[id := old(members)[id].(liveness := Dead)] else old(members)
      ensures suspectTimers == old(suspectTimers) - (if id in old(members) then {id} else {})
    {
      hide FirstState, LastState, Logged, ProbeList;
      TimersAreSuspects(members, suspectTimers, log);
      if id !in members || members[id].liveness != Suspect {
        return None;
      }
      ev := SetLiveness(id, Dead, now);
    }

    /** Suspicion of the node itself is answered with a higher incarnation. */
    method Refute(u: Member)
      requires Valid() && selfID in members && u.liveness != Alive
      modifies this`members, this`broadcasts
      ensures Valid() && members == old(members)[selfID := MergedSelf(old(members)[selfID], u)]
      ensures
        if u.incarnation >= old(members)[selfID].incarnation
        then Enqueued(old(broadcasts), Broadcast(members[selfID], RetransmitLimit()), BufferLimit(), broadcasts)
        else broadcasts == old(broadcasts)
    {
      hide TableOk, CeilLog2, Enqueued, ProbeList, Logged;
      SelfThere(members, selfID, deadSince, suspectTimers, ringDesc.members);
      var local := members[selfID];
      if u.incarnation >= local.incarnation {
        ghost var was := members;
        RewriteKeeps(members, selfID, deadSince, suspectTimers, ringDesc.members, selfID,
                     local.(incarnation := Next(u.incarnation), liveness := Alive));
        members := members[selfID := local.(incarnation := Next(u.incarnation), liveness := Alive)];
        if probeOrderGen == memberGen { ProbeListSame(was, members, selfID, probeOrder); }
        LogSame(was, members, suspectTimers, log);
        QueueBroadcast(members[selfID]);
      }
    }

    /** A gossip update. What changes about a known member is passed on, and nothing else. */
    method MergeUpdate(u: Member, now: int) returns (ev: Option<Event>)
      requires Valid()
      modifies this`members, this`broadcasts, this`suspectTimers, this`deadSince, this`memberGen, this`log
      ensures Valid() && members == Table(old(members), selfID, u, FirstState(ringDesc.members, u.id))
      ensures selfID in old(members) && u.id in members
      ensures Updated(old(members), selfID, u, FirstState(ringDesc.members, u.id), members)
      ensures
        if u.id in old(members)
          && (members != old(members) || (u.id == selfID && u.liveness != Alive && u.incarnation == U64 - 1))
        then Enqueued(old(broadcasts), Broadcast(members[u.id], RetransmitLimit()), BufferLimit(), broadcasts)
        else broadcasts == old(broadcasts)
      ensures !(u.id == selfID && u.liveness != Alive && u.incarnation == U64 - 1) ==>
        members[selfID].incarnation >= old(members)[selfID].incarnation
      ensures suspectTimers ==
        old(suspectTimers) - (if u.id in old(members) && members[u.id].liveness != Suspect then {u.id} else {})
      ensures log == old(log) +
        (if u.id in old(members) && old(members)[u.id].liveness == members[u.id].liveness then []
         else [Change(u.id, members[u.id].liveness, false)])
    {
      hide TableOk, FirstState, CeilLog2, Enqueued, ProbeList, Logged, Updated;
      assert log + [] == log;
      TimersAreSuspects(members, suspectTimers, log);
      SelfThere(members, selfID, deadSince, suspectTimers, ringDesc.members);
      TableNames(members, selfID, u, FirstState(ringDesc.members, u.id));
      if u.id !in members {
        AddMember(u, now);
        return None;
      }
      var local := members[u.id];
      if u.id == selfID && u.liveness != Alive {
        Refute(u);
        return None;
      }
      if u.incarnation > local.incarnation {
        ev := Replace(u, now);
        return;
      }
      if u.incarnation == local.incarnation && Rank(u.liveness) > Rank(local.liveness) {
        ev := SetLiveness(u.id, u.liveness, now);
        return;
      }
      return None;
    }

    /** A higher incarnation of a known member. */
    method Replace(u: Member, now: int) returns (ev: Option<Event>)
      requires Valid() && u.id in members && (u.id == selfID ==> u.liveness == Alive)
      modifies this`members, this`broadcasts, this`suspectTimers, this`deadSince, this`memberGen, this`log
      ensures Valid() && members == old(members)[u.id := u.(ring := old(members)[u.id].ring)]
      ensures Enqueued(old(broadcasts), Broadcast(members[u.id], RetransmitLimit()), BufferLimit(), broadcasts)
      ensures suspectTimers == old(suspectTimers) - (if u.liveness != Suspect then {u.id} else {})
      ensures log == old(log) +
        if old(members)[u.id].liveness == u.liveness then [] else [Change(u.id, u.liveness, false)]
    {
      hide TableOk, FirstState, CeilLog2, Enqueued, ProbeList, Logged;
      assert log + [] == log;
      TimersAreSuspects(members, suspectTimers, log);
      var local := members[u.id];
      Adopt(u);
      if u.liveness != local.liveness {
        ev := SetLiveness(u.id, u.liveness, now);
        return;
      }
      QueueBroadcast(members[u.id]);
      return None;
    }

    /** A member not heard of before. It may be suspect already, and gets no timer. */
    method AddMember(u: Member, now: int)
      requires Valid() && u.id !in members
      modifies this`members, this`deadSince, this`memberGen, this`log
      ensures Valid() && members == old(members)[u.id := u.(ring := FirstState(ringDesc.members, u.id))]
      ensures log == old(log) + [Change(u.id, u.liveness, false)]
    {
      hide TableOk, FirstState, ProbeList, Logged;
      var m := u.(ring := FirstState(ringDesc.members, u.id));
      AddKeeps(members, selfID, deadSince, suspectTimers, ringDesc.members, m, now);
      LogAdded(members, suspectTimers, log, m);
      log := log + [Change(u.id, u.liveness, false)];
      members := members[u.id := m];
      memberGen := memberGen + 1;
      if u.liveness == Dead {
        deadSince := deadSince[u.id := now];
      }
    }

    /** Address and incarnation of an update; liveness and ring state stay. */
    method Adopt(u: Member)
      requires Valid() && u.id in members
      modifies this`members, this`memberGen
      ensures Valid() && memberGen == old(memberGen) + 1
      ensures members == old(members)[u.id :=
        u.(ring := old(members)[u.id].ring, liveness := old(members)[u.id].liveness)]
    {
      hide TableOk, ProbeList, Logged;
      ghost var was := members;
      var m := u.(ring := members[u.id].ring, liveness := members[u.id].liveness);
      RewriteKeeps(members, selfID, deadSince, suspectTimers, ringDesc.members, u.id, m);
      members := members[u.id := m];
      memberGen := memberGen + 1;
      LogSame(was, members, suspectTimers, log);
    }

    /** A list of updates: of every other node the table says what is to be believed of all that was
        known and heard, in whatever order it came (SwimMerge.OrderFree); the node itself has outbid
        all of it. */
    method MergeUpdates(us: seq<Member>, now: int)
      requires Valid()
      modifies this`members, this`broadcasts, this`suspectTimers, this`deadSince, this`memberGen, this`log
      ensures Valid()
      ensures forall id :: id != selfID ==>
        Lookup(members, id) == MergedAll(Lookup(old(members), id), About(us, id), FirstState(ringDesc.members, id))
      ensures forall id :: id in members <==> id in old(members) || exists u :: u in us && u.id == id
      ensures forall id :: id in members && id != selfID ==>
        Believed(Lookup(old(members), id), About(us, id), members[id])
      ensures selfID in members && selfID in old(members)
      ensures members[selfID] == MergedSelfAll(old(members)[selfID], About(us, selfID))
      ensures NoWrap(us, selfID) ==> old(members)[selfID].incarnation <= members[selfID].incarnation
      ensures NoWrap(us, selfID) ==> forall u :: u in us && u.id == selfID && u.liveness != Alive ==>
        u.incarnation < members[selfID].incarnation
      ensures suspectTimers <= old(suspectTimers)
    {
      hide TableOk, FirstState, MergedAll, MergedSelfAll, About, Lookup, Table, ProbeList, Enqueued, Logged, Believed;
      StartMerge(members, selfID, us);
      SelfThere(members, selfID, deadSince, suspectTimers, ringDesc.members);
      ghost var before := members;
      var i := 0;
      while i < |us|
        invariant 0 <= i <= |us| && Valid() && selfID in members && suspectTimers <= old(suspectTimers)
        invariant forall id :: id != selfID ==>
          Lookup(members, id) == MergedAll(Lookup(before, id), About(us[..i], id), FirstState(ringDesc.members, id))
        invariant members[selfID] == MergedSelfAll(before[selfID], About(us[..i], selfID))
        invariant NoWrap(us, selfID) ==> before[selfID].incarnation <= members[selfID].incarnation
      {
        ghost var was := members;
        var _ := MergeUpdate(us[i], now);
        forall id | id != selfID ensures
          Lookup(members, id) == MergedAll(Lookup(before, id), About(us[..i + 1], id), FirstState(ringDesc.members, id))
        {
          MergeNext(before, was, selfID, us, i, id, FirstState(ringDesc.members, us[i].id),
            FirstState(ringDesc.members, id));
        }
        SelfNext(before[selfID], was, selfID, us, i, FirstState(ringDesc.members, us[i].id));
        SelfThere(members, selfID, deadSince, suspectTimers, ringDesc.members);
        i := i + 1;
      }
      assert us[..|us|] == us;
      forall id ensures id in members <==> id in before || exists u :: u in us && u.id == id {
        if id != selfID { MergedThere(before, members, us, id, FirstState(ringDesc.members, id)); }
      }
      forall id | id in members && id != selfID ensures Believed(Lookup(before, id), About(us, id), members[id]) {
        MergedThere(before, members, us, id, FirstState(ringDesc.members, id));
      }
      if NoWrap(us, selfID) { SelfMerged(before[selfID], us, selfID); }
    }

    /** A ring descriptor is applied only if it is newer. */
    method ApplyRingDescriptor(rd: RingDescriptor) returns (applied: bool)
      requires Valid()
      modifies this`members, this`broadcasts, this`ringDesc
      ensures Valid() && applied == (rd.version > old(ringDesc).version)
      ensures ringDesc == (if applied then rd else old(ringDesc)) && ringDesc.version >= old(ringDesc).version
      ensures !applied ==> members == old(members)
      ensures members.Keys == old(members).Keys
      ensures applied ==>
        forall id :: id in members ==> members[id] == old(members)[id].(ring := LastState(rd.members, id))
    {
      hide TableOk, LastState, ProbeList, Logged;
      if rd.version <= ringDesc.version {
        return false;
      }
      RestatedKeeps(members, selfID, deadSince, suspectTimers, ringDesc.members, rd.members);
      ghost var was := members;
      Restate(rd.members);
      RestatedShape(was, rd.members);
      if probeOrderGen == memberGen { ProbeListSame(was, members, selfID, probeOrder); }
      LogSame(was, members, suspectTimers, log);
      ringDesc := rd;
      return true;
    }

    /** The loop over the members. */
    method Restate(ms: seq<RingMember>)
      requires |broadcasts| <= BufferLimit()
      modifies this`members, this`broadcasts
      ensures |broadcasts| <= BufferLimit() && members == Restated(old(members), old(members).Keys, ms)
    {
      hide LastState, CeilLog2, Enqueued;
      ghost var before := members;
      var rest := members.Keys;
      assert Restated(before, before.Keys - rest, ms) == before;
      while rest != {}
        invariant rest <= before.Keys && members == Restated(before, before.Keys - rest, ms)
        invariant |broadcasts| <= BufferLimit()
        decreases rest
      {
        var id :| id in rest;
        var state := LastState(ms, id);
        if members[id].ring != state {
          members := members[id := members[id].(ring := state)];
          QueueBroadcast(members[id]);
        }
        rest := rest - {id};
      }
      assert before.Keys - rest == before.Keys;
    }

    /** An incoming ping, ping response or full state exchange: all updates are merged, then a
        newer ring descriptor is applied. */
    method HandleGossip(us: seq<Member>, rd: Option<RingDescriptor>, now: int)
      requires Valid()
      modifies this`members, this`broadcasts, this`suspectTimers, this`deadSince, this`memberGen, this`log,
        this`ringDesc
      ensures Valid() && ringDesc.version >= old(ringDesc).version
      ensures ringDesc == if rd.Some? && rd.value.version > old(ringDesc).version then rd.value else old(ringDesc)
      ensures forall id :: id != selfID ==>
        var heard := MergedAll(Lookup(old(members), id), About(us, id), FirstState(old(ringDesc).members, id));
        Lookup(members, id) == Placed(heard, id, old(ringDesc), rd)
      ensures selfID in members && selfID in old(members)
      ensures Some(members[selfID]) ==
        Placed(Some(MergedSelfAll(old(members)[selfID], About(us, selfID))), selfID, old(ringDesc), rd)
      ensures NoWrap(us, selfID) ==> old(members)[selfID].incarnation <= members[selfID].incarnation
      ensures forall id :: id in members && id != selfID ==>
        Believed(Lookup(old(members), id), About(us, id), members[id])
      ensures suspectTimers <= old(suspectTimers)
    {
      hide TableOk, FirstState, LastState, MergedAll, About, MergedSelfAll, ProbeList, Logged, Believed;
      SelfThere(members, selfID, deadSince, suspectTimers, ringDesc.members);
      MergeUpdates(us, now);
      SelfThere(members, selfID, deadSince, suspectTimers, ringDesc.members);
      ghost var was := members;
      if rd.Some? {
        var applied := ApplyRingDescriptor(rd.value);
        forall id | id in members && id != selfID
          ensures Believed(Lookup(old(members), id), About(us, id), members[id])
        {
          BelievedAnyRing(Lookup(old(members), id), About(us, id), was[id], members[id].ring);
        }
      }
    }

    /** A ping answered, directly or through a peer: a suspect is alive again. */
    method ProbeSucceeded(target: Bytes, now: int) returns (ev: Option<Event>)
      requires Valid() && target != selfID
      modifies this`members, this`broadcasts, this`suspectTimers, this`deadSince, this`memberGen, this`log
      ensures Valid()
      ensures members == if target in old(members) && old(members)[target].liveness == Suspect
                         then old(members)[target := old(members)[target].(liveness := Alive)] else old(members)
      ensures suspectTimers == old(suspectTimers) - (if target in old(members) then {target} else {})
    {
      hide TableOk, ProbeList, Enqueued, Logged;
      TimersAreSuspects(members, suspectTimers, log);
      SelfThere(members, selfID, deadSince, suspectTimers, ringDesc.members);
      ev := None;
      if target in members && members[target].liveness == Suspect {
        ev := SetLiveness(target, Alive, now);
      }
    }

    /** No ping answered: a live target becomes a suspect, with its timer running. */
    method ProbeFailed(target: Bytes, now: int) returns (ev: Option<Event>)
      requires Valid() && target != selfID
      modifies this`members, this`broadcasts, this`suspectTimers, this`deadSince, this`memberGen, this`log
      ensures Valid()
      ensures members == if target in old(members) && old(members)[target].liveness == Alive
                         then old(members)[target := old(members)[target].(liveness := Suspect)] else old(members)
      ensures suspectTimers ==
        old(suspectTimers) + (if target in old(members) && old(members)[target].liveness == Alive then {target} else {})
      ensures ev.None? ==> log == old(log) && deadSince == old(deadSince) && broadcasts == old(broadcasts)
      ensures ev.Some? <==> target in old(members) && old(members)[target].liveness == Alive
    {
      hide TableOk, ProbeList, Enqueued, Logged;
      SelfThere(members, selfID, deadSince, suspectTimers, ringDesc.members);
      ev := None;
      if target in members && members[target].liveness == Alive {
        ev := SetLiveness(target, Suspect, now);
        StartSuspectTimer(target);
      }
    }

    /** Only members that are dead, outside the ring and dead long enough are removed. */
    method ReapDeadNodes(now: int)
      requires Valid()
      modifies this`members, this`deadSince, this`memberGen
      ensures Valid() && selfID in members
      ensures reapTimeout <= 0 ==> members == old(members)
      ensures reapTimeout > 0 ==>
        members == Survivors(old(members), old(deadSince), old(deadSince).Keys, now, reapTimeout)
      ensures forall id :: id in members ==> id in old(members) && members[id] == old(members)[id]
      ensures forall id :: id in old(members) && id !in members <==>
        && reapTimeout > 0 && id in old(members) && id in old(deadSince) && old(members)[id].ring == RingNone
        && now - old(deadSince)[id] >= reapTimeout
    {
      hide TableOk, Survivors, ProbeList, Logged;
      SelfThere(members, selfID, deadSince, suspectTimers, ringDesc.members);
      if reapTimeout <= 0 {
        return;
      }
      ghost var m0, d0 := members, deadSince;
      var rest := deadSince.Keys;
      NobodyReaped(m0, d0, now, reapTimeout);
      while rest != {}
        invariant rest <= d0.Keys && TableOk(members, selfID, deadSince, suspectTimers, ringDesc.members)
        invariant Logged(members, suspectTimers, log)
        invariant members == Survivors(m0, d0, d0.Keys - rest, now, reapTimeout)
        invariant memberGen >= probeOrderGen && (probeOrderGen == memberGen ==> ProbeList(members, selfID, probeOrder))
        invariant forall id :: id in rest ==> id in deadSince && deadSince[id] == d0[id]
        decreases rest
      {
        var id :| id in rest;
        DeadThere(members, selfID, deadSince, suspectTimers, ringDesc.members, id);
        ReapNext(m0, d0, d0.Keys - rest, id, now, reapTimeout);
        assert d0.Keys - (rest - {id}) == d0.Keys - rest + {id};
        if now - deadSince[id] >= reapTimeout && members[id].ring == RingNone {
          ReapKeeps(members, selfID, deadSince, suspectTimers, ringDesc.members, id);
          LogReaped(members, suspectTimers, log, id);
          members := members - {id};
          deadSince := deadSince - {id};
          memberGen := memberGen + 1;
        }
        rest := rest - {id};
      }
      assert d0.Keys - rest == d0.Keys;
      SurvivorsAre(m0, d0, now, reapTimeout);
      SelfThere(members, selfID, deadSince, suspectTimers, ringDesc.members);
    }

    /** Round robin over an arbitrary order: never the node itself and never a dead one. While
        the membership stays the same, each pass over the list probes every other live or suspect
        member exactly once. */
    method NextProbeTarget() returns (target: Option<Member>)
      requires Valid()
      modifies this`probeOrder, this`probeIdx, this`probeOrderGen
      ensures Valid() && probeOrderGen == memberGen
      ensures target.None? <==> probeOrder == []
      ensures target.Some? ==>
        && 0 < probeIdx <= |probeOrder| && target.value.id == probeOrder[probeIdx - 1]
        && target.value.id in members && members[target.value.id] == target.value
      ensures old(probeOrderGen) == memberGen && old(probeIdx) < old(|probeOrder|) ==>
        probeOrder == old(probeOrder) && probeIdx == old(probeIdx) + 1
      ensures !(old(probeOrderGen) == memberGen && old(probeIdx) < old(|probeOrder|)) && target.Some? ==> probeIdx == 1
    {
      hide TableOk, ProbeList, Logged;
      SelfThere(members, selfID, deadSince, suspectTimers, ringDesc.members);
      if probeIdx >= |probeOrder| || probeOrderGen != memberGen {
        RebuildProbeOrder();
      }
      if probeOrder == [] {
        return None;
      }
      assert probeOrder[probeIdx] in members && members[probeOrder[probeIdx]].liveness != Dead by {
        OnProbeList(members, selfID, probeOrder, probeIdx);
      }
      SelfThere(members, selfID, deadSince, suspectTimers, ringDesc.members);
      var id := probeOrder[probeIdx];
      probeIdx := probeIdx + 1;
      if id !in members || members[id].liveness == Dead {
        target := NextProbeTargetLocked();
        return;
      }
      return Some(members[id]);
    }

    /** Skips what has gone or died since the list was built. */
    method NextProbeTargetLocked() returns (target: Option<Member>)
      modifies this`probeIdx
      ensures old(probeIdx) <= probeIdx
      ensures target.None? ==> forall i :: old(probeIdx) <= i < |probeOrder| ==>
        probeOrder[i] !in members || members[probeOrder[i]].liveness == Dead
      ensures target.Some? ==>
        && old(probeIdx) < probeIdx <= |probeOrder| && probeOrder[probeIdx - 1] in members
        && target.value == members[probeOrder[probeIdx - 1]] && target.value.liveness != Dead
    {
      while probeIdx < |probeOrder|
        invariant old(probeIdx) <= probeIdx
        invariant forall i :: old(probeIdx) <= i < probeIdx && i < |probeOrder| ==>
          probeOrder[i] !in members || members[probeOrder[i]].liveness == Dead
        decreases |probeOrder| - probeIdx
      {
        var id := probeOrder[probeIdx];
        probeIdx := probeIdx + 1;
        if id in members && members[id].liveness != Dead {
          return Some(members[id]);
        }
      }
      return None;
    }

    /** Every member but the node itself and the dead, once. */
    method RebuildProbeOrder()
      modifies this`probeOrder, this`probeIdx, this`probeOrderGen
      ensures ProbeList(members, selfID, probeOrder) && probeIdx == 0 && probeOrderGen == memberGen
    {
      probeOrder := [];
      var rest := members.Keys;
      while rest != {}
        invariant rest <= members.Keys
        invariant forall i, j :: 0 <= i < j < |probeOrder| ==> probeOrder[i] != probeOrder[j]
        invariant forall id :: id in probeOrder <==>
          id in members && id !in rest && id != selfID && members[id].liveness != Dead
        decreases rest
      {
        var id :| id in rest;
        if id != selfID && members[id].liveness != Dead {
          assert id !in probeOrder;
          probeOrder := probeOrder + [id];
        }
        rest := rest - {id};
      }
      probeIdx, probeOrderGen := 0, memberGen;
    }

    /** Updates to piggyback on a message. */
    method GetBroadcasts(limit: nat) returns (taken: seq<Member>, ghost sorted: seq<Broadcast>)
      requires Valid()
      modifies this`broadcasts
      ensures Valid() && |sorted| == |old(broadcasts)| && Sorting(old(broadcasts), sorted)
      ensures |taken| == (if limit < |sorted| then limit else |sorted|) && Positive(broadcasts)
      ensures forall i :: 0 <= i < |taken| ==> taken[i] == sorted[i].state
      ensures broadcasts == Leftover(sorted, |taken|, |sorted|)
      ensures Positive(old(broadcasts)) ==> Pending(broadcasts) == Pending(old(broadcasts)) - |taken|
    {
      hide TableOk, Pending, Sorting, ProbeList, Logged;
      var rest;
      taken, rest, sorted := TakeBroadcasts(broadcasts, limit);
      broadcasts := rest;
    }
  }

  // ----- steps on tables -----

  function Lookup(members: map<Bytes, Member>, id: Bytes): Option<Member> {
    if id in members then Some(members[id]) else None
  }

  /** The ring state that a newer descriptor gives a member. */
  function Placed(m: Option<Member>, id: Bytes, now: RingDescriptor, rd: Option<RingDescriptor>): Option<Member> {
    if m.Some? && rd.Some? && rd.value.version > now.version then
      Some(m.value.(ring := LastState(rd.value.members, id)))
    else m
  }

  /** No update raises suspicion of the node at the largest incarnation. */
  predicate NoWrap(us: seq<Member>, self: Bytes) {
    forall i :: 0 <= i < |us| ==> !(us[i].id == self && us[i].liveness != Alive && us[i].incarnation == U64 - 1)
  }

  lemma {:induction false} MergedThere(before: map<Bytes, Member>, after: map<Bytes, Member>, us: seq<Member>,
                                       id: Bytes, ring: RingState)
    requires Lookup(after, id) == MergedAll(Lookup(before, id), About(us, id), ring)
    ensures id in after <==> id in before || exists u :: u in us && u.id == id
    ensures id in after ==> Believed(Lookup(before, id), About(us, id), after[id])
  {
    hide Believed, About, Merged;
    AboutIs(us, id);
    var about := About(us, id);
    if about != [] {
      assert about[0] in about;
      MergedAllIsMax(Lookup(before, id), about, ring);
    } else if id in before {
      MergedAllIsMax(Lookup(before, id), about, ring);
    }
  }

  lemma {:induction false} SelfMerged(before: Member, us: seq<Member>, self: Bytes)
    requires before.liveness == Alive && NoWrap(us, self)
    ensures forall u :: u in us && u.id == self && u.liveness != Alive ==>
      u.incarnation < MergedSelfAll(before, About(us, self)).incarnation
  {
    hide About, MergedSelfAll;
    AboutIs(us, self);
    var about := About(us, self);
    forall i | 0 <= i < |about| ensures !(about[i].liveness != Alive && about[i].incarnation == U64 - 1) {
      assert about[i] in about;
      var j :| 0 <= j < |us| && us[j] == about[i];
    }
    SelfOutlives(before, about);
  }

  lemma {:induction false} StartMerge(before: map<Bytes, Member>, self: Bytes, us: seq<Member>)
    ensures forall id, ring :: Lookup(before, id) == MergedAll(Lookup(before, id), About(us[..0], id), ring)
    ensures self in before ==> before[self] == MergedSelfAll(before[self], About(us[..0], self))
  {
  }

  lemma {:induction false} MergeNext(before: map<Bytes, Member>, was: map<Bytes, Member>, self: Bytes,
                                     us: seq<Member>, i: nat, id: Bytes, ring: RingState, ringId: RingState)
    requires i < |us| && id != self && (us[i].id == id ==> ring == ringId)
    requires Lookup(was, id) == MergedAll(Lookup(before, id), About(us[..i], id), ringId)
    ensures Lookup(Table(was, self, us[i], ring), id) == MergedAll(Lookup(before, id), About(us[..i + 1], id), ringId)
  {
    hide Merged, MergedSelf;
    assert us[..i + 1][..i] == us[..i];
    var about := About(us[..i], id);
    assert About(us[..i + 1], id) == if us[i].id == id then about + [us[i]] else about + [];
    assert about + [] == about;
    MergedAppend(Lookup(before, id), about, us[i], ringId);
  }

  lemma {:induction false} SelfNext(before: Member, was: map<Bytes, Member>, self: Bytes, us: seq<Member>, i: nat,
                                    ring: RingState)
    requires i < |us| && self in was && was[self] == MergedSelfAll(before, About(us[..i], self))
    ensures Table(was, self, us[i], ring)[self] == MergedSelfAll(before, About(us[..i + 1], self))
  {
    hide MergedSelf;
    var heard := About(us[..i], self);
    assert us[..i + 1][..i] == us[..i] && us[..i + 1][i] == us[i];
    if us[i].id == self {
      assert About(us[..i + 1], self) == heard + [us[i]];
      assert (heard + [us[i]])[..|heard|] == heard;
    } else {
      assert About(us[..i + 1], self) == heard;
    }
  }

  /** The table with the ring states of some members taken from a descriptor. */
  function Restated(members: map<Bytes, Member>, ids: set<Bytes>, ms: seq<RingMember>): map<Bytes, Member> {
    map id | id in members :: if id in ids then members[id].(ring := LastState(ms, id)) else members[id]
  }

  lemma {:induction false} RestatedKeeps(members: map<Bytes, Member>, self: Bytes, deadSince: map<Bytes, int>,
                                         timers: set<Bytes>, was: seq<RingMember>, ms: seq<RingMember>)
    requires TableOk(members, self, deadSince, timers, was)
    ensures TableOk(Restated(members, members.Keys, ms), self, deadSince, timers, ms)
  {
    hide FirstState, LastState;
  }

  lemma {:induction false} RestatedShape(members: map<Bytes, Member>, ms: seq<RingMember>)
    ensures var r := Restated(members, members.Keys, ms);
      r.Keys == members.Keys && forall id :: id in members ==> r[id].liveness == members[id].liveness
  {
    hide LastState;
  }

  predicate Reaped(members: map<Bytes, Member>, deadSince: map<Bytes, int>, id: Bytes, now: int, timeout: int) {
    id in members && id in deadSince && now - deadSince[id] >= timeout && members[id].ring == RingNone
  }

  function Survivors(members: map<Bytes, Member>, deadSince: map<Bytes, int>, ids: set<Bytes>, now: int, timeout: int)
    : map<Bytes, Member>
  {
    map id | id in members && !(id in ids && Reaped(members, deadSince, id, now, timeout)) :: members[id]
  }

  lemma {:induction false} SurvivorsAre(members: map<Bytes, Member>, deadSince: map<Bytes, int>, now: int, timeout: int)
    ensures var r := Survivors(members, deadSince, deadSince.Keys, now, timeout);
      && (forall id :: id in r ==> id in members && r[id] == members[id])
      && (forall id :: id in members && id !in r <==>
            && id in members && id in deadSince && members[id].ring == RingNone && now - deadSince[id] >= timeout)
  {
  }

  lemma {:induction false} NobodyReaped(members: map<Bytes, Member>, deadSince: map<Bytes, int>, now: int, timeout: int)
    ensures Survivors(members, deadSince, deadSince.Keys - deadSince.Keys, now, timeout) == members
  {
  }

  lemma {:induction false} ReapNext(members: map<Bytes, Member>, deadSince: map<Bytes, int>, ids: set<Bytes>,
                                    id: Bytes, now: int, timeout: int)
    requires id in deadSince && id !in ids
    ensures var was, next := Survivors(members, deadSince, ids, now, timeout),
                             Survivors(members, deadSince, ids + {id}, now, timeout);
      id in was ==>
        && id in members && was[id] == members[id]
        && next == if Reaped(members, deadSince, id, now, timeout) then was - {id} else was
  {
  }

  lemma {:induction false} DeadThere(members: map<Bytes, Member>, self: Bytes, deadSince: map<Bytes, int>,
                                     timers: set<Bytes>, ms: seq<RingMember>, id: Bytes)
    requires TableOk(members, self, deadSince, timers, ms) && id in deadSince
    ensures id in members && members[id].liveness == Dead
  {
  }

  lemma {:induction false} ReapKeeps(members: map<Bytes, Member>, self: Bytes, deadSince: map<Bytes, int>,
                                     timers: set<Bytes>, ms: seq<RingMember>, id: Bytes)
    requires TableOk(members, self, deadSince, timers, ms) && id in deadSince
    ensures TableOk(members - {id}, self, deadSince - {id}, timers, ms)
  {
    hide FirstState, LastState;
  }
}
