/**
What a gossip update does to what is known about a node (cluster/gossip.go): a higher
incarnation wins, and at the same incarnation the worse liveness.
*/
module SwimMerge {
  import opened Optional
  import opened Bytes

  type Word64 = n: nat | n < U64

  datatype Liveness = Alive | Suspect | Dead

  datatype RingState = RingNone | RingJoining | RingActive

  datatype Member = Member(id: Bytes, addr: Bytes, liveness: Liveness, ring: RingState, incarnation: Word64)

  function Rank(l: Liveness): nat {
    match l
    case Alive => 0
    case Suspect => 1
    case Dead => 2
  }

  predicate SameStanding(a: Member, b: Member) {
    a.incarnation == b.incarnation && a.liveness == b.liveness
  }

  /** An update about another node. The ring state is never taken from gossip. */
  function Merged(local: Option<Member>, u: Member, ring: RingState): Member {
    match local
    case None => u.(ring := ring)
    case Some(l) =>
      if u.incarnation > l.incarnation then u.(ring := l.ring)
      else if u.incarnation == l.incarnation && Rank(u.liveness) > Rank(l.liveness) then l.(liveness := u.liveness)
      else l
  }

  function MergedAll(local: Option<Member>, us: seq<Member>, ring: RingState): Option<Member> {
    if us == [] then local else Some(Merged(MergedAll(local, us[..|us| - 1], ring), us[|us| - 1], ring))
  }

  /** The outcome by the names of the states: a higher incarnation replaces everything but the
      ring state; at the same one the node is dead if either says so and alive only if both do. */
  lemma {:induction false} MergedNames(l: Member, u: Member, ring: RingState)
    ensures Merged(None, u, ring) == Member(u.id, u.addr, u.liveness, ring, u.incarnation)
    ensures u.incarnation > l.incarnation ==>
      Merged(Some(l), u, ring) == Member(u.id, u.addr, u.liveness, l.ring, u.incarnation)
    ensures u.incarnation < l.incarnation ==> Merged(Some(l), u, ring) == l
    ensures u.incarnation == l.incarnation ==>
      var r := Merged(Some(l), u, ring);
      && r == Member(l.id, l.addr, r.liveness, l.ring, l.incarnation)
      && (r.liveness == Dead <==> l.liveness == Dead || u.liveness == Dead)
      && (r.liveness == Alive <==> l.liveness == Alive && u.liveness == Alive)
  {
    assert Rank(Alive) < Rank(Suspect) < Rank(Dead);
  }

  /** A record that was known before or came in an update. */
  ghost predicate Heard(local: Option<Member>, us: seq<Member>, m: Member) {
    local == Some(m) || m in us
  }

  /** What to believe after hearing all that: the highest incarnation, and of the records with it
      Dead if any says Dead, and Alive only if all say Alive. */
  ghost predicate Believed(local: Option<Member>, us: seq<Member>, r: Member) {
    && (forall m :: Heard(local, us, m) ==> m.incarnation <= r.incarnation)
    && (exists m :: Heard(local, us, m) && SameStanding(m, r))
    && (exists m :: Heard(local, us, m) && m.incarnation == r.incarnation && m.addr == r.addr)
    && (r.liveness == Dead <==>
          exists m :: Heard(local, us, m) && m.incarnation == r.incarnation && m.liveness == Dead)
    && (r.liveness == Alive <==>
          forall m :: Heard(local, us, m) && m.incarnation == r.incarnation ==> m.liveness == Alive)
  }

  lemma {:induction false} BelievedNext(local: Option<Member>, us: seq<Member>, p: Member, u: Member, ring: RingState)
    requires Believed(local, us, p)
    ensures Believed(local, us + [u], Merged(Some(p), u, ring))
  {
    hide Merged;
    MergedNames(p, u, ring);
    assert forall m :: Heard(local, us + [u], m) <==> Heard(local, us, m) || m == u;
  }

  lemma {:induction false} BelievedAnyRing(local: Option<Member>, us: seq<Member>, r: Member, ring: RingState)
    requires Believed(local, us, r)
    ensures Believed(local, us, r.(ring := ring))
  {
    assert forall m :: SameStanding(m, r) <==> SameStanding(m, r.(ring := ring));
  }

  lemma {:induction false} BelievedFirst(l: Member, u: Member, ring: RingState)
    ensures Believed(Some(l), [], l) && Believed(None, [u], Merged(None, u, ring))
  {
    assert Heard(Some(l), [], l) && Heard(None, [u], u);
  }

  lemma {:induction false} MergedAppend(local: Option<Member>, us: seq<Member>, u: Member, ring: RingState)
    ensures MergedAll(local, us + [u], ring) == Some(Merged(MergedAll(local, us, ring), u, ring))
  {
    hide Merged;
    assert (us + [u])[..|us|] == us;
  }

  /** Whatever the updates are, the outcome is what to believe, with the ring state the node had. */
  lemma {:induction false} MergedAllIsMax(local: Option<Member>, us: seq<Member>, ring: RingState)
    requires local.Some? || us != []
    ensures var r := MergedAll(local, us, ring);
      && r.Some? && Believed(local, us, r.value)
      && r.value.ring == if local.Some? then local.value.ring else ring
  {
    if us == [] {
      BelievedFirst(local.value, local.value, ring);
    } else {
      hide Believed, Merged, MergedAll;
      var n := |us| - 1;
      var before, u := us[..n], us[n];
      assert us == before + [u];
      MergedAppend(local, before, u, ring);
      if local.Some? || n > 0 {
        MergedAllIsMax(local, before, ring);
        var p := MergedAll(local, before, ring).value;
        MergedNames(p, u, ring);
        BelievedNext(local, before, p, u, ring);
      } else {
        MergedNone(ring);
        assert before == [] && [] + [u] == [u];
        MergedNames(u, u, ring);
        BelievedFirst(u, u, ring);
      }
    }
  }

  lemma {:induction false} MergedNone(ring: RingState)
    ensures MergedAll(None, [], ring) == None
  {
  }

  /** Any two orders of the same updates, repeated or not, end with the same standing. */
  lemma {:induction false} OrderFree(local: Option<Member>, us: seq<Member>, vs: seq<Member>, ring: RingState)
    requires (forall u :: u in us <==> u in vs) && (local.Some? || us != [])
    ensures MergedAll(local, us, ring).Some? && MergedAll(local, vs, ring).Some?
    ensures SameStanding(MergedAll(local, us, ring).value, MergedAll(local, vs, ring).value)
  {
    assert us != [] ==> us[0] in vs;
    MergedAllIsMax(local, us, ring);
    MergedAllIsMax(local, vs, ring);
    BelievedOnce(local, us, vs, MergedAll(local, us, ring).value, MergedAll(local, vs, ring).value);
  }

  lemma {:induction false} BelievedOnce(local: Option<Member>, us: seq<Member>, vs: seq<Member>, r: Member, s: Member)
    requires (forall u :: u in us <==> u in vs) && Believed(local, us, r) && Believed(local, vs, s)
    ensures SameStanding(r, s)
  {
    assert forall m :: Heard(local, us, m) <==> Heard(local, vs, m);
  }

  /** The updates of a list about one node, in order. */
  function About(us: seq<Member>, id: Bytes): seq<Member> {
    if us == [] then [] else About(us[..|us| - 1], id) + (if us[|us| - 1].id == id then [us[|us| - 1]] else [])
  }

  lemma {:induction false} AboutIs(us: seq<Member>, id: Bytes)
    ensures forall m :: m in About(us, id) <==> m in us && m.id == id
  {
    if us != [] {
      AboutIs(us[..|us| - 1], id);
      assert us == us[..|us| - 1] + [us[|us| - 1]];
    }
  }

  // ----- the node itself -----

  function Next(n: Word64): Word64 {
    if n + 1 == U64 then 0 else n + 1
  }

  /** An update about the node that applies it: suspicion is refuted with a higher incarnation. */
  function MergedSelf(self: Member, u: Member): Member {
    if u.liveness != Alive then
      if u.incarnation >= self.incarnation then self.(incarnation := Next(u.incarnation), liveness := Alive) else self
    else if u.incarnation > self.incarnation then u.(ring := self.ring, liveness := self.liveness)
    else self
  }

  function MergedSelfAll(self: Member, us: seq<Member>): Member {
    if us == [] then self else MergedSelf(MergedSelfAll(self, us[..|us| - 1]), us[|us| - 1])
  }

  /** Nobody suspects the node at the largest incarnation. */
  predicate Answerable(us: seq<Member>) {
    forall i :: 0 <= i < |us| ==> !(us[i].liveness != Alive && us[i].incarnation == U64 - 1)
  }

  /** The node outlives all that is said of it: its incarnation becomes the least that is no lower
      than any heard with Alive and higher than any heard with suspicion, in whatever order. */
  lemma {:induction false} SelfOutlives(self: Member, us: seq<Member>)
    requires self.liveness == Alive && Answerable(us)
    ensures var r := MergedSelfAll(self, us);
      && r.liveness == Alive && r.ring == self.ring && self.incarnation <= r.incarnation
      && (forall u :: u in us ==> u.incarnation <= r.incarnation)
      && (forall u :: u in us && u.liveness != Alive ==> u.incarnation < r.incarnation)
      && (r.incarnation == self.incarnation
          || exists u :: u in us && r.incarnation == u.incarnation + if u.liveness == Alive then 0 else 1)
  {
    if us != [] {
      var n := |us| - 1;
      assert us == us[..n] + [us[n]];
      SelfOutlives(self, us[..n]);
      var p, r := MergedSelfAll(self, us[..n]), MergedSelfAll(self, us);
      if r.incarnation == p.incarnation {
        if p.incarnation != self.incarnation {
          var u :| u in us[..n] && p.incarnation == u.incarnation + if u.liveness == Alive then 0 else 1;
          assert u in us;
        }
      } else {
        assert us[n] in us && r.incarnation == us[n].incarnation + if us[n].liveness == Alive then 0 else 1;
      }
    }
  }

  /** The node's own incarnation falls exactly when suspicion arrives at the largest incarnation,
      where the counter wraps. */
  lemma {:induction false} SelfFallsIff(self: Member, u: Member)
    requires self.liveness == Alive
    ensures MergedSelf(self, u).liveness == Alive
    ensures MergedSelf(self, u).incarnation < self.incarnation <==>
      u.liveness != Alive && u.incarnation == U64 - 1 && self.incarnation > 0
  {
    assert self.incarnation < U64;
  }

  // ----- ring descriptors -----

  datatype RingMember = RingMember(id: Bytes, addr: Bytes, state: RingState)

  datatype RingDescriptor = RingDescriptor(version: nat, members: seq<RingMember>)

  /** The state of a node by the first entry for it, as new members are given it. */
  function FirstState(ms: seq<RingMember>, id: Bytes): RingState {
    if ms == [] then RingNone else if ms[0].id == id then ms[0].state else FirstState(ms[1..], id)
  }

  /** By the last entry for it, as existing members are given it. */
  function LastState(ms: seq<RingMember>, id: Bytes): RingState {
    if ms == [] then RingNone
    else if ms[|ms| - 1].id == id then ms[|ms| - 1].state
    else LastState(ms[..|ms| - 1], id)
  }

  predicate DistinctMembers(ms: seq<RingMember>) {
    forall i, j :: 0 <= i < j < |ms| ==> ms[i].id != ms[j].id
  }

  /** Entry i is the first for the node. */
  ghost predicate FirstFor(ms: seq<RingMember>, id: Bytes, i: nat) {
    i < |ms| && ms[i].id == id && forall k :: 0 <= k < i ==> ms[k].id != id
  }

  /** Entry i is the last for the node. */
  ghost predicate LastFor(ms: seq<RingMember>, id: Bytes, i: nat) {
    i < |ms| && ms[i].id == id && forall k :: i < k < |ms| ==> ms[k].id != id
  }

  /** The node's first and last entries, if it has any, carry the same state. */
  ghost predicate SameEnds(ms: seq<RingMember>, id: Bytes) {
    forall i: nat, j: nat :: FirstFor(ms, id, i) && LastFor(ms, id, j) ==> ms[i].state == ms[j].state
  }

  lemma {:induction false} FirstIs(ms: seq<RingMember>, id: Bytes, i: nat)
    requires FirstFor(ms, id, i)
    ensures FirstState(ms, id) == ms[i].state
  {
    if i > 0 { FirstIs(ms[1..], id, i - 1); }
  }

  lemma {:induction false} LastIs(ms: seq<RingMember>, id: Bytes, i: nat)
    requires LastFor(ms, id, i)
    ensures LastState(ms, id) == ms[i].state
  {
    if i < |ms| - 1 { LastIs(ms[..|ms| - 1], id, i); }
  }

  lemma {:induction false} FirstUnlisted(ms: seq<RingMember>, id: Bytes)
    requires forall i :: 0 <= i < |ms| ==> ms[i].id != id
    ensures FirstState(ms, id) == RingNone
  {
    if ms != [] { FirstUnlisted(ms[1..], id); }
  }

  lemma {:induction false} LastUnlisted(ms: seq<RingMember>, id: Bytes)
    requires forall i :: 0 <= i < |ms| ==> ms[i].id != id
    ensures LastState(ms, id) == RingNone
  {
    if ms != [] { LastUnlisted(ms[..|ms| - 1], id); }
  }

  lemma {:induction false} SomeFirst(ms: seq<RingMember>, id: Bytes, n: nat) returns (i: nat)
    requires n < |ms| && ms[n].id == id
    ensures FirstFor(ms, id, i)
  {
    if k :| 0 <= k < n && ms[k].id == id { i := SomeFirst(ms, id, k); } else { i := n; }
  }

  lemma {:induction false} SomeLast(ms: seq<RingMember>, id: Bytes, n: nat) returns (i: nat)
    requires n < |ms| && ms[n].id == id
    ensures LastFor(ms, id, i)
    decreases |ms| - n
  {
    if k :| n < k < |ms| && ms[k].id == id { i := SomeLast(ms, id, k); } else { i := n; }
  }

  /** Both lookups agree on a node exactly if its first and last entries carry the same state. */
  lemma {:induction false} LookupsAgreeIff(ms: seq<RingMember>, id: Bytes)
    ensures FirstState(ms, id) == LastState(ms, id) <==> SameEnds(ms, id)
  {
    hide FirstState, LastState;
    if n :| 0 <= n < |ms| && ms[n].id == id {
      var i := SomeFirst(ms, id, n);
      var j := SomeLast(ms, id, n);
      FirstIs(ms, id, i);
      LastIs(ms, id, j);
    } else {
      FirstUnlisted(ms, id);
      LastUnlisted(ms, id);
    }
  }

  /** In particular with distinct ids. */
  lemma {:induction false} DistinctSameEnds(ms: seq<RingMember>, id: Bytes)
    requires DistinctMembers(ms)
    ensures SameEnds(ms, id)
  {
    forall i: nat, j: nat | FirstFor(ms, id, i) && LastFor(ms, id, j) ensures ms[i].state == ms[j].state {
      assert i == j;
    }
  }
}
