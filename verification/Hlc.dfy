/**
Hybrid logical clocks (hlc/clock.go, after section 3 of Kulkarni et al. 2014), one clock and
any number of nodes exchanging timestamps.
*/
module Hlc {
  import opened Bytes
  import opened Timestamps

  /** uint32 addition. */
  function Inc(n: Word32): Word32 {
    if n + 1 == U32 then 0 else n + 1
  }

  /** The send rule. */
  function Tick(last: Timestamp, pt: int, node: Bytes): Timestamp {
    if pt > last.wall then Timestamp(pt, 0, node) else Timestamp(last.wall, Inc(last.logical), node)
  }

  predicate TooFarAhead(maxDrift: int, received: Timestamp, pt: int) {
    maxDrift > 0 && received.wall - pt > maxDrift
  }

  function Highest(a: int, b: int, c: int): int {
    var ab := if b > a then b else a;
    if c > ab then c else ab
  }

  /** The receive rule. */
  function Merge(last: Timestamp, received: Timestamp, pt: int, node: Bytes): Timestamp {
    var wall := Highest(pt, last.wall, received.wall);
    var logical :=
      if wall == last.wall && wall == received.wall then
        Inc(if received.logical > last.logical then received.logical else last.logical)
      else if wall == last.wall then Inc(last.logical)
      else if wall == received.wall then Inc(received.logical)
      else 0;
    Timestamp(wall, logical, node)
  }

  /** The counter is at its end and physical time has not moved on. */
  predicate TickWraps(last: Timestamp, pt: int) {
    pt <= last.wall && last.logical == U32 - 1
  }

  /** A timestamp that supplies the new wall time has its counter at its end. */
  predicate MergeWraps(last: Timestamp, received: Timestamp, pt: int) {
    var wall := Highest(pt, last.wall, received.wall);
    || (wall == last.wall && last.logical == U32 - 1)
    || (wall == received.wall && received.logical == U32 - 1)
  }

  class Clock {
    const node: Bytes
    var last: Timestamp
    var maxDrift: int                  // not positive: unlimited

    constructor (node: Bytes, maxDrift: int)
      ensures this.node == node && last == ZERO && this.maxDrift == maxDrift
    {
      this.node, last, this.maxDrift := node, ZERO, maxDrift;
    }

    /** A new timestamp, later than the last exactly if the counter does not wrap; pt is the
        physical clock. */
    method Now(pt: int) returns (ts: Timestamp)
      modifies this`last
      ensures ts == last == Tick(old(last), pt, node) && ts.node == node
      ensures !TickWraps(old(last), pt) ==> forall c :: Later(old(last), c) && c.wall >= pt ==> NotEarlier(ts, c)
      ensures ts.wall >= pt && (Later(old(last), ts) <==> !TickWraps(old(last), pt))
    {
      TickLeast(last, pt, node);
      if pt > last.wall {
        last := Timestamp(pt, 0, node);
      } else {
        last := Timestamp(last.wall, Inc(last.logical), node);
      }
      ts := last;
    }

    /** A received timestamp: refused exactly if it is further ahead of physical time than a
        positive limit allows, otherwise the clock moves past both, no further than it must. */
    method Update(received: Timestamp, pt: int) returns (ok: bool)
      modifies this`last
      ensures ok <==> maxDrift <= 0 || received.wall <= pt + maxDrift
      ensures last == if ok then Merge(old(last), received, pt, node) else old(last)
      ensures ok ==> last.node == node && last.wall >= pt
      ensures ok && !MergeWraps(old(last), received, pt) ==>
        forall c :: Later(old(last), c) && Later(received, c) && c.wall >= pt ==> NotEarlier(last, c)
      ensures ok ==> (Later(old(last), last) && Later(received, last) <==> !MergeWraps(old(last), received, pt))
    {
      if maxDrift > 0 && received.wall - pt > maxDrift {
        return false;
      }
      MergeLeast(last, received, pt, node);
      var newWall := pt;
      if last.wall > newWall {
        newWall := last.wall;
      }
      if received.wall > newWall {
        newWall := received.wall;
      }
      var newLogical: Word32 := 0;
      if newWall == last.wall && newWall == received.wall {
        newLogical := last.logical;
        if received.logical > newLogical {
          newLogical := received.logical;
        }
        newLogical := Inc(newLogical);
      } else if newWall == last.wall {
        newLogical := Inc(last.logical);
      } else if newWall == received.wall {
        newLogical := Inc(received.logical);
      }
      last := Timestamp(newWall, newLogical, node);
      return true;
    }
  }

  /** Earlier by the clock parts alone, whatever the node ids. */
  predicate Later(a: Timestamp, b: Timestamp) {
    a.wall < b.wall || (a.wall == b.wall && a.logical < b.logical)
  }

  /** The send rule goes forward exactly if the counter does not wrap, and back if it does. */
  lemma {:induction false} TickForwardIff(last: Timestamp, pt: int, node: Bytes)
    ensures Later(last, Tick(last, pt, node)) <==> !TickWraps(last, pt)
    ensures TickWraps(last, pt) ==> Later(Tick(last, pt, node), last)
  {
    assert last.logical < U32;
  }

  /** The receive rule goes past both timestamps exactly if the counter does not wrap; if it
      does, one at its counter's end that supplied the wall time is left ahead. */
  lemma {:induction false} MergeForwardIff(last: Timestamp, received: Timestamp, pt: int, node: Bytes)
    ensures
      var r := Merge(last, received, pt, node);
      && (Later(last, r) && Later(received, r) <==> !MergeWraps(last, received, pt))
      && (r.wall == last.wall && last.logical == U32 - 1 ==> Later(r, last))
      && (r.wall == received.wall && received.logical == U32 - 1 ==> Later(r, received))
  {
    assert last.logical < U32 && received.logical < U32;
  }

  /** Without a wrap the send rule gives the least timestamp that is later than the last and not
      behind physical time; wrapping, it starts counting again at the same wall time. */
  lemma {:induction false} TickLeast(last: Timestamp, pt: int, node: Bytes)
    ensures var r := Tick(last, pt, node);
      && r.node == node && r.wall >= pt
      && (!TickWraps(last, pt) ==> forall c :: Later(last, c) && c.wall >= pt ==> NotEarlier(r, c))
      && (TickWraps(last, pt) ==> r.wall == last.wall && r.logical == 0)
  {
    assert last.logical < U32;
  }

  /** Without a wrap the receive rule gives the least timestamp that is later than both and not
      behind physical time; wrapping, it starts counting again at the same wall time. */
  lemma {:induction false} MergeLeast(last: Timestamp, received: Timestamp, pt: int, node: Bytes)
    ensures var r := Merge(last, received, pt, node);
      && r.node == node && r.wall >= pt
      && (!MergeWraps(last, received, pt) ==>
            forall c :: Later(last, c) && Later(received, c) && c.wall >= pt ==> NotEarlier(r, c))
      && (MergeWraps(last, received, pt) ==>
            r.logical == 0 && r.wall >= last.wall && r.wall >= received.wall && r.wall in {last.wall, received.wall})
  {
    assert last.logical < U32 && received.logical < U32;
  }

  // ----- any number of nodes -----

  /** A step of the system: a node issues a timestamp, or receives one issued at step from. */
  datatype Event =
    | Issue(node: Bytes, pt: int)
    | Receive(node: Bytes, pt: int, from: nat)

  /** The node's clock after the first n steps; drift is what each node allows. */
  function LastOf(es: seq<Event>, n: nat, node: Bytes, drift: Bytes -> int): Timestamp
    requires n <= |es|
    decreases n, 0
  {
    if n == 0 then ZERO
    else if es[n - 1].node != node then LastOf(es, n - 1, node, drift)
    else StampOf(es, n - 1, drift)
  }

  /** The clock of the acting node after step i; for an Issue, the timestamp issued. */
  function StampOf(es: seq<Event>, i: nat, drift: Bytes -> int): Timestamp
    requires i < |es|
    decreases i, 1
  {
    var e := es[i];
    var last := LastOf(es, i, e.node, drift);
    match e
    case Issue(_, pt) => Tick(last, pt, e.node)
    case Receive(_, pt, from) =>
      if from >= i then last
      else
        var ts := StampOf(es, from, drift);
        if TooFarAhead(drift(e.node), ts, pt) then last else Merge(last, ts, pt, e.node)
  }

  /** What is received was issued before. */
  predicate IsRun(es: seq<Event>) {
    forall i :: 0 <= i < |es| && es[i].Receive? ==> es[i].from < i && es[es[i].from].Issue?
  }

  /** The step moved its clock: it was not a refused receive. */
  predicate Effective(es: seq<Event>, i: nat, drift: Bytes -> int) {
    && i < |es|
    && (es[i].Receive? ==> es[i].from < i && !TooFarAhead(drift(es[i].node), StampOf(es, es[i].from, drift), es[i].pt))
  }

  /** Every issue moves its clock, and a receive does exactly if what it received is within the
      node's drift; any other step leaves the clock as it was. */
  lemma {:induction false} EffectiveIff(es: seq<Event>, i: nat, drift: Bytes -> int)
    requires IsRun(es) && i < |es|
    ensures Effective(es, i, drift) <==>
      || es[i].Issue?
      || drift(es[i].node) <= 0
      || StampOf(es, es[i].from, drift).wall <= es[i].pt + drift(es[i].node)
    ensures !Effective(es, i, drift) ==> StampOf(es, i, drift) == LastOf(es, i, es[i].node, drift)
  {
    hide LastOf;
  }

  /** Step i happens before step j: by program order, by a message, or through another step. */
  ghost predicate HappensBefore(es: seq<Event>, i: nat, j: nat, drift: Bytes -> int)
    ensures HappensBefore(es, i, j, drift) ==> i < j < |es|
    decreases j
  {
    && i < j < |es| && Effective(es, i, drift) && Effective(es, j, drift)
    && (|| es[i].node == es[j].node
        || (es[j].Receive? && (es[j].from == i || HappensBefore(es, i, es[j].from, drift)))
        || (exists k :: i < k < j && es[k].node == es[j].node && HappensBefore(es, i, k, drift)))
  }

  /** No counter exceeds the number of steps taken. */
  lemma {:induction false} LogicalBound(es: seq<Event>, i: nat, drift: Bytes -> int)
    requires i < |es|
    ensures StampOf(es, i, drift).logical <= i + 1
    decreases i, 1
  {
    LastBound(es, i, es[i].node, drift);
    if es[i].Receive? && es[i].from < i { LogicalBound(es, es[i].from, drift); }
  }

  lemma {:induction false} LastBound(es: seq<Event>, n: nat, node: Bytes, drift: Bytes -> int)
    requires n <= |es|
    ensures LastOf(es, n, node, drift).logical <= n
    decreases n, 0
  {
    if n > 0 {
      if es[n - 1].node == node { LogicalBound(es, n - 1, drift); } else { LastBound(es, n - 1, node, drift); }
    }
  }

  /** The step moves its clock and the counter wraps in doing so. */
  predicate Wraps(es: seq<Event>, i: nat, drift: Bytes -> int) {
    && Effective(es, i, drift)
    && var last := LastOf(es, i, es[i].node, drift);
       if es[i].Issue? then TickWraps(last, es[i].pt)
       else MergeWraps(last, StampOf(es, es[i].from, drift), es[i].pt)
  }

  /** None of the first n steps wraps. */
  ghost predicate Unwrapped(es: seq<Event>, n: nat, drift: Bytes -> int) {
    forall i :: 0 <= i < n && i < |es| ==> !Wraps(es, i, drift)
  }

  /** A run too short to count to the end of a counter never wraps. */
  lemma {:induction false} ShortUnwrapped(es: seq<Event>, n: nat, drift: Bytes -> int)
    requires n < U32
    ensures Unwrapped(es, n, drift)
  {
    hide StampOf, LastOf;
    forall i | 0 <= i < n && i < |es| ensures !Wraps(es, i, drift) {
      LastBound(es, i, es[i].node, drift);
      if es[i].Receive? && es[i].from < i { LogicalBound(es, es[i].from, drift); }
    }
  }

  predicate NotEarlier(a: Timestamp, b: Timestamp) {
    a.wall < b.wall || (a.wall == b.wall && a.logical <= b.logical)
  }

  /** An effective step moves its node's clock past what it knew, exactly if it does not wrap. */
  lemma {:induction false} StepForwardIff(es: seq<Event>, i: nat, drift: Bytes -> int)
    requires Effective(es, i, drift)
    ensures !Wraps(es, i, drift) <==>
      && Later(LastOf(es, i, es[i].node, drift), StampOf(es, i, drift))
      && (es[i].Receive? ==> Later(StampOf(es, es[i].from, drift), StampOf(es, i, drift)))
  {
    hide LastOf, Merge, Tick, TickWraps, MergeWraps, Later;
    var last := LastOf(es, i, es[i].node, drift);
    if es[i].Issue? {
      TickForwardIff(last, es[i].pt, es[i].node);
    } else {
      MergeForwardIff(last, StampOf(es, es[i].from, drift), es[i].pt, es[i].node);
    }
  }

  /** A node's clock does not go back while no step wraps. */
  lemma {:induction false} Monotone(es: seq<Event>, i: nat, n: nat, drift: Bytes -> int)
    requires i < n <= |es| && Unwrapped(es, n, drift)
    ensures NotEarlier(StampOf(es, i, drift), LastOf(es, n, es[i].node, drift))
    decreases n
  {
    hide StampOf, Wraps;
    var node := es[i].node;
    if n - 1 > i {
      Monotone(es, i, n - 1, drift);
      if es[n - 1].node == node { StepNotBack(es, n - 1, drift); }
    }
  }

  lemma {:induction false} StepNotBack(es: seq<Event>, i: nat, drift: Bytes -> int)
    requires i < |es| && !Wraps(es, i, drift)
    ensures NotEarlier(LastOf(es, i, es[i].node, drift), StampOf(es, i, drift))
  {
    hide LastOf, Wraps;
    if Effective(es, i, drift) { StepForwardIff(es, i, drift); }
  }

  /** If one step happens before another and no step up to it wraps, its timestamp precedes
      the other's. */
  lemma {:induction false} CausalOrder(es: seq<Event>, i: nat, j: nat, drift: Bytes -> int)
    requires HappensBefore(es, i, j, drift) && Unwrapped(es, j + 1, drift)
    ensures Later(StampOf(es, i, drift), StampOf(es, j, drift))
    ensures Precedes(StampOf(es, i, drift), StampOf(es, j, drift))
    decreases j
  {
    hide StampOf, LastOf, Wraps;
    StepForwardIff(es, j, drift);
    if es[i].node == es[j].node {
      Monotone(es, i, j, drift);
    } else if es[j].Receive? && (es[j].from == i || HappensBefore(es, i, es[j].from, drift)) {
      if es[j].from != i { CausalOrder(es, i, es[j].from, drift); }
    } else {
      var k :| i < k < j && es[k].node == es[j].node && HappensBefore(es, i, k, drift);
      CausalOrder(es, i, k, drift);
      Monotone(es, k, j, drift);
    }
  }

  /** Every step that happens before another has the earlier timestamp. */
  ghost predicate Causal(es: seq<Event>, drift: Bytes -> int) {
    forall i: nat, j: nat :: HappensBefore(es, i, j, drift) ==>
      Later(StampOf(es, i, drift), StampOf(es, j, drift))
  }

  /** A run orders every pair of causally related steps exactly if none of its steps wraps. */
  lemma {:induction false} CausalIff(es: seq<Event>, drift: Bytes -> int)
    requires IsRun(es)
    ensures Causal(es, drift) <==> Unwrapped(es, |es|, drift)
  {
    hide StampOf, LastOf, Effective, Wraps, HappensBefore;
    if Unwrapped(es, |es|, drift) {
      forall i: nat, j: nat | HappensBefore(es, i, j, drift)
        ensures Later(StampOf(es, i, drift), StampOf(es, j, drift))
      {
        CausalOrder(es, i, j, drift);
      }
    } else {
      var j :| 0 <= j < |es| && Wraps(es, j, drift);
      var i := WrapBreaks(es, j, drift);
    }
  }

  /** A step that wraps is not later than some step that happened before it. */
  lemma {:induction false} WrapBreaks(es: seq<Event>, j: nat, drift: Bytes -> int) returns (i: nat)
    requires IsRun(es) && j < |es| && Wraps(es, j, drift)
    ensures HappensBefore(es, i, j, drift)
    ensures !Later(StampOf(es, i, drift), StampOf(es, j, drift))
  {
    hide LastOf, Later, Tick, Merge;
    var node := es[j].node;
    var last := LastOf(es, j, node, drift);
    StepForwardIff(es, j, drift);
    if es[j].Receive? && !Later(StampOf(es, es[j].from, drift), StampOf(es, j, drift)) {
      i := es[j].from;
    } else {
      WrapAtEnd(es, j, drift);
      i := LastStep(es, j, node, drift);
    }
  }

  /** If a wrapping step does leave what it received behind, its own clock was at its end. */
  lemma {:induction false} WrapAtEnd(es: seq<Event>, j: nat, drift: Bytes -> int)
    requires j < |es| && Wraps(es, j, drift)
    requires es[j].Receive? ==> Later(StampOf(es, es[j].from, drift), StampOf(es, j, drift))
    ensures LastOf(es, j, es[j].node, drift).logical == U32 - 1
  {
    hide LastOf;
    if es[j].Receive? {
      MergeForwardIff(LastOf(es, j, es[j].node, drift), StampOf(es, es[j].from, drift), es[j].pt, es[j].node);
    }
  }

  /** A clock that has counted was set by an effective step of its node. */
  lemma {:induction false} LastStep(es: seq<Event>, n: nat, node: Bytes, drift: Bytes -> int) returns (i: nat)
    requires n <= |es| && LastOf(es, n, node, drift).logical > 0
    ensures i < n && es[i].node == node && Effective(es, i, drift)
    ensures StampOf(es, i, drift) == LastOf(es, n, node, drift)
  {
    if es[n - 1].node == node && Effective(es, n - 1, drift) {
      i := n - 1;
    } else {
      i := LastStep(es, n - 1, node, drift);
    }
  }

  /** No two issued timestamps are equal while no step wraps. */
  lemma {:induction false} IssuedDistinct(es: seq<Event>, i: nat, j: nat, drift: Bytes -> int)
    requires i < j < |es| && es[i].Issue? && es[j].Issue? && Unwrapped(es, j + 1, drift)
    ensures StampOf(es, i, drift) != StampOf(es, j, drift)
  {
    hide LastOf, Wraps;
    if es[i].node == es[j].node {
      Monotone(es, i, j, drift);
      StepForwardIff(es, j, drift);
    } else {
      IssueNode(es, i, drift);
      IssueNode(es, j, drift);
    }
  }

  lemma {:induction false} IssueNode(es: seq<Event>, i: nat, drift: Bytes -> int)
    requires i < |es| && es[i].Issue?
    ensures StampOf(es, i, drift).node == es[i].node
  {
    hide LastOf;
  }

  /** The node's largest physical reading in the first n steps, at least zero. */
  function Reading(es: seq<Event>, n: nat, node: Bytes): int
    requires n <= |es|
  {
    if n == 0 then 0
    else
      var r := Reading(es, n - 1, node);
      if es[n - 1].node == node && es[n - 1].pt > r then es[n - 1].pt else r
  }

  lemma {:induction false} ReadingIs(es: seq<Event>, n: nat, node: Bytes)
    requires n <= |es|
    ensures var r := Reading(es, n, node);
      && r >= 0 && (forall i :: 0 <= i < n && es[i].node == node ==> es[i].pt <= r)
      && (r == 0 || exists i :: 0 <= i < n && es[i].node == node && es[i].pt == r)
  {
    if n > 0 { ReadingIs(es, n - 1, node); }
  }

  /** A node's clock is never more than its allowed drift past its largest physical reading, and not
      behind the reading of a step it has just made. */
  lemma {:induction false} DriftBound(es: seq<Event>, n: nat, node: Bytes, drift: Bytes -> int)
    requires n <= |es| && drift(node) > 0
    ensures LastOf(es, n, node, drift).wall <= Reading(es, n, node) + drift(node)
    ensures n > 0 && es[n - 1].node == node && Effective(es, n - 1, drift) ==>
      LastOf(es, n, node, drift).wall >= es[n - 1].pt
  {
    hide Inc;
    if n > 0 { DriftBound(es, n - 1, node, drift); }
  }
}
