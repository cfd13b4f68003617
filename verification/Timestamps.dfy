/**
Timestamps of the hybrid logical clock and their total order (hlc/timestamp.go).
*/
module Timestamps {
  import opened Bytes

  datatype Timestamp = Timestamp(wall: int, logical: Word32, node: Bytes)

  const ZERO := Timestamp(0, 0, [])

  predicate Precedes(a: Timestamp, b: Timestamp) {
    if a.wall != b.wall then a.wall < b.wall
    else if a.logical != b.logical then a.logical < b.logical
    else Less(a.node, b.node)
  }

  /** Wall time counts first, then the counter, then the node id. */
  lemma {:induction false} PrecedesParts(a: Timestamp, b: Timestamp)
    ensures a.wall < b.wall || (a.wall == b.wall && a.logical < b.logical) ==> Precedes(a, b) && !Precedes(b, a)
    ensures a.wall == b.wall && a.logical == b.logical ==> (Precedes(a, b) <==> Less(a.node, b.node))
  {
    hide Less;
  }

  /** A strict total order, so that equality is what is left when neither precedes. */
  lemma {:induction false} PrecedesTotal(a: Timestamp, b: Timestamp)
    ensures !Precedes(a, a) && !(Precedes(a, b) && Precedes(b, a)) && (Precedes(a, b) || Precedes(b, a) || a == b)
  {
    LessIrreflexive(a.node);
    if a.node != b.node { LessConnected(a.node, b.node); }
    if Less(a.node, b.node) { LessAsymmetric(a.node, b.node); }
  }

  lemma {:induction false} PrecedesTransitive(a: Timestamp, b: Timestamp, c: Timestamp)
    requires Precedes(a, b) && Precedes(b, c)
    ensures Precedes(a, c)
  {
    hide Less;
    if a.wall == b.wall == c.wall && a.logical == b.logical == c.logical { LessTransitive(a.node, b.node, c.node); }
  }

  function Max(a: Timestamp, b: Timestamp): Timestamp {
    if Precedes(a, b) then b else a
  }
}
