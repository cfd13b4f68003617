/**
Little-endian fields inside byte buffers: what every encoder appends and every decoder
reads back at an offset.
*/
module Fields {
  import opened Bytes

  /** The bytes of piece stand in buf at offset off. */
  predicate At(buf: Bytes, off: nat, piece: Bytes) {
    off + |piece| <= |buf| && buf[off..off + |piece|] == piece
  }

  /** The little-endian number of w bytes at off. */
  function FieldAt(buf: Bytes, off: nat, w: nat): (n: nat)
    requires off + w <= |buf|
  {
    FromLittleEndian(buf[off..off + w])
  }

  lemma {:induction false} FieldBound(buf: Bytes, off: nat, w: nat)
    requires off + w <= |buf|
    ensures FieldAt(buf, off, w) < Pow256(w)
  {
    FromLittleEndianBound(buf[off..off + w]);
  }

  /** A buffer holds x + y exactly where it holds x and, right behind it, y. */
  /** A field holds the encoding of the number read from it. */
  lemma {:induction false} FieldHolds(buf: Bytes, off: nat, w: nat)
    requires off + w <= |buf|
    ensures At(buf, off, LittleEndian(FieldAt(buf, off, w), w))
  {
    hide LittleEndian;
    LittleEndianOfFrom(buf[off..off + w]);
  }

  lemma {:induction false} AtConcat(buf: Bytes, off: nat, x: Bytes, y: Bytes)
    ensures At(buf, off, x + y) <==> At(buf, off, x) && At(buf, off + |x|, y)
  {
    if off + |x| + |y| <= |buf| {
      var b := buf[off..off + |x| + |y|];
      assert b[..|x|] == buf[off..off + |x|];
      assert b[|x|..] == buf[off + |x|..off + |x| + |y|];
      assert b == b[..|x|] + b[|x|..];
      assert (x + y)[..|x|] == x && (x + y)[|x|..] == y;
    }
  }

  lemma {:induction false} AtWithin(buf: Bytes, off: nat, piece: Bytes)
    requires At(buf, off, piece)
    ensures off + |piece| <= |buf|
  {
  }

  lemma {:induction false} AtEmpty(buf: Bytes, off: nat)
    requires off <= |buf|
    ensures At(buf, off, [])
  {
  }

  lemma {:induction false} AtSelf(buf: Bytes)
    ensures At(buf, 0, buf)
  {
    assert buf[0..|buf|] == buf;
  }

  lemma {:induction false} AtPrefix(buf: Bytes, tail: Bytes)
    ensures At(buf + tail, 0, buf)
  {
    assert (buf + tail)[0..|buf|] == buf;
  }

  lemma {:induction false} AtWhole(pre: Bytes, piece: Bytes, post: Bytes)
    ensures At(pre + piece + post, |pre|, piece)
  {
    assert (pre + piece + post)[|pre|..|pre| + |piece|] == piece;
  }

  /** What stands inside a slice stands in the buffer. */
  lemma {:induction false} AtInner(buf: Bytes, off: nat, outer: Bytes, d: nat, piece: Bytes)
    requires At(buf, off, outer) && At(outer, d, piece)
    ensures At(buf, off + d, piece)
  {
    forall i | 0 <= i < |piece| ensures buf[off + d + i] == piece[i] {
      assert piece[i] == outer[d..d + |piece|][i] == outer[d + i];
      assert outer[d + i] == buf[off..off + |outer|][d + i];
    }
  }

  /** A field reads back the number written, modulo its width. */
  lemma {:induction false} FieldReads(buf: Bytes, off: nat, n: nat, w: nat)
    requires At(buf, off, LittleEndian(n, w))
    ensures FieldAt(buf, off, w) == n % Pow256(w)
    ensures n < Pow256(w) ==> FieldAt(buf, off, w) == n
  {
    hide Pow256, LittleEndian, FromLittleEndian;
    LittleEndianTruncates(n, w);
    if n < Pow256(w) { ModUnique(n, Pow256(w), 0, n); }
  }

  /** A field reads as a number exactly if the number's encoding stands there. */
  lemma {:induction false} FieldIff(buf: Bytes, off: nat, n: nat, w: nat)
    requires off + w <= |buf| && n < Pow256(w)
    ensures FieldAt(buf, off, w) == n <==> At(buf, off, LittleEndian(n, w))
  {
    hide LittleEndian, At;
    FieldHolds(buf, off, w);
    if At(buf, off, LittleEndian(n, w)) { FieldReads(buf, off, n, w); }
  }
}
