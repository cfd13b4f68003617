/**
Byte strings: the lexicographic order of Go's bytes.Compare and the fixed-width
integer encodings of encoding/binary.
*/
module Bytes {

  type Byte = b: int | 0 <= b < 256
  type Bytes = seq<Byte>

  // ----- order -----

  /** bytes.Compare(a, b) < 0. */
  predicate Less(a: Bytes, b: Bytes) {
    if b == [] then false
    else if a == [] then true
    else if a[0] != b[0] then a[0] < b[0]
    else Less(a[1..], b[1..])
  }

  /** bytes.Compare(a, b) <= 0. */
  predicate LessEq(a: Bytes, b: Bytes) {
    !Less(b, a)
  }

  /** The strings agree up to i, where a ends or has the smaller byte. */
  ghost predicate DecidedAt(a: Bytes, b: Bytes, i: nat) {
    i <= |a| && i < |b| && a[..i] == b[..i] && (i == |a| || a[i] < b[i])
  }

  lemma {:induction false} LessIff(a: Bytes, b: Bytes)
    ensures Less(a, b) <==> exists i :: DecidedAt(a, b, i)
  {
    if Less(a, b) {
      var i := WhereLess(a, b);
    }
    if i :| DecidedAt(a, b, i) { DecidedLess(a, b, i); }
  }

  lemma {:induction false} WhereLess(a: Bytes, b: Bytes) returns (i: nat)
    requires Less(a, b)
    ensures DecidedAt(a, b, i)
  {
    i := 0;
    if a != [] && a[0] == b[0] {
      var j := WhereLess(a[1..], b[1..]);
      i := j + 1;
      assert a[..i] == [a[0]] + a[1..][..j] && b[..i] == [b[0]] + b[1..][..j];
    }
  }

  lemma {:induction false} DecidedLess(a: Bytes, b: Bytes, i: nat)
    requires DecidedAt(a, b, i)
    ensures Less(a, b)
  {
    if i > 0 {
      assert a[0] == a[..i][0] == b[..i][0] == b[0];
      assert a[1..][..i - 1] == a[..i][1..] && b[1..][..i - 1] == b[..i][1..];
      DecidedLess(a[1..], b[1..], i - 1);
    }
  }

  lemma {:induction false} LessIrreflexive(a: Bytes)
    ensures !Less(a, a)
  {
    if a != [] { LessIrreflexive(a[1..]); }
  }

  lemma {:induction false} LessTransitive(a: Bytes, b: Bytes, c: Bytes)
    requires Less(a, b) && Less(b, c)
    ensures Less(a, c)
  {
    if a != [] && a[0] == b[0] && b[0] == c[0] {
      LessTransitive(a[1..], b[1..], c[1..]);
    }
  }

  lemma {:induction false} LessConnected(a: Bytes, b: Bytes)
    requires a != b
    ensures Less(a, b) != Less(b, a)
  {
    if a != [] && b != [] && a[0] == b[0] {
      assert a == [a[0]] + a[1..] && b == [b[0]] + b[1..];
      LessConnected(a[1..], b[1..]);
    }
  }

  lemma {:induction false} LessAsymmetric(a: Bytes, b: Bytes)
    requires Less(a, b)
    ensures !Less(b, a) && a != b
  {
    if a == b { LessIrreflexive(a); } else { LessConnected(a, b); }
  }

  lemma {:induction false} LessEqLess(a: Bytes, b: Bytes, c: Bytes)
    requires LessEq(a, b) && Less(b, c)
    ensures Less(a, c)
  {
    if a != b {
      LessConnected(a, b);
      LessTransitive(a, b, c);
    }
  }

  lemma {:induction false} LessLessEq(a: Bytes, b: Bytes, c: Bytes)
    requires Less(a, b) && LessEq(b, c)
    ensures Less(a, c)
  {
    if b != c {
      LessConnected(b, c);
      LessTransitive(a, b, c);
    }
  }

  lemma {:induction false} LessEqTransitive(a: Bytes, b: Bytes, c: Bytes)
    requires LessEq(a, b) && LessEq(b, c)
    ensures LessEq(a, c)
  {
    if Less(c, a) { LessLessEq(c, a, b); }
  }

  predicate ProperPrefix(a: Bytes, b: Bytes) {
    a < b
  }

  /** A common prefix does not take part in the comparison. */
  lemma {:induction false} LessCommonPrefix(p: Bytes, a: Bytes, b: Bytes)
    ensures Less(p + a, p + b) <==> Less(a, b)
  {
    if p == [] {
      assert p + a == a && p + b == b;
    } else {
      assert (p + a)[1..] == p[1..] + a && (p + b)[1..] == p[1..] + b;
      LessCommonPrefix(p[1..], a, b);
    }
  }

  /** Once two strings differ inside both, what follows is irrelevant. */
  lemma {:induction false} LessDecidedEarly(a: Bytes, x: Bytes, b: Bytes, y: Bytes)
    requires a != b && !ProperPrefix(a, b) && !ProperPrefix(b, a)
    ensures Less(a + x, b + y) <==> Less(a, b)
  {
    assert a != [] && b != [];
    if a[0] == b[0] {
      assert a == [a[0]] + a[1..] && b == [b[0]] + b[1..];
      assert (a + x)[1..] == a[1..] + x && (b + y)[1..] == b[1..] + y;
      LessDecidedEarly(a[1..], x, b[1..], y);
    }
  }

  // ----- integers -----

  function Pow256(w: nat): (p: nat)
    ensures p >= 1
  {
    if w == 0 then 1 else 256 * Pow256(w - 1)
  }

  function Pow2(n: nat): (p: nat)
    ensures p >= 1
  {
    if n == 0 then 1 else 2 * Pow2(n - 1)
  }

  /** The last w base-256 digits of n, most significant first. */
  function BigEndian(n: nat, w: nat): (r: Bytes)
    ensures |r| == w
  {
    if w == 0 then [] else BigEndian(n / 256, w - 1) + [n % 256]
  }

  function FromBigEndian(b: Bytes): (n: nat)
  {
    if b == [] then 0 else 256 * FromBigEndian(b[..|b| - 1]) + b[|b| - 1]
  }

  /** The last w base-256 digits of n, least significant first. */
  function LittleEndian(n: nat, w: nat): (r: Bytes)
    ensures |r| == w
  {
    if w == 0 then [] else [n % 256] + LittleEndian(n / 256, w - 1)
  }

  function FromLittleEndian(b: Bytes): (n: nat)
  {
    if b == [] then 0 else b[0] + 256 * FromLittleEndian(b[1..])
  }

  /** Byte i of a big-endian field is digit w - 1 - i of the number. */
  lemma {:induction false} BigEndianDigit(n: nat, w: nat, i: nat)
    requires i < w
    ensures BigEndian(n, w)[i] == n / Pow256(w - 1 - i) % 256
  {
    if i < w - 1 {
      BigEndianDigit(n / 256, w - 1, i);
      DivDiv(n, Pow256(w - 2 - i));
    }
  }

  /** Byte i of a little-endian field is digit i of the number. */
  lemma {:induction false} LittleEndianDigit(n: nat, w: nat, i: nat)
    requires i < w
    ensures LittleEndian(n, w)[i] == n / Pow256(i) % 256
  {
    if i > 0 {
      LittleEndianDigit(n / 256, w - 1, i - 1);
      DivDiv(n, Pow256(i - 1));
    }
  }

  lemma {:induction false} DivDiv(n: nat, p: nat)
    requires p >= 1
    ensures n / 256 / p == n / (256 * p)
  {
    var q := n / 256;
    var a, b := q / p, q % p;
    assert q == a * p + b;
    assert n == 256 * q + n % 256 == (256 * p) * a + (256 * b + n % 256);
    ModUnique(n, 256 * p, a, 256 * b + n % 256);
  }

  lemma {:induction false} BigEndianRoundTrip(n: nat, w: nat)
    requires n < Pow256(w)
    ensures FromBigEndian(BigEndian(n, w)) == n
  {
    if w > 0 {
      BigEndianRoundTrip(n / 256, w - 1);
      assert BigEndian(n, w)[..w - 1] == BigEndian(n / 256, w - 1);
    }
  }

  /** A little-endian field of width w keeps exactly n mod 256^w. */
  lemma {:induction false} LittleEndianTruncates(n: nat, w: nat)
    ensures FromLittleEndian(LittleEndian(n, w)) == n % Pow256(w)
  {
    if w > 0 {
      LittleEndianTruncates(n / 256, w - 1);
      assert LittleEndian(n, w)[1..] == LittleEndian(n / 256, w - 1);
      DivModSplit(n, Pow256(w - 1));
    }
  }

  lemma {:induction false} DivModSplit(n: nat, p: nat)
    requires p >= 1
    ensures n % (256 * p) == n % 256 + 256 * ((n / 256) % p)
  {
    var q := n / 256;
    var a, b := q / p, q % p;
    assert q == a * p + b;
    assert n == 256 * q + n % 256 == (256 * p) * a + (256 * b + n % 256);
    ModUnique(n, 256 * p, a, 256 * b + n % 256);
  }

  lemma {:induction false} ModUnique(n: nat, d: nat, q: nat, r: nat)
    requires n == d * q + r && r < d
    ensures n % d == r && n / d == q
  {
    var q', r' := n / d, n % d;
    assert n == d * q' + r' && r' < d;
    assert d * (q' - q) == r - r';
    if q' > q { MulAtLeast(d, q' - q); }
    if q' < q { MulAtLeast(d, q - q'); }
  }

  lemma {:induction false} MulAtLeast(d: nat, k: nat)
    requires k >= 1
    ensures d * k >= d
  {
  }

  lemma {:induction false} FromLittleEndianBound(b: Bytes)
    ensures FromLittleEndian(b) < Pow256(|b|)
  {
    if b != [] { FromLittleEndianBound(b[1..]); }
  }

  lemma {:induction false} FromBigEndianBound(b: Bytes)
    ensures FromBigEndian(b) < Pow256(|b|)
  {
    if b != [] { FromBigEndianBound(b[..|b| - 1]); }
  }

  lemma {:induction false} LittleEndianOfFrom(b: Bytes)
    ensures LittleEndian(FromLittleEndian(b), |b|) == b
  {
    if b != [] {
      var first, rest := b[0], b[1..];
      var n := FromLittleEndian(rest);
      LittleEndianOfFrom(rest);
      assert FromLittleEndian(b) == first + 256 * n;
      hide FromLittleEndian;
      assert (first + 256 * n) % 256 == first && (first + 256 * n) / 256 == n;
      assert b == [first] + rest;
    }
  }

  lemma {:induction false} BigEndianOfFrom(b: Bytes)
    ensures BigEndian(FromBigEndian(b), |b|) == b
  {
    if b != [] {
      BigEndianOfFrom(b[..|b| - 1]);
      assert b == b[..|b| - 1] + [b[|b| - 1]];
    }
  }

  /** Big-endian encoding turns numeric order into byte order. */
  lemma {:induction false} BigEndianOrder(m: nat, n: nat, w: nat)
    requires m < Pow256(w) && n < Pow256(w)
    ensures Less(BigEndian(m, w), BigEndian(n, w)) <==> m < n
  {
    if w > 0 {
      var a, b := BigEndian(m / 256, w - 1), BigEndian(n / 256, w - 1);
      BigEndianOrder(m / 256, n / 256, w - 1);
      if a == b {
        BigEndianRoundTrip(m / 256, w - 1);
        BigEndianRoundTrip(n / 256, w - 1);
        LessCommonPrefix(a, [m % 256], [n % 256]);
      } else {
        LessDecidedEarly(a, [m % 256], b, [n % 256]);
        if m / 256 == n / 256 { assert false; }
      }
    }
  }

  /** A 32-bit checksum or hash; the model takes the functions computing them as parameters. */
  type Word32 = n: nat | n < 0x1_0000_0000

  const U16 := 0x1_0000
  const U32 := 0x1_0000_0000
  const U64 := 0x1_0000_0000_0000_0000

  lemma {:induction false} WidthLimits()
    ensures Pow256(1) == 256
    ensures Pow256(2) == U16
    ensures Pow256(4) == U32
    ensures Pow256(8) == U64
  {
    assert Pow256(3) == 0x100_0000;
    assert Pow256(5) == 0x100_0000_0000;
    assert Pow256(6) == 0x1_0000_0000_0000;
    assert Pow256(7) == 0x100_0000_0000_0000;
  }
}
