/**
The bloom filter of an SSTable (sstable/bloom.go): LevelDB's single hash with k derived
probes, packed into bytes whose last one holds k.
*/
module Bloom {
  import opened Bytes

  const BITS_PER_KEY := 10

  /** bloomK: bitsPerKey * 69 / 100, clamped to [1, 30]. */
  function BloomK(bitsPerKey: nat): (k: nat)
    ensures 1 <= k <= 30
  {
    var k := bitsPerKey * 69 / 100;
    if k < 1 then 1 else if k > 30 then 30 else k
  }

  /** b & (1 << k) != 0 */
  predicate TestBit(b: nat, k: nat) {
    if k == 0 then b % 2 == 1 else TestBit(b / 2, k - 1)
  }

  /** b | (1 << k) */
  function OrBit(b: nat, k: nat): nat {
    if k == 0 then b + 1 - b % 2 else 2 * OrBit(b / 2, k - 1) + b % 2
  }

  lemma {:induction false} OrBitTests(b: nat, k: nat, j: nat)
    ensures TestBit(OrBit(b, k), j) <==> j == k || TestBit(b, j)
  {
    if k > 0 && j > 0 {
      OrBitTests(b / 2, k - 1, j - 1);
      assert OrBit(b, k) / 2 == OrBit(b / 2, k - 1);
    } else if k == 0 && j > 0 {
      assert OrBit(b, k) / 2 == b / 2;
    }
  }

  /** Bit k is digit k to the base two. */
  lemma {:induction false} TestBitIs(b: nat, k: nat)
    ensures TestBit(b, k) <==> b / Pow2(k) % 2 == 1
  {
    if k > 0 {
      TestBitIs(b / 2, k - 1);
      HalfFirst(b, Pow2(k - 1));
    }
  }

  lemma {:induction false} HalfFirst(n: nat, p: nat)
    requires p >= 1
    ensures n / 2 / p == n / (2 * p)
  {
    var q := n / 2;
    var a, b := q / p, q % p;
    assert q == a * p + b;
    assert n == 2 * q + n % 2 == (2 * p) * a + (2 * b + n % 2);
    ModUnique(n, 2 * p, a, 2 * b + n % 2);
  }

  lemma {:induction false} OrBitFits(b: nat, k: nat, n: nat)
    requires b < Pow2(n) && k < n
    ensures OrBit(b, k) < Pow2(n)
  {
    assert Pow2(n) == 2 * Pow2(n - 1);
    if k > 0 {
      assert b / 2 < Pow2(n - 1);
      OrBitFits(b / 2, k - 1, n - 1);
    }
  }

  function SetBit(b: Byte, k: nat): (r: Byte)
    requires k < 8
    ensures r == OrBit(b, k)
  {
    assert Pow2(8) == 256 by { assert Pow2(4) == 16; }
    OrBitFits(b, k, 8);
    OrBit(b, k)
  }

  /** (h >> 17) | (h << 15) on 32 bits. */
  function RotateRight17(h: Word32): (d: Word32) {
    h / 0x2_0000 + h % 0x2_0000 * 0x8000
  }

  /** Every bit moves down by 17 places, and those that fall off come in at the top. */
  lemma {:induction false} RotateBits(h: Word32, i: nat)
    requires i < 32
    ensures TestBit(RotateRight17(h), i) <==> TestBit(h, (i + 17) % 32)
  {
    hide TestBit, Pow2;
    RotatePowers();
    var high, low := h / 0x2_0000, h % 0x2_0000;
    SplitBits(high, low, 15, i);
    SplitBits(low, high, 17, (i + 17) % 32);
    if i >= 15 { assert (i + 17) % 32 == i - 15; }
  }

  lemma {:induction false} RotatePowers()
    ensures Pow2(15) == 0x8000 && Pow2(17) == 0x2_0000
  {
    assert Pow2(4) == 16 && Pow2(8) == 256 && Pow2(12) == 4096;
  }

  /** A number below 2^n and one shifted up by n do not overlap. */
  lemma {:induction false} SplitBits(a: nat, b: nat, n: nat, i: nat)
    requires a < Pow2(n)
    ensures TestBit(a + b * Pow2(n), i) <==> if i < n then TestBit(a, i) else TestBit(b, i - n)
  {
    if n > 0 {
      hide TestBit;
      var c := b * Pow2(n - 1);
      assert b * Pow2(n) == 2 * c;
      Halves(a, c, i);
      Halves(a, 0, i);
      if i > 0 { SplitBits(a / 2, b, n - 1, i - 1); }
    }
  }

  lemma {:induction false} Halves(a: nat, c: nat, i: nat)
    ensures TestBit(a + 2 * c, i) <==> if i == 0 then a % 2 == 1 else TestBit(a / 2 + c, i - 1)
  {
    assert (a + 2 * c) / 2 == a / 2 + c && (a + 2 * c) % 2 == a % 2;
  }

  /** uint32 addition. */
  function Sum(h: Word32, delta: Word32): Word32 {
    (h + delta) % U32
  }

  /** The j-th probe hash: h += delta, j times. */
  function Probe(h: Word32, delta: Word32, j: nat): Word32 {
    if j == 0 then h else Sum(Probe(h, delta, j - 1), delta)
  }

  lemma {:induction false} ProbeIs(h: Word32, delta: Word32, j: nat)
    ensures Probe(h, delta, j) == (h + j * delta) % U32
  {
    if j > 0 {
      hide Probe;
      ProbeIs(h, delta, j - 1);
      var n := h + (j - 1) * delta;
      assert h + j * delta == n + delta == U32 * (n / U32) + (n % U32 + delta);
      var rest := n % U32 + delta;
      assert n + delta == U32 * (n / U32 + rest / U32) + rest % U32;
      ModUnique(n + delta, U32, n / U32 + rest / U32, rest % U32);
    }
  }

  function Position(p: Word32, numBits: nat): (pos: nat)
    requires 0 < numBits
    ensures pos < numBits
  {
    p % numBits
  }

  /** The bit the j-th probe of h looks at. */
  function ProbeBit(h: Word32, j: nat, numBits: nat): (p: nat)
    requires 0 < numBits
    ensures p < numBits
  {
    Position(Probe(h, RotateRight17(h), j), numBits)
  }

  predicate BitSet(filter: Bytes, pos: nat)
    requires pos / 8 < |filter|
  {
    TestBit(filter[pos / 8], pos % 8)
  }

  /** All k probe bits of a hash are set. */
  predicate ProbesSet(filter: Bytes, numBits: nat, h: Word32, k: nat)
    requires 0 < numBits && numBits <= 8 * |filter|
  {
    forall j :: 0 <= j < k ==> BitSet(filter, ProbeBit(h, j, numBits))
  }

  /** What BloomMayContain answers for a key with hash h. */
  predicate MayContain(filter: Bytes, h: Word32) {
    if |filter| < 2 then true
    else
      var k := filter[|filter| - 1];
      if k < 1 || k > 30 || FilterBits(filter) == 0 then true
      else ProbesSet(filter, FilterBits(filter), h, k)
  }

  /** uint32((len(filter) - 1) * 8) */
  function FilterBits(filter: Bytes): (n: nat)
    requires filter != []
    ensures n <= 8 * |filter|
  {
    ModBound((|filter| - 1) * 8);
    (|filter| - 1) * 8 % U32
  }

  lemma {:induction false} ModBound(n: nat)
    ensures n % U32 <= n
  {
  }

  /** The answer in plain arithmetic: the last byte says how many probes there are, probe j looks
      at bit h + j * rotated h, and any other filter lets everything pass. */
  lemma {:induction false} MayContainIff(filter: Bytes, h: Word32)
    ensures MayContain(filter, h) <==>
      || |filter| < 2 || filter[|filter| - 1] == 0 || filter[|filter| - 1] > 30 || FilterBits(filter) == 0
      || forall j :: 0 <= j < filter[|filter| - 1] ==> ProbeFinds(filter, FilterBits(filter), h, j)
  {
    hide BitSet, ProbeBit, ProbeFinds, FilterBits;
    if |filter| >= 2 && FilterBits(filter) > 0 {
      var n := FilterBits(filter);
      forall j: nat ensures BitSet(filter, ProbeBit(h, j, n)) <==> ProbeFinds(filter, n, h, j) {
        ProbeFindsIff(filter, n, h, j);
      }
    }
  }

  /** Bit h + j * rotated h of the filter is set. */
  ghost predicate ProbeFinds(filter: Bytes, numBits: nat, h: Word32, j: nat)
    requires 0 < numBits <= 8 * |filter|
  {
    var p := (h + j * RotateRight17(h)) % U32 % numBits;
    assert p < numBits;
    filter[p / 8] / Pow2(p % 8) % 2 == 1
  }

  lemma {:induction false} ProbeFindsIff(filter: Bytes, numBits: nat, h: Word32, j: nat)
    requires 0 < numBits <= 8 * |filter|
    ensures BitSet(filter, ProbeBit(h, j, numBits)) <==> ProbeFinds(filter, numBits, h, j)
  {
    hide RotateRight17, Probe, TestBit;
    ProbeIs(h, RotateRight17(h), j);
    var p := ProbeBit(h, j, numBits);
    TestBitIs(filter[p / 8], p % 8);
  }

  /** A query of the filter does not divide by zero. */
  predicate Representable(filter: Bytes) {
    |filter| < 2 || filter[|filter| - 1] < 1 || filter[|filter| - 1] > 30 || FilterBits(filter) > 0
  }

  method BloomMayContain(filter: Bytes, h: Word32) returns (maybe: bool)
    requires Representable(filter)
    ensures maybe <==> MayContain(filter, h)
  {
    if |filter| < 2 {
      return true;
    }
    hide TestBit, RotateRight17, FilterBits, Sum, Position;
    var k := filter[|filter| - 1];
    if k < 1 || k > 30 {
      return true;
    }
    var numBits := FilterBits(filter);
    var delta := RotateRight17(h);
    var p: Word32 := h;
    for j := 0 to k
      invariant p == Probe(h, delta, j) && ProbesSet(filter, numBits, h, j)
    {
      var bitPos := Position(p, numBits);
      assert bitPos == ProbeBit(h, j, numBits);
      ProbeNext(filter, numBits, h, j, k);
      hide ProbesSet, ProbeBit;
      if !TestBit(filter[bitPos / 8], bitPos % 8) {
        return false;
      }
      p := Sum(p, delta);
    }
    return true;
  }

  /** One probe more. */
  lemma {:induction false} ProbeNext(filter: Bytes, numBits: nat, h: Word32, j: nat, k: nat)
    requires 0 < numBits && numBits <= 8 * |filter| && j < k && ProbesSet(filter, numBits, h, j)
    ensures BitSet(filter, ProbeBit(h, j, numBits)) <==> ProbesSet(filter, numBits, h, j + 1)
    ensures !BitSet(filter, ProbeBit(h, j, numBits)) ==> !ProbesSet(filter, numBits, h, k)
  {
    hide TestBit, RotateRight17, ProbeBit;
  }

  /** Setting a bit sets that bit and no other. */
  lemma {:induction false} SetBitIs(filter: Bytes, at: nat, pos: nat)
    requires at / 8 < |filter| && pos / 8 < |filter|
    ensures BitSet(filter[at / 8 := SetBit(filter[at / 8], at % 8)], pos) <==> pos == at || BitSet(filter, pos)
  {
    hide TestBit, OrBit;
    OrBitTests(filter[at / 8], at % 8, pos % 8);
  }

  /** A bit is one of the first k probes of a hash. */
  predicate Probed(h: Word32, numBits: nat, k: nat, pos: nat)
    requires 0 < numBits
  {
    exists j :: 0 <= j < k && ProbeBit(h, j, numBits) == pos
  }

  /** Sets the k probe bits of one hash and no others. */
  method AddHash(filter: Bytes, numBits: nat, h: Word32, k: nat) returns (r: Bytes)
    requires 0 < numBits && numBits <= 8 * (|filter| - 1)
    ensures |r| == |filter| && r[|r| - 1] == filter[|filter| - 1]
    ensures forall pos :: 0 <= pos < 8 * (|r| - 1) ==>
      (BitSet(r, pos) <==> BitSet(filter, pos) || Probed(h, numBits, k, pos))
  {
    hide BitSet, RotateRight17, SetBit, Sum, Position;
    r := filter;
    var delta := RotateRight17(h);
    var p: Word32 := h;
    for j := 0 to k
      invariant p == Probe(h, delta, j)
      invariant |r| == |filter| && r[|r| - 1] == filter[|filter| - 1]
      invariant forall pos :: 0 <= pos < 8 * (|r| - 1) ==>
        (BitSet(r, pos) <==> BitSet(filter, pos) || Probed(h, numBits, j, pos))
    {
      var bitPos := Position(p, numBits);
      assert bitPos == ProbeBit(h, j, numBits);
      hide ProbeBit;
      forall pos | 0 <= pos < 8 * (|r| - 1)
        ensures BitSet(r[bitPos / 8 := SetBit(r[bitPos / 8], bitPos % 8)], pos) <==>
          BitSet(filter, pos) || Probed(h, numBits, j + 1, pos)
      {
        SetBitIs(r, bitPos, pos);
        ProbedNext(h, numBits, j, pos);
      }
      r := r[bitPos / 8 := SetBit(r[bitPos / 8], bitPos % 8)];
      p := Sum(p, delta);
    }
  }

  lemma {:induction false} ProbedNext(h: Word32, numBits: nat, j: nat, pos: nat)
    requires 0 < numBits
    ensures Probed(h, numBits, j + 1, pos) <==> Probed(h, numBits, j, pos) || ProbeBit(h, j, numBits) == pos
  {
    hide ProbeBit;
  }

  /** The bytes of a filter for n keys, without the one for k. */
  function BytesFor(n: nat): (r: nat)
    ensures 8 * r >= 64 && 8 * r >= 10 * n && (8 * r == 64 || 8 * r < 10 * n + 8)
  {
    ((if n * BITS_PER_KEY < 64 then 64 else n * BITS_PER_KEY) + 7) / 8
  }

  /** Building a filter for n keys does not divide by zero: uint32(numBits) has not wrapped to 0. */
  predicate BloomFits(n: nat) {
    n == 0 || BytesFor(n) * 8 % U32 > 0
  }

  lemma {:induction false} SmallFits(n: nat)
    requires n * BITS_PER_KEY + 80 < U32
    ensures BloomFits(n)
  {
    var bits := BytesFor(n) * 8;
    assert 0 < bits < U32;
    assert bits % U32 == bits;
  }

  /** The bit is a probe of one of the hashes. */
  predicate ProbedByAny(hashes: seq<Word32>, numBits: nat, k: nat, pos: nat)
    requires 0 < numBits
  {
    exists i :: 0 <= i < |hashes| && Probed(hashes[i], numBits, k, pos)
  }

  /** The bits set are exactly the six probes of each hash: no false negatives, and no bit more
      than that takes. */
  method BuildBloomFilter(hashes: seq<Word32>) returns (filter: Bytes)
    requires BloomFits(|hashes|)
    ensures hashes == [] <==> filter == []
    ensures hashes != [] ==> |filter| == BytesFor(|hashes|) + 1 && filter[|filter| - 1] == 6
    ensures Representable(filter)
    ensures hashes != [] ==> FilterBits(filter) > 0
    ensures forall pos :: 0 <= pos < 8 * (|filter| - 1) ==>
      (BitSet(filter, pos) <==> ProbedByAny(hashes, FilterBits(filter), 6, pos))
    ensures forall h :: h in hashes ==> MayContain(filter, h)
  {
    hide ProbesSet, BitSet, Probed;
    var n := |hashes|;
    if n == 0 {
      return [];
    }
    var numBits := n * BITS_PER_KEY;
    if numBits < 64 {
      numBits := 64;
    }
    var numBytes := (numBits + 7) / 8;
    numBits := numBytes * 8;
    var k := BloomK(BITS_PER_KEY);
    filter := seq(numBytes, _ => 0) + [k];
    assert numBytes == BytesFor(n);
    var modulus := numBits % U32;
    ModBound(numBits);
    NothingSet(filter, numBytes);
    for i := 0 to n
      invariant |filter| == numBytes + 1 && filter[numBytes] == k
      invariant forall pos :: 0 <= pos < 8 * numBytes ==>
        (BitSet(filter, pos) <==> ProbedByAny(hashes[..i], modulus, k, pos))
    {
      filter := AddHash(filter, modulus, hashes[i], k);
      forall pos | 0 <= pos < 8 * numBytes
        ensures ProbedByAny(hashes[..i + 1], modulus, k, pos) <==>
          ProbedByAny(hashes[..i], modulus, k, pos) || Probed(hashes[i], modulus, k, pos)
      {
        ProbedByNext(hashes, i, modulus, k, pos);
      }
    }
    assert hashes[..n] == hashes;
    assert FilterBits(filter) == modulus;
    forall h | h in hashes ensures MayContain(filter, h) {
      AllContained(filter, hashes, modulus, k, h);
    }
  }

  lemma {:induction false} NothingSet(filter: Bytes, n: nat)
    requires n < |filter| && forall i :: 0 <= i < n ==> filter[i] == 0
    ensures forall pos :: 0 <= pos < 8 * n ==> !BitSet(filter, pos)
  {
    forall pos | 0 <= pos < 8 * n ensures !BitSet(filter, pos) {
      ZeroBits(pos % 8);
    }
  }

  lemma {:induction false} ZeroBits(k: nat)
    ensures !TestBit(0, k)
  {
    if k > 0 { ZeroBits(k - 1); }
  }

  lemma {:induction false} ProbedByNext(hashes: seq<Word32>, i: nat, numBits: nat, k: nat, pos: nat)
    requires i < |hashes| && 0 < numBits
    ensures ProbedByAny(hashes[..i + 1], numBits, k, pos) <==>
      ProbedByAny(hashes[..i], numBits, k, pos) || Probed(hashes[i], numBits, k, pos)
  {
    hide Probed;
    var next := hashes[..i + 1];
    assert next[i] == hashes[i] && forall j :: 0 <= j < i ==> next[j] == hashes[..i][j];
  }

  lemma {:induction false} AllContained(filter: Bytes, hashes: seq<Word32>, numBits: nat, k: nat, h: Word32)
    requires h in hashes && 0 < numBits <= 8 * (|filter| - 1)
    requires forall pos :: 0 <= pos < 8 * (|filter| - 1) ==>
      (BitSet(filter, pos) <==> ProbedByAny(hashes, numBits, k, pos))
    ensures ProbesSet(filter, numBits, h, k)
  {
    hide BitSet, ProbeBit;
    var i :| 0 <= i < |hashes| && hashes[i] == h;
    forall j | 0 <= j < k ensures BitSet(filter, ProbeBit(h, j, numBits)) {
      assert Probed(hashes[i], numBits, k, ProbeBit(h, j, numBits));
    }
  }
}
