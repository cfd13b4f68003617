/**
Internal keys: the user key followed by the big-endian complement of the sequence
number, compared byte by byte (kv/key.go).
*/
module Keys {
  import opened Bytes

  const SEQ_SIZE := 8
  const MAX_SEQ: nat := 0xFFFF_FFFF_FFFF_FFFF

  type SeqNo = s: nat | s <= MAX_SEQ

  function Inverted(s: SeqNo): (b: Bytes)
    ensures |b| == SEQ_SIZE
  {
    BigEndian(MAX_SEQ - s, SEQ_SIZE)
  }

  function MakeInternalKey(userKey: Bytes, s: SeqNo): (k: Bytes)
    ensures |k| == |userKey| + SEQ_SIZE
  {
    userKey + Inverted(s)
  }

  function MakeSearchKey(userKey: Bytes): (k: Bytes)
    ensures |k| == |userKey| + SEQ_SIZE
  {
    MakeInternalKey(userKey, MAX_SEQ)
  }

  function UserKey(ikey: Bytes): Bytes {
    if |ikey| <= SEQ_SIZE then [] else ikey[..|ikey| - SEQ_SIZE]
  }

  function SeqNum(ikey: Bytes): SeqNo {
    if |ikey| < SEQ_SIZE then 0
    else
      var inverted := FromBigEndian(ikey[|ikey| - SEQ_SIZE..]);
      FromBigEndianBound(ikey[|ikey| - SEQ_SIZE..]);
      WidthLimits();
      MAX_SEQ - inverted
  }

  /** Encoding then splitting gives back the user key and the sequence number. */
  lemma {:induction false} SplitOfMake(userKey: Bytes, s: SeqNo)
    ensures UserKey(MakeInternalKey(userKey, s)) == userKey
    ensures SeqNum(MakeInternalKey(userKey, s)) == s
  {
    var k := MakeInternalKey(userKey, s);
    assert k[|k| - SEQ_SIZE..] == Inverted(s);
    WidthLimits();
    BigEndianRoundTrip(MAX_SEQ - s, SEQ_SIZE);
    assert userKey != [] ==> k[..|k| - SEQ_SIZE] == userKey;
  }

  /** Every string of at least eight bytes is an internal key, in exactly one way; a shorter one
      splits into nothing and zero. */
  lemma {:induction false} MakeOfSplit(ikey: Bytes)
    ensures |ikey| >= 8 ==> MakeInternalKey(UserKey(ikey), SeqNum(ikey)) == ikey
    ensures |ikey| < 8 ==> UserKey(ikey) == [] && SeqNum(ikey) == 0
  {
    if |ikey| >= SEQ_SIZE { MakeOfParts(ikey); }
  }

  lemma {:induction false} MakeOfParts(ikey: Bytes)
    requires |ikey| >= SEQ_SIZE
    ensures MakeInternalKey(UserKey(ikey), SeqNum(ikey)) == ikey
  {
    var tail := ikey[|ikey| - SEQ_SIZE..];
    FromBigEndianBound(tail);
    WidthLimits();
    BigEndianOfFrom(tail);
    assert UserKey(ikey) == ikey[..|ikey| - SEQ_SIZE];
    assert ikey == ikey[..|ikey| - SEQ_SIZE] + tail;
  }

  // ----- byte order against the documented order -----

  /** "Ascending by user key, descending by sequence number" (kv/key.go:15-17). */
  predicate VersionBefore(u: Bytes, s: SeqNo, v: Bytes, t: SeqNo) {
    Less(u, v) || (u == v && s > t)
  }

  function Ones(n: nat): (b: Bytes)
    ensures |b| == n && forall i :: 0 <= i < n ==> b[i] == 255
  {
    seq(n, _ => 255)
  }

  /** `longer` extends `shorter`, and not by at least eight 0xFF bytes. */
  predicate Shadows(shorter: Bytes, longer: Bytes) {
    && ProperPrefix(shorter, longer)
    && !(Ones(SEQ_SIZE) <= longer[|shorter|..])
  }

  /** The keys for which byte order and documented order coincide. */
  predicate Separable(u: Bytes, v: Bytes) {
    !Shadows(u, v) && !Shadows(v, u)
  }

  /** Byte order of internal keys is the documented order on separable user keys. */
  lemma {:induction false} InternalKeyOrder(u: Bytes, s: SeqNo, v: Bytes, t: SeqNo)
    requires Separable(u, v)
    ensures Less(MakeInternalKey(u, s), MakeInternalKey(v, t)) <==> VersionBefore(u, s, v, t)
  {
    if u == v {
      LessCommonPrefix(u, Inverted(s), Inverted(t));
      LessIrreflexive(u);
      WidthLimits();
      BigEndianOrder(MAX_SEQ - s, MAX_SEQ - t, SEQ_SIZE);
    } else if ProperPrefix(u, v) {
      ExtensionSortsAfter(u, s, v, t);
    } else if ProperPrefix(v, u) {
      ExtensionSortsAfter(v, t, u, s);
      LessAsymmetric(MakeInternalKey(v, t), MakeInternalKey(u, s));
      LessAsymmetric(v, u);
    } else {
      LessDecidedEarly(u, Inverted(s), v, Inverted(t));
    }
  }

  lemma {:induction false} ExtensionSortsAfter(u: Bytes, s: SeqNo, v: Bytes, t: SeqNo)
    requires ProperPrefix(u, v) && !Shadows(u, v)
    ensures Less(u, v)
    ensures Less(MakeInternalKey(u, s), MakeInternalKey(v, t))
  {
    var w := v[|u|..];
    assert v == u + w;
    LessCommonPrefix(u, [], w);
    assert u + [] == u;
    var rest := w[SEQ_SIZE..] + Inverted(t);
    assert MakeInternalKey(v, t) == u + (Ones(SEQ_SIZE) + rest);
    LessCommonPrefix(u, Inverted(s), Ones(SEQ_SIZE) + rest);
    if Inverted(s) == Ones(SEQ_SIZE) {
      LessCommonPrefix(Inverted(s), [], rest);
      assert Inverted(s) + [] == Inverted(s);
    } else {
      OnesLargest(Inverted(s));
      LessDecidedEarly(Inverted(s), [], Ones(SEQ_SIZE), rest);
      assert Inverted(s) + [] == Inverted(s);
    }
  }

  lemma {:induction false} OnesLargest(b: Bytes)
    requires b != Ones(|b|)
    ensures Less(b, Ones(|b|))
  {
    assert b != [];
    if b[0] == 255 {
      assert Ones(|b|)[1..] == Ones(|b| - 1);
      assert b == [b[0]] + b[1..] && Ones(|b|) == [255] + Ones(|b| - 1);
      OnesLargest(b[1..]);
    }
  }

  /** When one key shadows another, the oldest version of the short key sorts after the
      newest version of the long one, against the documented order. */
  lemma {:induction false} ShadowedOrderBreaks(u: Bytes, v: Bytes)
    requires Shadows(u, v)
    ensures VersionBefore(u, 0, v, MAX_SEQ)
    ensures Less(MakeInternalKey(v, MAX_SEQ), MakeInternalKey(u, 0))
  {
    var w := v[|u|..];
    assert v == u + w && w != [];
    LessCommonPrefix(u, [], w);
    assert u + [] == u;
    InvertedExtremes();
    var x := w + Inverted(MAX_SEQ);
    assert MakeInternalKey(v, MAX_SEQ) == u + x;
    LessCommonPrefix(u, x, Ones(SEQ_SIZE));
    var head := x[..SEQ_SIZE];
    assert head != Ones(SEQ_SIZE) by {
      if |w| >= SEQ_SIZE {
        assert head == w[..SEQ_SIZE];
        assert head <= w;
      } else {
        assert head[SEQ_SIZE - 1] == 0;
      }
    }
    OnesLargest(head);
    LessDecidedEarly(head, x[SEQ_SIZE..], Ones(SEQ_SIZE), []);
    assert head + x[SEQ_SIZE..] == x;
    assert Ones(SEQ_SIZE) + [] == Ones(SEQ_SIZE);
  }

  lemma {:induction false} InvertedExtremes()
    ensures Inverted(0) == Ones(SEQ_SIZE)
    ensures Inverted(MAX_SEQ) == seq(SEQ_SIZE, _ => 0)
  {
    AllOnes(SEQ_SIZE);
    WidthLimits();
    AllZeros(SEQ_SIZE);
  }

  /** Byte by byte the complement of the sequence number, most significant first. */
  lemma {:induction false} InvertedBytes(s: SeqNo, i: nat)
    requires i < 8
    ensures Inverted(s)[i] == 255 - BigEndian(s, 8)[i]
  {
    WidthLimits();
    Complement(s, 8, i);
  }

  lemma {:induction false} Complement(n: nat, w: nat, i: nat)
    requires n < Pow256(w) && i < w
    ensures BigEndian(Pow256(w) - 1 - n, w)[i] == 255 - BigEndian(n, w)[i]
  {
    var c := Pow256(w) - 1 - n;
    var q := Pow256(w - 1) - 1 - n / 256;
    assert c == 256 * q + (255 - n % 256);
    assert c / 256 == q && c % 256 == 255 - n % 256;
    if i < w - 1 { Complement(n / 256, w - 1, i); }
  }

  lemma {:induction false} AllOnes(w: nat)
    ensures BigEndian(Pow256(w) - 1, w) == Ones(w)
  {
    if w > 0 {
      AllOnes(w - 1);
      assert (Pow256(w) - 1) / 256 == Pow256(w - 1) - 1;
      assert (Pow256(w) - 1) % 256 == 255;
    }
  }

  lemma {:induction false} AllZeros(w: nat)
    ensures BigEndian(0, w) == seq(w, _ => 0)
  {
    if w > 0 { AllZeros(w - 1); }
  }

  /** The documented order holds for all versions of two user keys exactly when
      neither shadows the other. */
  lemma {:induction false} OrderCharacterised(u: Bytes, v: Bytes)
    ensures Separable(u, v) <==>
            forall s: SeqNo, t: SeqNo ::
              && (Less(MakeInternalKey(u, s), MakeInternalKey(v, t)) <==> VersionBefore(u, s, v, t))
              && (Less(MakeInternalKey(v, t), MakeInternalKey(u, s)) <==> VersionBefore(v, t, u, s))
  {
    if Separable(u, v) {
      forall s: SeqNo, t: SeqNo
        ensures Less(MakeInternalKey(u, s), MakeInternalKey(v, t)) <==> VersionBefore(u, s, v, t)
        ensures Less(MakeInternalKey(v, t), MakeInternalKey(u, s)) <==> VersionBefore(v, t, u, s)
      {
        InternalKeyOrder(u, s, v, t);
        InternalKeyOrder(v, t, u, s);
      }
    } else if Shadows(u, v) {
      ShadowedOrderBreaks(u, v);
      LessAsymmetric(MakeInternalKey(v, MAX_SEQ), MakeInternalKey(u, 0));
    } else {
      ShadowedOrderBreaks(v, u);
      LessAsymmetric(MakeInternalKey(u, MAX_SEQ), MakeInternalKey(v, 0));
    }
  }

  /** The failing family is not empty: "a" and "ab". */
  lemma {:induction false} OrderBreaksOnPrefix()
    ensures ProperPrefix([97], [97, 98])
    ensures Less([97], [97, 98])
    ensures Less(MakeInternalKey([97, 98], MAX_SEQ), MakeInternalKey([97], 0))
  {
    assert [97, 98][1..] == [98];
    ShadowedOrderBreaks([97], [97, 98]);
  }

  /** A key space all of whose members can be told apart. */
  ghost predicate SeparableSpace(keys: iset<Bytes>) {
    forall u, v :: u in keys && v in keys ==> Separable(u, v)
  }

  /** Prefix-free key spaces, and fixed-length ones in particular, are separable. */
  lemma {:induction false} PrefixFreeIsSeparable(keys: iset<Bytes>)
    requires forall u, v :: u in keys && v in keys ==> !ProperPrefix(u, v)
    ensures SeparableSpace(keys)
  {
  }
}
