/**
Append-only files as lists of frames, each frame the bytes of one record, and what a file
cut off at an arbitrary byte still holds.
*/
module Frames {
  import opened Bytes

  function Joined(fs: seq<Bytes>): Bytes {
    if fs == [] then [] else fs[0] + Joined(fs[1..])
  }

  lemma {:induction false} JoinedAppend(fs: seq<Bytes>, f: Bytes)
    ensures Joined(fs + [f]) == Joined(fs) + f
  {
    if fs == [] {
      assert (fs + [f])[1..] == [];
    } else {
      assert (fs + [f])[1..] == fs[1..] + [f];
      JoinedAppend(fs[1..], f);
    }
  }

  /** How many whole frames the first n bytes hold. */
  function Whole(fs: seq<Bytes>, n: nat): (k: nat)
    ensures k <= |fs|
  {
    if fs == [] || n < |fs[0]| then 0 else 1 + Whole(fs[1..], n - |fs[0]|)
  }

  /** A cut file is the whole frames followed by a proper prefix of the next. */
  lemma {:induction false} Cut(fs: seq<Bytes>, n: nat) returns (torn: Bytes)
    requires n <= |Joined(fs)|
    ensures var k := Whole(fs, n);
      && Joined(fs)[..n] == Joined(fs[..k]) + torn
      && (k == |fs| ==> torn == [])
      && (k < |fs| ==> |torn| < |fs[k]| && torn == fs[k][..|torn|])
    decreases |fs|
  {
    if fs == [] {
      torn := [];
    } else {
      var f, rest := fs[0], Joined(fs[1..]);
      if n < |f| {
        torn := f[..n];
        assert fs[..0] == [] && (f + rest)[..n] == [] + torn;
      } else {
        torn := Cut(fs[1..], n - |f|);
        CutNext(fs, n, torn);
      }
    }
  }

  lemma {:induction false} CutNext(fs: seq<Bytes>, n: nat, torn: Bytes)
    requires fs != [] && |fs[0]| <= n <= |Joined(fs)|
    requires Joined(fs[1..])[..n - |fs[0]|] == Joined(fs[1..][..Whole(fs[1..], n - |fs[0]|)]) + torn
    ensures Joined(fs)[..n] == Joined(fs[..Whole(fs, n)]) + torn
  {
    hide Joined;
    var f, rest, k := fs[0], Joined(fs[1..]), Whole(fs[1..], n - |fs[0]|);
    JoinedFirst(fs);
    JoinedFirst(fs[..k + 1]);
    assert (f + rest)[..n] == f + rest[..n - |f|];
    assert fs[..k + 1][1..] == fs[1..][..k];
    assert f + (Joined(fs[1..][..k]) + torn) == f + Joined(fs[1..][..k]) + torn;
  }

  lemma {:induction false} JoinedFirst(fs: seq<Bytes>)
    requires fs != []
    ensures Joined(fs) == fs[0] + Joined(fs[1..])
  {
  }
}
