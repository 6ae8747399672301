/** Byte sequences and the "this text stands at this offset" predicate shared by the codecs. */
module Bytes {
  type byte = x: int | 0 <= x < 256

  type bytes = seq<byte>

  datatype Option<+T> = None | Some(value: T)

  /** `w` stands in `doc` at offset `pos`. */
  predicate At(doc: bytes, pos: nat, w: bytes): (b: bool)
    ensures b ==> pos + |w| <= |doc|
  {
    pos + |w| <= |doc| && doc[pos..pos + |w|] == w
  }

  /** Text made of two pieces stands at an offset exactly when the pieces stand one after the other. */
  lemma AtSplit(doc: bytes, pos: nat, a: bytes, b: bytes)
    ensures At(doc, pos, a + b) <==> At(doc, pos, a) && At(doc, pos + |a|, b)
  {
    if pos + |a| + |b| <= |doc| {
      var whole := doc[pos..pos + |a| + |b|];
      assert whole == doc[pos..pos + |a|] + doc[pos + |a|..pos + |a| + |b|];
      if whole == a + b {
        assert doc[pos..pos + |a|] == whole[..|a|] == a;
        assert doc[pos + |a|..pos + |a| + |b|] == whole[|a|..] == b;
      }
    }
  }

  lemma AtIndex(doc: bytes, pos: nat, w: bytes, k: nat)
    requires At(doc, pos, w)
    requires k < |w|
    ensures pos + k < |doc| && doc[pos + k] == w[k]
  {
    assert doc[pos..pos + |w|][k] == doc[pos + k];
  }

  /** The pieces one after the other. */
  function Concat(ps: seq<bytes>): (s: bytes) {
    if ps == [] then [] else ps[0] + Concat(ps[1..])
  }

  lemma {:induction false} ConcatSplit(ps: seq<bytes>, k: nat)
    requires k <= |ps|
    ensures Concat(ps) == Concat(ps[..k]) + Concat(ps[k..])
    decreases k
  {
    if k == 0 {
      assert ps[k..] == ps;
    } else {
      ConcatSplit(ps[1..], k - 1);
      assert ps[..k][0] == ps[0] && ps[..k][1..] == ps[1..][..k - 1];
      assert ps[1..][k - 1..] == ps[k..];
      assert ps[0] + (Concat(ps[..k][1..]) + Concat(ps[k..])) == ps[0] + Concat(ps[..k][1..]) + Concat(ps[k..]);
    }
  }

  lemma ConcatSnoc(ps: seq<bytes>, p: bytes)
    ensures Concat(ps + [p]) == Concat(ps) + p
  {
    var all := ps + [p];
    ConcatSplit(all, |ps|);
    assert all[..|ps|] == ps && all[|ps|..] == [p] && [p][1..] == [];
  }

  /** memcpy of bytes into an array at an offset */
  method CopyIn(a: array<byte>, at: nat, input: bytes)
    requires at + |input| <= a.Length
    modifies a
    ensures a[..] == old(a[..at]) + input + old(a[at + |input|..])
  {
    var i := 0;
    while i < |input|
      invariant 0 <= i <= |input|
      invariant a[..] == old(a[..at]) + input[..i] + old(a[at + i..])
    {
      a[at + i] := input[i];
      i := i + 1;
    }
    assert input[..i] == input;
  }
}
