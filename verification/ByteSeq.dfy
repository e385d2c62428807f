/** Byte strings, and what it means for one to stand inside another. */
module ByteSeq {

  type byte = x: int | 0 <= x < 256

  type Bytes = seq<byte>

  /** `t` stands at position `p`. */
  ghost predicate At(s: Bytes, p: nat, t: Bytes) {
    p + |t| <= |s| && forall k :: 0 <= k < |t| ==> s[p + k] == t[k]
  }

  lemma AtSplit(s: Bytes, p: nat, a: Bytes, b: Bytes)
    requires At(s, p, a + b)
    ensures At(s, p, a) && At(s, p + |a|, b)
  {
    forall k | 0 <= k < |a|
      ensures s[p + k] == a[k]
    {
      assert (a + b)[k] == a[k];
    }
    forall k | 0 <= k < |b|
      ensures s[p + |a| + k] == b[k]
    {
      assert (a + b)[|a| + k] == b[k];
    }
  }

  lemma AtRange(s: Bytes, p: nat, t: Bytes)
    requires At(s, p, t)
    ensures p + |t| <= |s|
  {
  }

  lemma AtByte(s: Bytes, p: nat, t: Bytes, k: nat)
    requires At(s, p, t) && k < |t|
    ensures p + k < |s| && s[p + k] == t[k]
  {
  }

  /** The bytes standing at `p` are a slice. */
  lemma AtSlice(s: Bytes, p: nat, t: Bytes)
    requires p + |t| <= |s|
    ensures At(s, p, t) <==> s[p..p + |t|] == t
  {
    if s[p..p + |t|] == t {
      forall k | 0 <= k < |t|
        ensures s[p + k] == t[k]
      {
        assert s[p..p + |t|][k] == t[k];
      }
    }
  }

  function Zeros(n: nat): (z: Bytes)
    ensures |z| == n
  {
    seq(n, _ => 0)
  }
}
