/** Bytes, and copying them into place. */
module Bytes {

  type byte = x: int | 0 <= x < 256

  /** `s` with the bytes of `t` in place of its own, from `p` on. */
  function Patched(s: seq<byte>, p: nat, t: seq<byte>): (r: seq<byte>)
    requires p + |t| <= |s|
    ensures |r| == |s|
  {
    s[..p] + t + s[p + |t|..]
  }

  /** memcpy. */
  method MemCpy(a: array<byte>, p: nat, t: seq<byte>)
    requires p + |t| <= a.Length
    modifies a
    ensures a[..] == Patched(old(a[..]), p, t)
  {
    for i := 0 to |t|
      invariant forall j :: 0 <= j < a.Length ==> a[j] == if p <= j < p + i then t[j - p] else old(a[j])
    {
      a[p + i] := t[i];
    }
  }

  /** Two stretches put down one after the other are one. */
  lemma {:induction false} PatchedTwice(s: seq<byte>, p: nat, a: seq<byte>, b: seq<byte>)
    requires p + |a| + |b| <= |s|
    ensures Patched(Patched(s, p, a), p + |a|, b) == Patched(s, p, a + b)
  {
  }
}
