/** Bytes, and the sequence facts that several modules share. */
module Sequences {
  type byte = x: int | 0 <= x < 256
  type Bytes = seq<byte>

  lemma Regroup<T>(a: seq<T>, b: seq<T>, c: seq<T>)
    ensures a + b + c == a + (b + c)
  {
  }

  lemma SliceOfSlice<T>(s: seq<T>, a: nat, b: nat, c: nat, d: nat)
    requires a <= b <= |s| && c <= d <= b - a
    ensures s[a..b][c..d] == s[a + c..a + d]
    ensures d == b - a ==> s[a..b][c..] == s[a + c..b]
  {
    forall k | 0 <= k < d - c
      ensures s[a..b][c..d][k] == s[a + c..a + d][k]
    {
    }
  }

  lemma Suffix<T>(s: seq<T>, pos: nat, k: nat)
    requires pos + k <= |s|
    ensures s[pos..][k..] == s[pos + k..]
  {
  }
}
