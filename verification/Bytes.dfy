/**
 Big-endian byte strings and the numbers they stand for, as in Python's
 int.from_bytes and int.to_bytes.
 */
module Bytes {

  function Pow256(n: nat): (p: nat)
    ensures p >= 1
  {
    if n == 0 then 1 else 256 * Pow256(n - 1)
  }

  predicate AreBytes(s: seq<int>)
  {
    forall i | 0 <= i < |s| :: 0 <= s[i] < 256
  }

  function FromBytes(s: seq<int>): int
  {
    if s == [] then 0 else 256 * FromBytes(s[..|s| - 1]) + s[|s| - 1]
  }

  /** The low n base-256 digits of v. */
  function ToBytes(v: nat, n: nat): (s: seq<int>)
    ensures |s| == n && AreBytes(s)
  {
    if n == 0 then [] else ToBytes(v / 256, n - 1) + [v % 256]
  }

  lemma {:induction false} FromBytesBound(s: seq<int>)
    requires AreBytes(s)
    ensures 0 <= FromBytes(s) < Pow256(|s|)
  {
    if s != [] {
      FromBytesBound(s[..|s| - 1]);
    }
  }

  lemma {:induction false} FromToBytes(v: nat, n: nat)
    requires v < Pow256(n)
    ensures FromBytes(ToBytes(v, n)) == v
  {
    if n > 0 {
      FromToBytes(v / 256, n - 1);
      assert ToBytes(v, n)[..n - 1] == ToBytes(v / 256, n - 1);
    }
  }

  lemma {:induction false} ToFromBytes(s: seq<int>)
    requires AreBytes(s)
    ensures FromBytes(s) >= 0 && ToBytes(FromBytes(s), |s|) == s
  {
    FromBytesBound(s);
    if s != [] {
      var front := s[..|s| - 1];
      FromBytesBound(front);
      ToFromBytes(front);
      assert s == front + [s[|s| - 1]];
    }
  }

  /** Equal-length byte strings with one value are one byte string. */
  lemma FromBytesInjective(s: seq<int>, t: seq<int>)
    requires AreBytes(s) && AreBytes(t) && |s| == |t|
    requires FromBytes(s) == FromBytes(t)
    ensures s == t
  {
    ToFromBytes(s);
    ToFromBytes(t);
  }

  lemma {:induction false} FromBytesConcat(s: seq<int>, t: seq<int>)
    ensures FromBytes(s + t) == FromBytes(s) * Pow256(|t|) + FromBytes(t)
  {
    if t == [] {
      assert s + t == s;
    } else {
      var front := t[..|t| - 1];
      assert (s + t)[..|s + t| - 1] == s + front;
      FromBytesConcat(s, front);
      Distribute(FromBytes(s), Pow256(|front|), FromBytes(front));
    }
  }

  lemma Distribute(a: int, b: int, c: int)
    ensures 256 * (a * b + c) == a * (256 * b) + 256 * c
  {
  }
}
