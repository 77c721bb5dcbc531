/** Deleting from a slice by moving its last element into the gap. */
module SwapDelete {

  function Swap<T>(s: seq<T>, i: nat): (r: seq<T>)
    requires i < |s|
    ensures |r| == |s| - 1
  {
    s[i := s[|s| - 1]][..|s| - 1]
  }

  /** The last element takes the place of the deleted one; the others keep theirs. */
  lemma SwapAt<T>(s: seq<T>, i: nat, k: nat)
    requires i < |s| && k < |s| - 1
    ensures Swap(s, i)[k] == if k == i then s[|s| - 1] else s[k]
  {
  }

  /** Exactly the element at i goes; the order of the others may change. */
  lemma SwapRemovesOne<T>(s: seq<T>, i: nat)
    requires i < |s|
    ensures multiset(Swap(s, i)) == multiset(s) - multiset{s[i]}
  {
    var last := |s| - 1;
    assert s == s[..last] + [s[last]];
    if i < last {
      var front := s[..last];
      assert Swap(s, i) == front[i := s[last]];
      assert front == front[..i] + [front[i]] + front[i + 1..];
      assert front[i := s[last]] == front[..i] + [s[last]] + front[i + 1..];
    } else {
      assert Swap(s, i) == s[..last];
    }
  }

  /** Without repetitions before, there are none after, and only s[i] is gone. */
  lemma SwapMembers<T>(s: seq<T>, i: nat)
    requires i < |s|
    requires forall j, k | 0 <= j < k < |s| :: s[j] != s[k]
    ensures forall j, k | 0 <= j < k < |s| - 1 :: Swap(s, i)[j] != Swap(s, i)[k]
    ensures forall x :: x in Swap(s, i) <==> x in s && x != s[i]
  {
    var r := Swap(s, i);
    assert forall j | 0 <= j < |r| :: r[j] == if j == i then s[|s| - 1] else s[j];
    forall x | x in s && x != s[i] ensures x in r {
      var j :| 0 <= j < |s| && s[j] == x;
      assert x == r[if j == |s| - 1 then i else j];
    }
  }
}
