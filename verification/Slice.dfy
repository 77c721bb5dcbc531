/** The generic slice behind the set of running handlers. */
module Slice {
  import opened SwapDelete

  /** The position of the first occurrence, -1 if there is none. */
  function IndexOf<T(==)>(s: seq<T>, x: T): (i: int)
    ensures i == -1 <==> x !in s
    ensures i >= 0 ==> i < |s| && s[i] == x && forall j | 0 <= j < i :: s[j] != x
    ensures i >= -1
  {
    if s == [] then -1
    else if s[0] == x then 0
    else
      var i := IndexOf(s[1..], x);
      assert s == [s[0]] + s[1..];
      if i < 0 then -1 else i + 1
  }

  function WithoutOne<T(==)>(s: seq<T>, x: T): seq<T> {
    var i := IndexOf(s, x);
    if i < 0 then s else Swap(s, i)
  }

  /** Removing an element takes one occurrence of it, if there is one, and nothing else. */
  lemma WithoutOneCount<T>(s: seq<T>, x: T)
    ensures multiset(WithoutOne(s, x)) == multiset(s) - multiset{x}
  {
    if x in s {
      SwapRemovesOne(s, IndexOf(s, x));
    } else {
      assert x !in multiset(s);
    }
  }

  class GenericSlice<T(==)> {
    var data: seq<T>

    constructor ()
      ensures data == []
    {
      data := [];
    }

    method Add(elem: T)
      modifies this
      ensures data == old(data) + [elem]
    {
      data := data + [elem];
    }

    /** An index outside the slice removes nothing. */
    method Remove(index: int)
      modifies this
      ensures data == if 0 <= index < |old(data)| then Swap(old(data), index) else old(data)
    {
      if 0 <= index && index < |data| {
        data := data[index := data[|data| - 1]];
        data := data[..|data| - 1];
      }
    }

    method RemoveElem(elem: T)
      modifies this
      ensures data == WithoutOne(old(data), elem)
    {
      var index := Find(elem);
      Remove(index);
    }

    method Find(elem: T) returns (i: int)
      ensures i == IndexOf(data, elem)
    {
      i := 0;
      while i < |data|
        invariant 0 <= i <= |data|
        invariant forall j | 0 <= j < i :: data[j] != elem
      {
        if data[i] == elem {
          return i;
        }
        i := i + 1;
      }
      i := -1;
    }

    method Exists(elem: T) returns (b: bool)
      ensures b <==> elem in data
    {
      var i := Find(elem);
      b := i >= 0;
    }
  }
}
