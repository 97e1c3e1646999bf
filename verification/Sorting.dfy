/**
 The stable library sorts (`sort`, `sort_by_key`) the program calls, as insertion of
 each element behind the ones already placed that do not exceed it.
 */
module Sorting {

  ghost predicate SortedBy<T>(s: seq<T>, key: T -> int)
  {
    forall i, j :: 0 <= i < j < |s| ==> key(s[i]) <= key(s[j])
  }

  function Insert<T>(x: T, s: seq<T>, key: T -> int): (r: seq<T>)
  {
    if s == [] || key(s[|s| - 1]) <= key(x) then s + [x]
    else Insert(x, s[..|s| - 1], key) + [s[|s| - 1]]
  }

  function SortBy<T>(s: seq<T>, key: T -> int): (r: seq<T>)
  {
    if s == [] then [] else Insert(s[|s| - 1], SortBy(s[..|s| - 1], key), key)
  }

  lemma {:induction false} InsertKeeps<T>(x: T, s: seq<T>, key: T -> int)
    ensures multiset(Insert(x, s, key)) == multiset(s) + multiset{x}
  {
    if !(s == [] || key(s[|s| - 1]) <= key(x)) {
      InsertKeeps(x, s[..|s| - 1], key);
      assert s == s[..|s| - 1] + [s[|s| - 1]];
    }
  }

  lemma {:induction false} InsertSorted<T>(x: T, s: seq<T>, key: T -> int)
    requires SortedBy(s, key)
    ensures SortedBy(Insert(x, s, key), key)
  {
    if !(s == [] || key(s[|s| - 1]) <= key(x)) {
      var front, last := s[..|s| - 1], s[|s| - 1];
      InsertSorted(x, front, key);
      InsertKeeps(x, front, key);
      var r := Insert(x, front, key);
      forall i | 0 <= i < |r|
        ensures key(r[i]) <= key(last)
      {
        assert r[i] in multiset(r);
        assert r[i] == x || r[i] in front;
      }
    }
  }

  lemma {:induction false} SortByKeeps<T>(s: seq<T>, key: T -> int)
    ensures multiset(SortBy(s, key)) == multiset(s)
  {
    if s != [] {
      var front := s[..|s| - 1];
      SortByKeeps(front, key);
      InsertKeeps(s[|s| - 1], SortBy(front, key), key);
      assert s == front + [s[|s| - 1]];
    }
  }

  /** Sorting rearranges its input into ascending order of the key. */
  lemma {:induction false} SortBySorts<T>(s: seq<T>, key: T -> int)
    ensures multiset(SortBy(s, key)) == multiset(s)
    ensures SortedBy(SortBy(s, key), key)
  {
    SortByKeeps(s, key);
    if s != [] {
      SortBySorts(s[..|s| - 1], key);
      InsertSorted(s[|s| - 1], SortBy(s[..|s| - 1], key), key);
    }
  }

  lemma {:induction false} SortBySameMembers<T>(s: seq<T>, key: T -> int)
    ensures |SortBy(s, key)| == |s|
    ensures forall x :: x in SortBy(s, key) <==> x in s
  {
    SortBySorts(s, key);
    var r := SortBy(s, key);
    assert |multiset(r)| == |multiset(s)|;
    forall x
      ensures x in r <==> x in s
    {
      assert x in r <==> x in multiset(r);
      assert x in s <==> x in multiset(s);
    }
  }

  lemma {:induction false} SortedIsFixed<T>(s: seq<T>, key: T -> int)
    requires SortedBy(s, key)
    ensures SortBy(s, key) == s
  {
    if s != [] {
      var front, last := s[..|s| - 1], s[|s| - 1];
      SortedIsFixed(front, key);
      assert front != [] ==> key(s[|s| - 2]) <= key(s[|s| - 1]);
      assert Insert(last, front, key) == front + [last];
      assert front + [last] == s;
    }
  }

  /** Sorting leaves a sequence alone exactly when it is in order already. */
  lemma {:induction false} SortedIffFixed<T>(s: seq<T>, key: T -> int)
    ensures SortBy(s, key) == s <==> SortedBy(s, key)
  {
    SortBySorts(s, key);
    if SortedBy(s, key) {
      SortedIsFixed(s, key);
    }
  }
}
