/**
 `Array.prototype.sort` as the site uses it: a stable sort under a comparator
 that compares one numeric key (`a - b`, `compareDesc` on dates, a collation
 order on names). A descending comparator is an ascending sort on the
 negated key.
 */
module Sorting {

  /** Keys never decrease from left to right. */
  predicate SortedByKey<T>(s: seq<T>, key: T -> int) {
    forall i, j :: 0 <= i < j < |s| ==> key(s[i]) <= key(s[j])
  }

  /** The elements of `s` whose key is `k`, in their order in `s`. */
  function WithKey<T>(s: seq<T>, key: T -> int, k: int): (r: seq<T>)
    ensures |r| <= |s|
    ensures forall i :: 0 <= i < |r| ==> key(r[i]) == k
  {
    if s == [] then []
    else (if key(s[0]) == k then [s[0]] else []) + WithKey(s[1..], key, k)
  }

  /** Inserts `x` before the first element whose key is not below its own. */
  function Insert<T>(x: T, s: seq<T>, key: T -> int): (r: seq<T>)
    ensures |r| == |s| + 1
    ensures multiset(r) == multiset{x} + multiset(s)
    ensures forall i :: 0 <= i < |r| ==> r[i] == x || r[i] in s
  {
    if s == [] then [x]
    else if key(x) <= key(s[0]) then [x] + s
    else
      assert s == [s[0]] + s[1..];
      [s[0]] + Insert(x, s[1..], key)
  }

  /** Insertion keeps a sorted sequence sorted. */
  lemma {:induction false} InsertSorted<T>(x: T, s: seq<T>, key: T -> int)
    requires SortedByKey(s, key)
    ensures SortedByKey(Insert(x, s, key), key)
  {
    if s != [] && key(x) > key(s[0]) {
      var tail := s[1..];
      InsertSorted(x, tail, key);
      var r := Insert(x, s, key);
      assert r == [s[0]] + Insert(x, tail, key);
      forall j | 1 <= j < |r|
        ensures key(s[0]) <= key(r[j])
      {
        assert r[j] == Insert(x, tail, key)[j - 1];
        assert r[j] == x || r[j] in tail;
        if r[j] != x {
          var m :| 0 <= m < |tail| && tail[m] == r[j];
          assert tail[m] == s[m + 1];
        }
      }
    }
  }

  /** The stable insertion sort. */
  function SortByKey<T>(s: seq<T>, key: T -> int): (r: seq<T>)
    ensures |r| == |s|
    ensures multiset(r) == multiset(s)
    ensures SortedByKey(r, key)
  {
    if s == [] then []
    else
      var rest := SortByKey(s[1..], key);
      SortStep(s, rest, key);
      Insert(s[0], rest, key)
  }

  /** Inserting the head of `s` into a sorted permutation of its tail sorts `s`. */
  lemma SortStep<T>(s: seq<T>, rest: seq<T>, key: T -> int)
    requires s != []
    requires multiset(rest) == multiset(s[1..]) && SortedByKey(rest, key)
    ensures multiset(Insert(s[0], rest, key)) == multiset(s)
    ensures SortedByKey(Insert(s[0], rest, key), key)
  {
    InsertSorted(s[0], rest, key);
    assert s == [s[0]] + s[1..];
  }

  /**
   Inserting into a sorted sequence puts `x` ahead of every element with the
   same key, and leaves the others with that key in their order.
   */
  lemma {:induction false} InsertWithKey<T>(x: T, s: seq<T>, key: T -> int, k: int)
    requires SortedByKey(s, key)
    ensures WithKey(Insert(x, s, key), key, k) ==
      (if key(x) == k then [x] else []) + WithKey(s, key, k)
  {
    if s == [] || key(x) <= key(s[0]) {
      assert Insert(x, s, key) == [x] + s;
      WithKeyCons(x, s, key, k);
    } else {
      var t := s[1..];
      SortedTail(s, key);
      InsertWithKey(x, t, key, k);
      assert Insert(x, s, key) == [s[0]] + Insert(x, t, key);
      WithKeyPast(s[0], t, Insert(x, t, key), x, key, k);
      assert [s[0]] + t == s;
    }
  }

  /**
   Passing an element `y` whose key differs from `x`'s or from `k` commutes
   with putting `x` in front of the elements with key `k`.
   */
  lemma WithKeyPast<T>(y: T, t: seq<T>, rest: seq<T>, x: T, key: T -> int, k: int)
    requires key(y) != k || key(x) != k
    requires WithKey(rest, key, k) == (if key(x) == k then [x] else []) + WithKey(t, key, k)
    ensures WithKey([y] + rest, key, k) == (if key(x) == k then [x] else []) + WithKey([y] + t, key, k)
  {
    WithKeyCons(y, rest, key, k);
    WithKeyCons(y, t, key, k);
  }

  /** The tail of a sorted sequence is sorted. */
  lemma SortedTail<T>(s: seq<T>, key: T -> int)
    requires s != [] && SortedByKey(s, key)
    ensures SortedByKey(s[1..], key)
  {
    assert forall i :: 0 <= i < |s| - 1 ==> s[1..][i] == s[i + 1];
  }

  /** `WithKey` of a sequence with a given head. */
  lemma WithKeyCons<T>(y: T, t: seq<T>, key: T -> int, k: int)
    ensures WithKey([y] + t, key, k) == (if key(y) == k then [y] else []) + WithKey(t, key, k)
  {
    assert ([y] + t)[0] == y && ([y] + t)[1..] == t;
  }

  /** Stability: the elements of one key keep their relative order. */
  lemma {:induction false} SortStable<T>(s: seq<T>, key: T -> int, k: int)
    ensures WithKey(SortByKey(s, key), key, k) == WithKey(s, key, k)
  {
    if s != [] {
      SortStable(s[1..], key, k);
      InsertWithKey(s[0], SortByKey(s[1..], key), key, k);
    }
  }

  /** A sequence already in order is returned as it is. */
  lemma {:induction false} SortSorted<T>(s: seq<T>, key: T -> int)
    requires SortedByKey(s, key)
    ensures SortByKey(s, key) == s
  {
    if s != [] {
      assert SortedByKey(s[1..], key);
      SortSorted(s[1..], key);
      if |s| > 1 {
        assert key(s[0]) <= key(s[1]);
      }
    }
  }

  /** No key in a sorted sequence exceeds the last one. */
  lemma LastIsGreatest<T>(r: seq<T>, key: T -> int, i: int)
    requires SortedByKey(r, key)
    requires 0 <= i < |r|
    ensures key(r[i]) <= key(r[|r| - 1])
  {
    if i < |r| - 1 {
      assert key(r[i]) <= key(r[|r| - 1]);
    }
  }

  /** Where an element of one sequence sits in a permutation of it. */
  lemma FindInPermutation<T>(a: seq<T>, b: seq<T>, i: int) returns (j: int)
    requires multiset(a) == multiset(b)
    requires 0 <= i < |a|
    ensures 0 <= j < |b| && b[j] == a[i]
  {
    assert a[i] in multiset(b);
    j :| 0 <= j < |b| && b[j] == a[i];
  }

  /** An element whose key is not below the sole maximum is that maximum. */
  lemma SoleMax<T>(s: seq<T>, key: T -> int, m: int, k: int)
    requires 0 <= m < |s| && 0 <= k < |s|
    requires forall j :: 0 <= j < |s| && j != m ==> key(s[j]) < key(s[m])
    requires key(s[m]) <= key(s[k])
    ensures s[k] == s[m]
  {
  }

  /** In a permutation whose last key is the greatest, the sole maximum comes last. */
  lemma MaxOfPermutation<T>(s: seq<T>, r: seq<T>, key: T -> int, m: int)
    requires multiset(r) == multiset(s) && |r| == |s|
    requires 0 <= m < |s|
    requires forall k :: 0 <= k < |s| && k != m ==> key(s[k]) < key(s[m])
    requires forall i :: 0 <= i < |r| ==> key(r[i]) <= key(r[|r| - 1])
    ensures r[|r| - 1] == s[m]
  {
    var i := FindInPermutation(s, r, m);
    assert key(s[m]) <= key(r[|r| - 1]);
    var k := FindInPermutation(r, s, |r| - 1);
    assert s[k] == r[|r| - 1];
    SoleMax(s, key, m, k);
  }

  /** In a sorted permutation, an element whose key beats every other element's comes last. */
  lemma MaxComesLast<T>(s: seq<T>, key: T -> int, m: int)
    requires 0 <= m < |s|
    requires forall k :: 0 <= k < |s| && k != m ==> key(s[k]) < key(s[m])
    ensures var r := SortByKey(s, key); |r| == |s| && r[|r| - 1] == s[m]
  {
    var r := SortByKey(s, key);
    forall i | 0 <= i < |r|
      ensures key(r[i]) <= key(r[|r| - 1])
    {
      LastIsGreatest(r, key, i);
    }
    MaxOfPermutation(s, r, key, m);
  }

  /** Likewise an element whose key is below every other element's comes first. */
  lemma MinComesFirst<T>(s: seq<T>, key: T -> int, m: int)
    requires 0 <= m < |s|
    requires forall k :: 0 <= k < |s| && k != m ==> key(s[m]) < key(s[k])
    ensures SortByKey(s, key)[0] == s[m]
  {
    var r := SortByKey(s, key);
    assert s[m] in multiset(r);
    var i :| 0 <= i < |r| && r[i] == s[m];
    assert key(r[0]) <= key(s[m]) by {
      if 0 < i {
        assert key(r[0]) <= key(r[i]);
      }
    }
    assert r[0] in multiset(s);
    assert r[0] in s;
    var k :| 0 <= k < |s| && s[k] == r[0];
    assert key(s[k]) <= key(s[m]);
  }
}
