/**
 * A stable sort by an integer key: what LINQ's `OrderBy` does when every comparison its comparer
 * makes agrees in sign with the difference of two keys.
 */
module Sorting {

  /** The keys never decrease from left to right. */
  ghost predicate SortedBy<T>(s: seq<T>, key: T -> int) {
    forall i, j :: 0 <= i < j < |s| ==> key(s[i]) <= key(s[j])
  }

  /** The elements of `s` whose key is `k`, in their order in `s`. */
  function WithKey<T>(s: seq<T>, key: T -> int, k: int): (r: seq<T>)
    ensures |r| <= |s|
  {
    if s == [] then []
    else WithKey(s[..|s| - 1], key, k) + (if key(s[|s| - 1]) == k then [s[|s| - 1]] else [])
  }

  lemma {:induction false} WithKeyAppend<T>(s: seq<T>, t: seq<T>, key: T -> int, k: int)
    ensures WithKey(s + t, key, k) == WithKey(s, key, k) + WithKey(t, key, k)
    decreases |t|
  {
    if t == [] {
      assert s + t == s;
    } else {
      var t' := t[..|t| - 1];
      assert (s + t)[..|s + t| - 1] == s + t';
      WithKeyAppend(s, t', key, k);
    }
  }

  /** `x` placed after every element of the sorted `s` whose key is at most its own. */
  function Insert<T>(x: T, s: seq<T>, key: T -> int): (r: seq<T>)
    ensures |r| == |s| + 1
  {
    if s == [] || key(s[|s| - 1]) <= key(x) then s + [x]
    else Insert(x, s[..|s| - 1], key) + [s[|s| - 1]]
  }

  /** The stable sort: each element is inserted, in input order, after the equal keys before it. */
  function SortBy<T>(s: seq<T>, key: T -> int): (r: seq<T>)
    ensures |r| == |s|
  {
    if s == [] then [] else Insert(s[|s| - 1], SortBy(s[..|s| - 1], key), key)
  }

  lemma {:induction false} InsertPermutes<T>(x: T, s: seq<T>, key: T -> int)
    ensures multiset(Insert(x, s, key)) == multiset(s) + multiset{x}
    decreases |s|
  {
    if s == [] || key(s[|s| - 1]) <= key(x) {
    } else {
      var p := s[..|s| - 1];
      assert s == p + [s[|s| - 1]];
      InsertPermutes(x, p, key);
    }
  }

  /** `SortBy` only reorders: the result is a permutation of the input. */
  lemma {:induction false} SortByPermutes<T>(s: seq<T>, key: T -> int)
    ensures multiset(SortBy(s, key)) == multiset(s)
  {
    if s != [] {
      var p := s[..|s| - 1];
      assert s == p + [s[|s| - 1]];
      SortByPermutes(p, key);
      InsertPermutes(s[|s| - 1], SortBy(p, key), key);
    }
  }

  lemma {:induction false} InsertSorted<T>(x: T, s: seq<T>, key: T -> int)
    requires SortedBy(s, key)
    ensures SortedBy(Insert(x, s, key), key)
    ensures forall y :: y in Insert(x, s, key) ==> y == x || y in s
    decreases |s|
  {
    if s == [] || key(s[|s| - 1]) <= key(x) {
    } else {
      var p := s[..|s| - 1];
      var l := s[|s| - 1];
      InsertSorted(x, p, key);
      var q := Insert(x, p, key);
      forall i | 0 <= i < |q| ensures key(q[i]) <= key(l) {
        assert q[i] == x || q[i] in p;
      }
    }
  }

  /** Equal keys keep their input order. */
  lemma {:induction false} InsertWithKey<T>(x: T, s: seq<T>, key: T -> int, k: int)
    ensures WithKey(Insert(x, s, key), key, k) == WithKey(s, key, k) + WithKey([x], key, k)
    decreases |s|
  {
    if s == [] || key(s[|s| - 1]) <= key(x) {
      WithKeyAppend(s, [x], key, k);
    } else {
      var p := s[..|s| - 1];
      var l := s[|s| - 1];
      assert s == p + [l];
      InsertWithKey(x, p, key, k);
      WithKeyAppend(Insert(x, p, key), [l], key, k);
      WithKeyAppend(p, [l], key, k);
      assert WithKey([x], key, k) == [] || WithKey([l], key, k) == [];
    }
  }

  /** The result of `SortBy` is ordered by key. */
  lemma {:induction false} SortBySorted<T>(s: seq<T>, key: T -> int)
    ensures SortedBy(SortBy(s, key), key)
  {
    if s != [] {
      SortBySorted(s[..|s| - 1], key);
      InsertSorted(s[|s| - 1], SortBy(s[..|s| - 1], key), key);
    }
  }

  /** `SortBy` is stable: the elements of any one key appear in their input order. */
  lemma {:induction false} SortByStable<T>(s: seq<T>, key: T -> int, k: int)
    ensures WithKey(SortBy(s, key), key, k) == WithKey(s, key, k)
  {
    if s != [] {
      var p := s[..|s| - 1];
      var x := s[|s| - 1];
      SortByStable(p, key, k);
      InsertWithKey(x, SortBy(p, key), key, k);
      assert s == p + [x];
      WithKeyAppend(p, [x], key, k);
    }
  }

  /** An input already in key order is returned as it is. */
  lemma {:induction false} SortBySortedIdentity<T>(s: seq<T>, key: T -> int)
    requires SortedBy(s, key)
    ensures SortBy(s, key) == s
  {
    if s != [] {
      var p := s[..|s| - 1];
      var x := s[|s| - 1];
      assert SortedBy(p, key);
      SortBySortedIdentity(p, key);
      assert p == [] || key(p[|p| - 1]) <= key(x);
      assert Insert(x, p, key) == p + [x];
      assert s == p + [x];
    }
  }

  lemma SortBySnoc<T>(p: seq<T>, x: T, key: T -> int)
    ensures SortBy(p + [x], key) == Insert(x, SortBy(p, key), key)
  {
    assert (p + [x])[..|p|] == p;
  }

  /** In a sorted sequence, `x` lands just before the first element whose key is greater. */
  lemma {:induction false} InsertAt<T>(x: T, s: seq<T>, key: T -> int, k: nat)
    requires k <= |s|
    requires forall i :: 0 <= i < k ==> key(s[i]) <= key(x)
    requires forall i :: k <= i < |s| ==> key(s[i]) > key(x)
    ensures Insert(x, s, key) == s[..k] + [x] + s[k..]
    decreases |s|
  {
    if s == [] || key(s[|s| - 1]) <= key(x) {
      assert k == |s|;
    } else {
      var p := s[..|s| - 1];
      InsertAt(x, p, key, k);
      assert s[k..] == p[k..] + [s[|s| - 1]];
      assert s[..k] == p[..k];
    }
  }

  /** Five elements with distinct keys: the worked case of the definition. */
  lemma SortFive<T>(a: T, b: T, c: T, d: T, e: T, key: T -> int)
    requires key(c) < key(b) < key(e) < key(d) < key(a)
    ensures SortBy([a, b, c, d, e], key) == [c, b, e, d, a]
  {
    SortBySnoc([], a, key);
    assert [] + [a] == [a];
    assert SortBy([a], key) == [a];
    SortBySnoc([a], b, key);
    InsertAt(b, [a], key, 0);
    assert [a] + [b] == [a, b];
    assert SortBy([a, b], key) == [b, a];
    SortBySnoc([a, b], c, key);
    InsertAt(c, [b, a], key, 0);
    assert [a, b] + [c] == [a, b, c];
    assert SortBy([a, b, c], key) == [c, b, a];
    SortBySnoc([a, b, c], d, key);
    InsertAt(d, [c, b, a], key, 2);
    assert [a, b, c] + [d] == [a, b, c, d];
    assert SortBy([a, b, c, d], key) == [c, b, d, a];
    SortBySnoc([a, b, c, d], e, key);
    InsertAt(e, [c, b, d, a], key, 2);
    assert [a, b, c, d] + [e] == [a, b, c, d, e];
  }
}
