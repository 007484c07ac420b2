/**
 * A stable sort by an integer key. It stands for the library sorts the
 * source calls (List.sort, Stream.sorted, ORDER BY over the timestamp
 * index), all of which keep equal-keyed elements in their input order.
 */
module Sorting {

  /** Keys never decrease along s. */
  predicate SortedBy<T>(s: seq<T>, key: T -> int) {
    forall i, j :: 0 <= i < j < |s| ==> key(s[i]) <= key(s[j])
  }

  /** The elements of s whose key is k, in their order in s. */
  function WithKey<T>(s: seq<T>, key: T -> int, k: int): seq<T> {
    if s == [] then [] else (if key(s[0]) == k then [s[0]] else []) + WithKey(s[1..], key, k)
  }

  /** Places x before the first element whose key is at least x's. */
  function Insert<T>(x: T, s: seq<T>, key: T -> int): (r: seq<T>)
    ensures |r| == |s| + 1
    ensures multiset(r) == multiset(s) + multiset{x}
  {
    if s == [] || key(x) <= key(s[0]) then [x] + s
    else
      assert s == [s[0]] + s[1..];
      [s[0]] + Insert(x, s[1..], key)
  }

  /** Inserting into a sorted sequence keeps it sorted. */
  lemma {:induction false} InsertSorted<T>(x: T, s: seq<T>, key: T -> int)
    requires SortedBy(s, key)
    ensures SortedBy(Insert(x, s, key), key)
  {
    if s != [] && key(x) > key(s[0]) {
      var t := Insert(x, s[1..], key);
      InsertSorted(x, s[1..], key);
      InsertBound(x, s[1..], key, key(s[0]));
      var r := [s[0]] + t;
      assert r == Insert(x, s, key);
      forall i, j | 0 <= i < j < |r| ensures key(r[i]) <= key(r[j]) {
        if i > 0 {
          assert r[i] == t[i - 1] && r[j] == t[j - 1];
        } else {
          assert r[j] == t[j - 1];
        }
      }
    }
  }

  /** A lower bound on every key survives an insertion that respects it. */
  lemma {:induction false} InsertBound<T>(x: T, s: seq<T>, key: T -> int, lo: int)
    requires lo <= key(x) && forall i :: 0 <= i < |s| ==> lo <= key(s[i])
    ensures forall i :: 0 <= i < |Insert(x, s, key)| ==> lo <= key(Insert(x, s, key)[i])
  {
    var r := Insert(x, s, key);
    if s == [] || key(x) <= key(s[0]) {
      assert forall i :: 1 <= i < |r| ==> r[i] == s[i - 1];
    } else {
      InsertBound(x, s[1..], key, lo);
      var t := Insert(x, s[1..], key);
      assert r == [s[0]] + t;
      assert forall i :: 1 <= i < |r| ==> r[i] == t[i - 1];
    }
  }

  /** Inserting x adds x in front of the elements that share its key, and nothing elsewhere. */
  lemma {:induction false} InsertWithKey<T>(x: T, s: seq<T>, key: T -> int, k: int)
    ensures WithKey(Insert(x, s, key), key, k) == (if key(x) == k then [x] else []) + WithKey(s, key, k)
  {
    var r := Insert(x, s, key);
    if s == [] || key(x) <= key(s[0]) {
      assert r[1..] == s;
      if s != [] && key(x) == k {
        // nothing before x has key k
      }
    } else {
      InsertWithKey(x, s[1..], key, k);
      assert r[1..] == Insert(x, s[1..], key);
      assert r[0] == s[0];
      if key(x) == k {
        assert key(s[0]) != k;
      }
    }
  }

  /**
   * Insertion sort: the result is sorted, is a permutation of the input, and
   * is stable (for every key, the elements with that key keep their order).
   */
  function SortBy<T>(s: seq<T>, key: T -> int): (r: seq<T>)
    ensures |r| == |s|
    ensures SortedBy(r, key)
    ensures multiset(r) == multiset(s)
    ensures forall k :: WithKey(r, key, k) == WithKey(s, key, k)
  {
    if s == [] then []
    else
      var t := SortBy(s[1..], key);
      assert s == [s[0]] + s[1..];
      InsertSorted(s[0], t, key);
      assert forall k :: WithKey(Insert(s[0], t, key), key, k) == WithKey(s, key, k) by {
        forall k ensures WithKey(Insert(s[0], t, key), key, k) == WithKey(s, key, k) {
          InsertWithKey(s[0], t, key, k);
        }
      }
      Insert(s[0], t, key)
  }

  /** The identity key, for sorting plain numbers. */
  function Id(x: int): int { x }

  /** Numbers in non-decreasing order. */
  predicate Ascending(s: seq<int>) {
    forall i, j :: 0 <= i < j < |s| ==> s[i] <= s[j]
  }

  /** Sorting numbers ascending: sorted, a permutation, its ends are the extremes. */
  function SortAscending(s: seq<int>): (r: seq<int>)
    ensures |r| == |s| && multiset(r) == multiset(s)
    ensures Ascending(r)
    ensures forall x :: x in s <==> x in r
  {
    var r := SortBy(s, Id);
    assert forall x :: x in s <==> x in multiset(s);
    r
  }

  /** Two ascending sequences with the same elements are equal: sorting has one answer. */
  lemma {:induction false} AscendingUnique(a: seq<int>, b: seq<int>)
    requires Ascending(a) && Ascending(b) && multiset(a) == multiset(b)
    ensures a == b
  {
    assert |a| == |multiset(a)| == |b|;
    if a != [] {
      SameHead(a, b);
      DropHead(a);
      DropHead(b);
      AscendingUnique(a[1..], b[1..]);
      assert a == [a[0]] + a[1..] && b == [b[0]] + b[1..];
    }
  }

  /** Two non-empty ascending sequences with the same elements start with the same (least) element. */
  lemma SameHead(a: seq<int>, b: seq<int>)
    requires Ascending(a) && Ascending(b) && multiset(a) == multiset(b) && a != [] && b != []
    ensures a[0] == b[0]
  {
    assert a[0] in multiset(b) && b[0] in multiset(a);
    var i :| 0 <= i < |b| && b[i] == a[0];
    var j :| 0 <= j < |a| && a[j] == b[0];
    assert b[0] <= b[i] && a[0] <= a[j];
  }

  /** Dropping the head of an ascending sequence leaves an ascending one, one occurrence of the head fewer. */
  lemma DropHead(a: seq<int>)
    requires Ascending(a) && a != []
    ensures Ascending(a[1..]) && multiset(a[1..]) == multiset(a) - multiset{a[0]}
  {
    assert a == [a[0]] + a[1..];
  }

  /** Sorting an ascending sequence leaves it as it is. */
  lemma SortAscendingSorted(s: seq<int>)
    requires Ascending(s)
    ensures SortAscending(s) == s
  {
    AscendingUnique(SortAscending(s), s);
  }
}
