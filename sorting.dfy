/**
 * The stable sort of Stream.sorted with a comparator on one integer key, and the ascending
 * scan of an id range.
 */
module Sorting {

  /** Non-decreasing in the key. */
  ghost predicate SortedBy<T>(s: seq<T>, key: T -> int)
  {
    forall i, j :: 0 <= i < j < |s| ==> key(s[i]) <= key(s[j])
  }

  /**
   * Inserts x into a sorted sequence in front of the first element whose key is not smaller,
   * so x stays ahead of the elements it ties with.
   */
  function Insert<T>(x: T, s: seq<T>, key: T -> int): (r: seq<T>)
    requires SortedBy(s, key)
    ensures |r| == |s| + 1
    ensures multiset(r) == multiset(s) + multiset{x}
    ensures SortedBy(r, key)
  {
    if s == [] || key(x) <= key(s[0]) then [x] + s
    else
      var rest := Insert(x, s[1..], key);
      assert s == [s[0]] + s[1..];
      HeadBeforeRest(s, x, rest, key);
      [s[0]] + rest
  }

  /** The head of s stays first when x, whose key is larger, goes into the rest. */
  lemma HeadBeforeRest<T>(s: seq<T>, x: T, rest: seq<T>, key: T -> int)
    requires s != [] && SortedBy(s, key) && key(s[0]) < key(x)
    requires SortedBy(rest, key) && multiset(rest) == multiset(s[1..]) + multiset{x}
    ensures SortedBy([s[0]] + rest, key)
  {
    var r := [s[0]] + rest;
    forall i, j | 0 <= i < j < |r|
      ensures key(r[i]) <= key(r[j])
    {
      if i == 0 {
        var y := rest[j - 1];
        assert y in multiset(rest);
        if y != x {
          assert y in multiset(s[1..]);
          var k :| 0 <= k < |s[1..]| && s[1..][k] == y;
          assert s[k + 1] == y;
        }
      } else {
        assert r[i] == rest[i - 1] && r[j] == rest[j - 1];
      }
    }
  }

  /**
   * Insertion sort from the back: every element goes in front of the already sorted elements
   * it ties with, which were behind it, so equal keys keep their input order.
   */
  function Sort<T>(s: seq<T>, key: T -> int): (r: seq<T>)
    ensures |r| == |s|
    ensures multiset(r) == multiset(s)
    ensures SortedBy(r, key)
  {
    if s == [] then []
    else
      assert s == [s[0]] + s[1..];
      Insert(s[0], Sort(s[1..], key), key)
  }

  /** Sorting a sorted sequence changes nothing, so sorting twice is sorting once. */
  lemma {:induction false} SortSorted<T>(s: seq<T>, key: T -> int)
    requires SortedBy(s, key)
    ensures Sort(s, key) == s
  {
    if s != [] {
      assert SortedBy(s[1..], key);
      SortSorted(s[1..], key);
    }
  }

  lemma SortIdempotent<T>(s: seq<T>, key: T -> int)
    ensures Sort(Sort(s, key), key) == Sort(s, key)
  {
    SortSorted(Sort(s, key), key);
  }

  /** Sorting neither adds nor drops an element. */
  lemma SortKeepsElements<T>(s: seq<T>, key: T -> int)
    ensures forall x :: x in Sort(s, key) <==> x in s
  {
    var r := Sort(s, key);
    assert forall x :: x in r <==> x in multiset(r);
    assert forall x :: x in s <==> x in multiset(s);
  }

  /** The elements of s whose key is k, in their order in s. */
  function WithKey<T>(s: seq<T>, key: T -> int, k: int): (r: seq<T>)
    ensures forall i :: 0 <= i < |r| ==> key(r[i]) == k
    ensures |r| <= |s|
  {
    if s == [] then []
    else
      assert s == [s[0]] + s[1..];
      (if key(s[0]) == k then [s[0]] else []) + WithKey(s[1..], key, k)
  }

  /** Inserting x puts it ahead of the elements it ties with and leaves their order alone. */
  lemma {:induction false} InsertWithKey<T>(x: T, s: seq<T>, key: T -> int, k: int)
    requires SortedBy(s, key)
    ensures WithKey(Insert(x, s, key), key, k) == (if key(x) == k then [x] else []) + WithKey(s, key, k)
    decreases |s|
  {
    if s == [] || key(x) <= key(s[0]) {
      var t := [x] + s;
      assert t[0] == x && t[1..] == s;
    } else {
      assert SortedBy(s[1..], key);
      var rest := Insert(x, s[1..], key);
      InsertWithKey(x, s[1..], key, k);
      var t := [s[0]] + rest;
      assert t[0] == s[0] && t[1..] == rest;
    }
  }

  /** Sort is stable: the elements of each key come out in their input order. */
  lemma {:induction false} SortStable<T>(s: seq<T>, key: T -> int, k: int)
    ensures WithKey(Sort(s, key), key, k) == WithKey(s, key, k)
    decreases |s|
  {
    if s != [] {
      SortStable(s[1..], key, k);
      InsertWithKey(s[0], Sort(s[1..], key), key, k);
    }
  }

  // ---------------------------------------------------------------------------------------
  // Ids in ascending order

  /** The ids in [lo, hi) that satisfy p, ascending, as a primary-key scan returns them. */
  function Scan(lo: int, hi: int, p: int -> bool): (r: seq<int>)
    ensures forall x :: x in r <==> lo <= x < hi && p(x)
    ensures forall i, j :: 0 <= i < j < |r| ==> r[i] < r[j]
    decreases hi - lo
  {
    if hi <= lo then []
    else
      var rest := Scan(lo, hi - 1, p);
      assert forall j :: 0 <= j < |rest| ==> rest[j] in rest;
      if p(hi - 1) then rest + [hi - 1] else rest
  }

  /** A strictly ascending sequence lists each id once, so it is as long as the set it lists. */
  lemma {:induction false} AscendingCardinality(r: seq<int>, s: set<int>)
    requires forall i, j :: 0 <= i < j < |r| ==> r[i] < r[j]
    requires forall x :: x in r <==> x in s
    ensures |r| == |s|
    decreases |r|
  {
    if r == [] {
      assert forall x :: x !in s;
      assert s == {};
    } else {
      var n := |r| - 1;
      assert r[n] in r;
      var rest := s - {r[n]};
      forall x
        ensures x in r[..n] <==> x in rest
      {
        if x in r[..n] {
          var k :| 0 <= k < n && r[k] == x;
          assert r[k] < r[n];
        }
        if x in rest {
          assert x in r;
          var k :| 0 <= k < |r| && r[k] == x;
          assert k != n;
          assert r[..n][k] == x;
        }
      }
      AscendingCardinality(r[..n], rest);
    }
  }
}
