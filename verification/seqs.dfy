/**
 Sequence operations that stand in for the tabular idioms of the dashboard:
 `unique()` (first-appearance distinct values), boolean-mask filtering,
 `max`, and the sorted distinct index that a pivot builds.
 */
module Seqs {

  /** No value occurs twice. */
  predicate NoDuplicates<T(==)>(s: seq<T>) {
    forall i, j :: 0 <= i < j < |s| ==> s[i] != s[j]
  }

  /** Every element is smaller than every later one. */
  predicate StrictlyIncreasing(s: seq<int>) {
    forall i, j :: 0 <= i < j < |s| ==> s[i] < s[j]
  }

  /** The position of the first occurrence of `x` in `s`. */
  function IndexOf<T(==)>(s: seq<T>, x: T): (i: nat)
    requires x in s
    ensures i < |s| && s[i] == x
    ensures forall j :: 0 <= j < i ==> s[j] != x
  {
    if s[0] == x then 0 else 1 + IndexOf(s[1..], x)
  }

  /** First occurrences in a prefix are first occurrences in the whole. */
  lemma IndexOfPrefix<T>(s: seq<T>, n: nat)
    requires n <= |s|
    ensures forall x :: x in s[..n] ==> IndexOf(s, x) == IndexOf(s[..n], x)
  {
    forall x | x in s[..n]
      ensures IndexOf(s, x) == IndexOf(s[..n], x)
    {
      var k := IndexOf(s[..n], x);
      assert s[k] == x;
    }
  }

  /**
   The elements of `r` occur in the order of their first occurrences in `s`.
   */
  predicate FirstAppearanceOrder<T(==)>(r: seq<T>, s: seq<T>) {
    forall i, j :: 0 <= i < j < |r| && r[i] in s && r[j] in s ==> IndexOf(s, r[i]) < IndexOf(s, r[j])
  }

  /**
   The distinct values of `s` in order of first appearance, as pandas'
   `Series.unique()` returns them.
   */
  function Distinct<T(==,!new)>(s: seq<T>): (r: seq<T>)
    ensures NoDuplicates(r)
    ensures forall x :: x in r <==> x in s
    ensures FirstAppearanceOrder(r, s)
  {
    if |s| == 0 then []
    else
      var init, last := s[..|s| - 1], s[|s| - 1];
      assert s == init + [last];
      var p := Distinct(init);
      IndexOfPrefix(s, |s| - 1);
      if last in p then p
      else
        assert last !in init;
        assert IndexOf(s, last) == |s| - 1;
        p + [last]
  }

  /** The largest element of a non-empty sequence. */
  function MaxOf(s: seq<real>): (m: real)
    requires |s| > 0
    ensures m in s
    ensures forall x :: x in s ==> x <= m
  {
    if |s| == 1 then s[0]
    else
      var rest := MaxOf(s[1..]);
      assert forall x :: x in s ==> x == s[0] || x in s[1..];
      if s[0] >= rest then s[0] else rest
  }

  /** Places `x` into a strictly increasing sequence, unless it is already there. */
  function InsertSorted(x: int, s: seq<int>): (r: seq<int>)
    requires StrictlyIncreasing(s)
    ensures StrictlyIncreasing(r)
    ensures forall y :: y in r <==> y == x || y in s
  {
    if |s| == 0 then [x]
    else if x < s[0] then [x] + s
    else if x == s[0] then s
    else
      assert s == [s[0]] + s[1..];
      var rest := InsertSorted(x, s[1..]);
      assert forall i :: 0 <= i < |rest| ==> rest[i] in rest;
      assert forall i :: 0 <= i < |rest| ==> s[0] < rest[i];
      [s[0]] + rest
  }

  /**
   The distinct values of `s` in ascending order: the index a pandas pivot
   builds from a column.
   */
  function SortedDistinct(s: seq<int>): (r: seq<int>)
    ensures StrictlyIncreasing(r)
    ensures forall y :: y in r <==> y in s
  {
    if |s| == 0 then []
    else
      assert s == s[..|s| - 1] + [s[|s| - 1]];
      InsertSorted(s[|s| - 1], SortedDistinct(s[..|s| - 1]))
  }

  /** A strictly increasing sequence has no duplicates. */
  lemma StrictlyIncreasingNoDuplicates(s: seq<int>)
    requires StrictlyIncreasing(s)
    ensures NoDuplicates(s)
  {
  }

  /** The set of elements of a sequence. */
  function Elements<T>(s: seq<T>): set<T> {
    set x | x in s
  }

  /** A sequence without duplicates has as many elements as its set. */
  lemma {:induction false} NoDuplicatesCardinality<T>(s: seq<T>)
    requires NoDuplicates(s)
    ensures |Elements(s)| == |s|
  {
    if |s| > 0 {
      var init := s[..|s| - 1];
      assert s == init + [s[|s| - 1]];
      NoDuplicatesCardinality(init);
      assert Elements(s) == Elements(init) + {s[|s| - 1]};
      assert s[|s| - 1] !in Elements(init);
    }
  }

  /** Two duplicate-free sequences with the same elements have the same length. */
  lemma SameElementsSameLength<T>(a: seq<T>, b: seq<T>)
    requires NoDuplicates(a) && NoDuplicates(b)
    requires forall i :: 0 <= i < |a| ==> a[i] in b
    requires forall j :: 0 <= j < |b| ==> b[j] in a
    ensures |a| == |b|
  {
    NoDuplicatesCardinality(a);
    NoDuplicatesCardinality(b);
    assert Elements(a) == Elements(b) by {
      forall x | x in Elements(a) ensures x in Elements(b) {
        var i :| 0 <= i < |a| && a[i] == x;
      }
      forall x | x in Elements(b) ensures x in Elements(a) {
        var j :| 0 <= j < |b| && b[j] == x;
      }
    }
  }

  /** A sorted list and a repeat-free list of the same values are equally long. */
  lemma SortedAsLongAsDistinct(sorted: seq<int>, unique: seq<int>)
    requires StrictlyIncreasing(sorted) && NoDuplicates(unique)
    requires forall x :: x in sorted <==> x in unique
    ensures |sorted| == |unique|
  {
    StrictlyIncreasingNoDuplicates(sorted);
    assert forall i :: 0 <= i < |sorted| ==> sorted[i] in sorted && sorted[i] in unique;
    assert forall j :: 0 <= j < |unique| ==> unique[j] in unique && unique[j] in sorted;
    SameElementsSameLength(sorted, unique);
  }

  /**
   A strictly increasing sequence is determined by its elements: the
   ascending order of a set is unique.
   */
  lemma {:induction false} StrictlyIncreasingUnique(a: seq<int>, b: seq<int>)
    requires StrictlyIncreasing(a) && StrictlyIncreasing(b)
    requires forall x :: x in a <==> x in b
    ensures a == b
  {
    StrictlyIncreasingNoDuplicates(a);
    StrictlyIncreasingNoDuplicates(b);
    forall i | 0 <= i < |a| ensures a[i] in b {
      var x := a[i];
      assert x in a;
    }
    forall j | 0 <= j < |b| ensures b[j] in a {
      var x := b[j];
      assert x in b;
    }
    SameElementsSameLength(a, b);
    if |a| > 0 {
      HeadsEqual(a, b);
      forall x ensures x in a[1..] <==> x in b[1..] {
        assert x in a <==> x == a[0] || x in a[1..];
        assert x in b <==> x == b[0] || x in b[1..];
        assert a[0] !in a[1..];
        assert b[0] !in b[1..];
      }
      StrictlyIncreasingUnique(a[1..], b[1..]);
      assert a == [a[0]] + a[1..];
      assert b == [b[0]] + b[1..];
    }
  }

  /**
   `SortedDistinct` is the only arrangement of the values of `s` that is
   strictly increasing.
   */
  lemma SortedDistinctUnique(s: seq<int>, r: seq<int>)
    requires StrictlyIncreasing(r)
    requires forall x :: x in r <==> x in s
    ensures r == SortedDistinct(s)
  {
    StrictlyIncreasingUnique(r, SortedDistinct(s));
  }

  /** Two non-empty ascending sequences with the same elements start alike. */
  lemma HeadsEqual(a: seq<int>, b: seq<int>)
    requires StrictlyIncreasing(a) && StrictlyIncreasing(b)
    requires |a| > 0 && |b| > 0
    requires a[0] in b && b[0] in a
    ensures a[0] == b[0]
  {
    var j :| 0 <= j < |b| && b[j] == a[0];
    var i :| 0 <= i < |a| && a[i] == b[0];
    assert b[0] <= a[0] && a[0] <= b[0];
  }
}
