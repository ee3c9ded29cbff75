/**
 Ascending order on integer sequences, and sort.Ints as a specified function:
 its result is sorted and a permutation of its input. Since a sorted
 permutation is unique, any correct sorting routine computes the same value.
 */
module Sorting {

  predicate Sorted(s: seq<int>)
  {
    forall i, j :: 0 <= i < j < |s| ==> s[i] <= s[j]
  }

  predicate Distinct(s: seq<int>)
  {
    forall i, j :: 0 <= i < j < |s| ==> s[i] != s[j]
  }

  /** Puts `x` into its place in the sorted sequence `s`. */
  function Insert(x: int, s: seq<int>): (r: seq<int>)
    requires Sorted(s)
    ensures Sorted(r)
    ensures multiset(r) == multiset(s) + multiset{x}
  {
    if s == [] || x <= s[0] then
      [x] + s
    else
      var t := Insert(x, s[1..]);
      assert s == [s[0]] + s[1..];
      InsertLowerBound(x, s[1..], t, s[0]);
      [s[0]] + t
  }

  /** Every element of `t`, a rearrangement of `s` plus `x`, is at least `lo`
      when `x` and all elements of `s` are. */
  lemma InsertLowerBound(x: int, s: seq<int>, t: seq<int>, lo: int)
    requires multiset(t) == multiset(s) + multiset{x}
    requires lo <= x && forall i :: 0 <= i < |s| ==> lo <= s[i]
    ensures forall j :: 0 <= j < |t| ==> lo <= t[j]
  {
    forall j | 0 <= j < |t|
      ensures lo <= t[j]
    {
      assert t[j] in multiset(t);
      if t[j] != x {
        assert t[j] in multiset(s);
      }
    }
  }

  /** sort.Ints: the ascending rearrangement of `s`. */
  function SortInts(s: seq<int>): (r: seq<int>)
    ensures Sorted(r)
    ensures multiset(r) == multiset(s)
  {
    if s == [] then []
    else
      assert s == [s[0]] + s[1..];
      Insert(s[0], SortInts(s[1..]))
  }

  /** Two sorted sequences with the same elements are equal. */
  lemma {:induction false} SortedPermutationUnique(x: seq<int>, y: seq<int>)
    requires Sorted(x) && Sorted(y)
    requires multiset(x) == multiset(y)
    ensures x == y
  {
    assert |x| == |multiset(x)| == |multiset(y)| == |y|;
    if x != [] {
      assert x[0] in multiset(y);
      assert y[0] in multiset(x);
      assert x[0] == y[0];
      assert x == [x[0]] + x[1..];
      assert y == [y[0]] + y[1..];
      assert multiset(x) == multiset{x[0]} + multiset(x[1..]);
      assert multiset(y) == multiset{y[0]} + multiset(y[1..]);
      assert multiset(x[1..]) == multiset(x) - multiset{x[0]} == multiset(y) - multiset{y[0]} == multiset(y[1..]);
      SortedPermutationUnique(x[1..], y[1..]);
    }
  }

  /** A duplicate-free sequence holds each value at most once. */
  lemma {:induction false} DistinctCount(s: seq<int>, v: int)
    requires Distinct(s)
    ensures multiset(s)[v] <= 1
  {
    if s != [] {
      assert s == [s[0]] + s[1..];
      DistinctCount(s[1..], v);
      if v == s[0] {
        assert v !in s[1..];
      }
    }
  }

  /** In a duplicate-free sequence a value occurs once or not at all. */
  lemma DistinctMultiplicity(s: seq<int>, v: int)
    requires Distinct(s)
    ensures multiset(s)[v] == if v in s then 1 else 0
  {
    DistinctCount(s, v);
  }

  /** Rearranging a duplicate-free sequence keeps it duplicate-free. */
  lemma DistinctPermutation(x: seq<int>, y: seq<int>)
    requires Distinct(x)
    requires multiset(x) == multiset(y)
    ensures Distinct(y)
  {
    forall i, j | 0 <= i < j < |y|
      ensures y[i] != y[j]
    {
      if y[i] == y[j] {
        var v := y[i];
        assert y == y[..j] + y[j..];
        assert v in y[..j] && v in y[j..];
        assert multiset(y)[v] == multiset(y[..j])[v] + multiset(y[j..])[v];
        DistinctCount(x, v);
        assert false;
      }
    }
  }

  /** A sorted duplicate-free sequence is strictly ascending. */
  lemma StrictlyAscending(s: seq<int>)
    requires Sorted(s) && Distinct(s)
    ensures forall i, j :: 0 <= i < j < |s| ==> s[i] < s[j]
  {
  }

  /** A duplicate-free sequence has as many distinct values as elements. */
  lemma {:induction false} DistinctCardinality(s: seq<int>)
    requires Distinct(s)
    ensures |set x | x in s| == |s|
  {
    if s != [] {
      DistinctCardinality(s[1..]);
      assert (set x | x in s) == {s[0]} + (set x | x in s[1..]);
      assert s[0] !in (set x | x in s[1..]);
    }
  }
}
