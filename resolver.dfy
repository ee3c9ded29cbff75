/**
 Resolving an offset to its section: the section whose start is the greatest
 recorded offset strictly below the offset, or "Pre-chapter" when there is
 none. The binary search that computes it on the searcher's state is
 Shakesearch.Searcher.BinarySearch; this module states what it computes.
 */
module Resolver {
  import opened Sorting

  const PreChapter: string := "Pre-chapter"

  /** How many recorded offsets lie strictly below `needle`; on an ascending
      sequence, the first slot whose offset is at least `needle`. */
  function CountBelow(a: seq<int>, needle: int): (k: nat)
    ensures k <= |a|
  {
    if a == [] then 0
    else CountBelow(a[..|a| - 1], needle) + (if a[|a| - 1] < needle then 1 else 0)
  }

  /** The title recorded for the section before slot CountBelow(a, needle):
      a map miss reads as the empty title, as a Go map does. */
  function Resolve(a: seq<int>, m: map<int, string>, needle: int): (r: string)
    ensures r == PreChapter || r == "" || r in m.Values
  {
    var k := CountBelow(a, needle);
    if k == 0 then PreChapter
    else if a[k - 1] in m then m[a[k - 1]] else ""
  }

  /** On an ascending sequence CountBelow is the split point: every slot
      before it holds an offset below `needle`, every slot from it on one at
      least `needle`. */
  lemma {:induction false} CountBelowSplits(a: seq<int>, needle: int)
    requires Sorted(a)
    ensures forall i :: 0 <= i < CountBelow(a, needle) ==> a[i] < needle
    ensures forall i :: CountBelow(a, needle) <= i < |a| ==> needle <= a[i]
  {
    if a != [] {
      var init := a[..|a| - 1];
      CountBelowSplits(init, needle);
      assert forall i :: 0 <= i < |init| ==> init[i] == a[i];
    }
  }

  /** No offset is below `needle` exactly when the count is zero. */
  lemma {:induction false} CountBelowZero(a: seq<int>, needle: int)
    ensures CountBelow(a, needle) == 0 <==> forall i :: 0 <= i < |a| ==> needle <= a[i]
  {
    if a != [] {
      var init := a[..|a| - 1];
      CountBelowZero(init, needle);
      assert forall i :: 0 <= i < |init| ==> init[i] == a[i];
    }
  }

  /** A larger needle never gives a smaller slot, so along the text the
      resolved section index never decreases. */
  lemma {:induction false} CountBelowMonotonic(a: seq<int>, n1: int, n2: int)
    requires n1 <= n2
    ensures CountBelow(a, n1) <= CountBelow(a, n2)
  {
    if a != [] {
      CountBelowMonotonic(a[..|a| - 1], n1, n2);
    }
  }

  /** "Pre-chapter" is the answer when no recorded offset is strictly below
      `needle`: for the empty sequence, and for a needle equal to the first
      section start. */
  lemma ResolveBeforeFirstSection(a: seq<int>, m: map<int, string>, needle: int)
    requires forall i :: 0 <= i < |a| ==> needle <= a[i]
    ensures Resolve(a, m, needle) == PreChapter
  {
    CountBelowZero(a, needle);
  }

  /** Otherwise the answer is the title at the greatest recorded offset
      strictly below `needle`, so a needle equal to a section start resolves
      to the section before it. */
  lemma ResolveGreatestBelow(a: seq<int>, m: map<int, string>, needle: int, k: int)
    requires Sorted(a)
    requires 0 <= k < |a| && a[k] < needle
    requires forall j :: 0 <= j < |a| && a[j] < needle ==> a[j] <= a[k]
    ensures CountBelow(a, needle) > 0
    ensures Resolve(a, m, needle) == (if a[k] in m then m[a[k]] else "")
  {
    CountBelowSplits(a, needle);
    var c := CountBelow(a, needle);
    assert k < c;
    assert a[k] <= a[c - 1];
  }
}
