/**
 The literal-substring index over the corpus (Go's index/suffixarray).

 An index holds the text and `sa`, the order in which the library keeps the
 text's suffix offsets: some permutation of 0..|data|-1. Lookup reports every
 occurrence of a pattern exactly once, in that order, which the callers must
 treat as unspecified. How the library sorts the suffixes is not modelled.
 */
module SuffixIndex {
  import opened Strings
  import opened Sorting

  datatype Index = Index(data: string, sa: seq<int>)
  {
    /** `sa` is a permutation of the offsets of `data`. */
    ghost predicate Valid()
    {
      && |sa| == |data|
      && Distinct(sa)
      && (forall k :: 0 <= k < |sa| ==> 0 <= sa[k] < |data|)
      && (forall i :: 0 <= i < |data| ==> i in sa)
    }

    /** Index.Lookup(s, -1): the offsets of all occurrences of `s`, in index
        order; an empty pattern finds nothing. LookupFinds says what it finds. */
    function Lookup(s: string): (r: seq<int>)
      requires Valid()
      ensures |r| <= |data|
    {
      if s == [] then [] else Matching(sa, data, s)
    }
  }

  /** Lookup reports every occurrence of the pattern, and each one once. */
  lemma LookupFinds(ix: Index, s: string)
    requires ix.Valid()
    ensures Distinct(ix.Lookup(s))
    ensures (set x | x in ix.Lookup(s)) == (if s == [] then {} else Occurrences(ix.data, s))
    ensures forall x :: x in ix.Lookup(s) <==> s != [] && OccursAt(ix.data, s, x)
  {
    if s != [] {
      MatchingFinds(ix.sa, ix.data, s);
      assert forall x :: x in Occurrences(ix.data, s) ==> 0 <= x < |ix.data| && x in ix.sa;
    }
  }

  /** The entries of `order`, in their order, at which `s` occurs in `data`. */
  function Matching(order: seq<int>, data: string, s: string): (r: seq<int>)
    ensures |r| <= |order|
  {
    if order == [] then []
    else
      var rest := Matching(order[1..], data, s);
      if OccursAt(data, s, order[0]) then [order[0]] + rest else rest
  }

  lemma {:induction false} MatchingFinds(order: seq<int>, data: string, s: string)
    ensures forall x :: x in Matching(order, data, s) <==> x in order && OccursAt(data, s, x)
    ensures Distinct(order) ==> Distinct(Matching(order, data, s))
  {
    if order != [] {
      MatchingFinds(order[1..], data, s);
      assert forall x :: x in order <==> x == order[0] || x in order[1..];
    }
  }
}
