/**
 What a query finds and how its rows are labelled: the candidates are exactly
 the hits of the three case variants (each hit counted once per variant that
 occurs there), every candidate spells the query up to ASCII case, the
 reported rows keep the ascending order, and every reported row is labelled
 with a recorded section title and shows the hit in the middle of its
 excerpt. Also: the section entries are one per named contents line.
 */
module SearchProperties {
  import opened Strings
  import opened Sorting
  import opened SuffixIndex
  import opened Contents
  import opened Resolver
  import opened Shakesearch

  // ---------------------------------------------------------------------------
  // Candidates

  /** 1 when the non-empty pattern `v` occurs at `x`, else 0. */
  function Hit(text: string, v: string, x: int): nat
  {
    if v != [] && OccursAt(text, v, x) then 1 else 0
  }

  /** An offset is a candidate exactly when one of the three case variants of
      a non-empty query occurs there; the empty query has no candidates. */
  lemma CandidateHits(ix: Index, q: string, x: int)
    requires ix.Valid()
    ensures x in Candidates(ix, q) <==>
              q != [] && (OccursAt(ix.data, ToLower(q), x) || OccursAt(ix.data, ToUpper(q), x)
                          || OccursAt(ix.data, Title(ToLower(q)), x))
  {
    var lower, upper := ToLower(q), ToUpper(q);
    var title := Title(lower);
    LookupFinds(ix, lower);
    LookupFinds(ix, upper);
    LookupFinds(ix, title);
    var c := ix.Lookup(lower) + ix.Lookup(upper) + ix.Lookup(title);
    assert x in Candidates(ix, q) <==> x in multiset(c);
    assert x in c <==> x in ix.Lookup(lower) || x in ix.Lookup(upper) || x in ix.Lookup(title);
    assert lower == [] <==> q == [];
  }

  /** The index finds nothing for the empty pattern, so the empty query has
      no candidates and the search returns no rows. */
  lemma EmptyQueryNoRows(ix: Index, m: map<int, string>, a: seq<int>)
    requires ix.Valid()
    ensures Candidates(ix, "") == []
    ensures Kept(m, a, Candidates(ix, "")) == []
    ensures Matches(ix.data, m, a, Kept(m, a, Candidates(ix, ""))) == []
  {
    assert ToLower("") == "" && ToUpper("") == "" && Title("") == "";
  }

  /** The number of times an offset is listed is the number of case variants
      found there: the variants are looked up separately and not merged. */
  lemma CandidateCount(ix: Index, q: string, x: int)
    requires ix.Valid()
    ensures multiset(Candidates(ix, q))[x]
            == Hit(ix.data, ToLower(q), x) + Hit(ix.data, ToUpper(q), x) + Hit(ix.data, Title(ToLower(q)), x)
  {
    var lower, upper := ToLower(q), ToUpper(q);
    var title := Title(lower);
    LookupFinds(ix, lower);
    LookupFinds(ix, upper);
    LookupFinds(ix, title);
    DistinctMultiplicity(ix.Lookup(lower), x);
    DistinctMultiplicity(ix.Lookup(upper), x);
    DistinctMultiplicity(ix.Lookup(title), x);
    assert multiset(Candidates(ix, q))
        == multiset(ix.Lookup(lower)) + multiset(ix.Lookup(upper)) + multiset(ix.Lookup(title));
  }

  /** A query without ASCII letters is its own three variants, so each of its
      hits is listed three times. */
  lemma NoLetterQueryListedThrice(ix: Index, q: string, x: int)
    requires ix.Valid()
    requires forall i :: 0 <= i < |q| ==> !IsAsciiLetter(q[i])
    ensures multiset(Candidates(ix, q))[x] == 3 * Hit(ix.data, q, x)
  {
    NoLettersNoCase(q);
    CandidateCount(ix, q, x);
  }

  /** Every candidate spells the query, up to ASCII case. */
  lemma CandidateSpellsQuery(ix: Index, q: string, x: int)
    requires ix.Valid()
    requires x in Candidates(ix, q)
    ensures SpellsAt(ix.data, q, x)
  {
    CandidateHits(ix, q, x);
    VariantOccurrenceSpells(ix.data, q, x);
  }

  // ---------------------------------------------------------------------------
  // Reported rows

  /** The reported candidates keep the ascending order of the candidates. */
  lemma {:induction false} KeptSorted(m: map<int, string>, a: seq<int>, idxs: seq<int>)
    requires Sorted(idxs)
    ensures Sorted(Kept(m, a, idxs))
  {
    if idxs != [] {
      var init := idxs[..|idxs| - 1];
      var last := idxs[|idxs| - 1];
      KeptSorted(m, a, init);
      KeptMembers(m, a, init);
      var r := Kept(m, a, init);
      forall i | 0 <= i < |r|
        ensures r[i] <= last
      {
        assert r[i] in r;
        var j :| 0 <= j < |init| && init[j] == r[i];
        assert idxs[j] == r[i];
      }
    }
  }

  /** A reported hit lies strictly after the first section start, so it is
      never labelled "Pre-chapter": its label is the title recorded at the
      greatest section start below it. */
  lemma KeptLabelled(m: map<int, string>, a: seq<int>, x: int)
    requires Sorted(a) && (forall o :: o in m <==> o in a)
    requires Keeps(m, a, x)
    ensures a[0] < x
    ensures 0 < CountBelow(a, x) && a[CountBelow(a, x) - 1] in m
    ensures Resolve(a, m, x) == m[a[CountBelow(a, x) - 1]]
  {
    assert a[0] in a;
    CountBelowZero(a, x);
    var k := CountBelow(a, x);
    assert a[k - 1] in a;
  }

  /** Row `k` of a search shows the 500 characters around the `k`-th reported
      hit, labelled with the section that holds it. */
  lemma ReportedRow(text: string, m: map<int, string>, a: seq<int>, idxs: seq<int>, k: int)
    requires Sorted(a) && (forall o :: o in m <==> o in a)
    requires ExcerptsFit(text, Kept(m, a, idxs))
    requires 0 <= k < |Kept(m, a, idxs)|
    ensures var x := Kept(m, a, idxs)[k];
            && x in idxs && Keeps(m, a, x) && a[0] < x
            && ExcerptFits(text, x) && 0 < CountBelow(a, x)
            && Matches(text, m, a, Kept(m, a, idxs))[k]
               == Match(m[a[CountBelow(a, x) - 1]], text[x - ExcerptRadius..x + ExcerptRadius])
            && |Matches(text, m, a, Kept(m, a, idxs))[k].excerpt| == 2 * ExcerptRadius
  {
    var kept := Kept(m, a, idxs);
    var x := kept[k];
    KeptMembers(m, a, idxs);
    assert x in kept;
    KeptLabelled(m, a, x);
    MatchesRows(text, m, a, kept);
    assert Matches(text, m, a, kept)[k] == MatchAt(text, m, a, x);
    var excerpt := text[x - ExcerptRadius..x + ExcerptRadius];
    assert MatchAt(text, m, a, x) == Match(Resolve(a, m, x), excerpt);
    assert Resolve(a, m, x) == m[a[CountBelow(a, x) - 1]];
  }

  /** A hit of a query no longer than the excerpt radius shows up at the middle
      of its excerpt, spelled as the query up to ASCII case. */
  lemma ExcerptCentresHit(ix: Index, m: map<int, string>, a: seq<int>, q: string, x: int)
    requires ix.Valid()
    requires x in Candidates(ix, q)
    requires ExcerptFits(ix.data, x)
    requires |q| <= ExcerptRadius
    ensures SpellsAt(MatchAt(ix.data, m, a, x).excerpt, q, ExcerptRadius)
  {
    CandidateSpellsQuery(ix, q, x);
    var e := MatchAt(ix.data, m, a, x).excerpt;
    forall i | 0 <= i < |q|
      ensures LowerChar(e[ExcerptRadius + i]) == LowerChar(q[i])
    {
      assert e[ExcerptRadius + i] == ix.data[x + i];
    }
  }

  // ---------------------------------------------------------------------------
  // Section entries

  /** Which contents lines name a section. */
  function Named(lines: seq<string>): (flags: seq<bool>)
    ensures |flags| == |lines|
    ensures forall k :: 0 <= k < |lines| ==> flags[k] == HeadingOf(lines[k]).Some?
  {
    seq(|lines|, k requires 0 <= k < |lines| => HeadingOf(lines[k]).Some?)
  }

  /** The positions among the first `n` whose flag is set. */
  ghost function Marked(flags: seq<bool>, n: nat): set<int>
  {
    set k | 0 <= k < n && k < |flags| && flags[k]
  }

  /** One more position adds itself to the marked ones exactly when its flag is set. */
  lemma MarkedNext(flags: seq<bool>, n: nat)
    requires n < |flags|
    ensures |Marked(flags, n + 1)| == |Marked(flags, n)| + (if flags[n] then 1 else 0)
  {
    assert n !in Marked(flags, n);
    assert Marked(flags, n + 1) == Marked(flags, n) + (if flags[n] then {n} else {});
  }

  /** Looking at one more line adds one entry exactly when it names a section. */
  lemma EntriesGrow(ix: Index, lines: seq<string>, n: nat)
    requires ix.Valid() && LinesResolvable(ix, lines)
    requires n < |lines|
    ensures |Entries(ix, lines, n + 1)| == |Entries(ix, lines, n)| + (if Named(lines)[n] then 1 else 0)
  {
    EntriesNext(ix, lines, n);
  }

  /** One entry per contents line that names a section; blank lines and the
      "Contents" line give none. */
  lemma {:induction false} EntriesOnePerNamedLine(ix: Index, lines: seq<string>, n: nat)
    requires ix.Valid() && LinesResolvable(ix, lines)
    requires n <= |lines|
    ensures |Entries(ix, lines, n)| == |Marked(Named(lines), n)|
  {
    if n > 0 {
      var k := n - 1;
      EntriesOnePerNamedLine(ix, lines, k);
      EntriesGrow(ix, lines, k);
      MarkedNext(Named(lines), k);
    }
  }
}
