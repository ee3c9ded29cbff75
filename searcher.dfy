/**
 The searcher: the corpus, its substring index, and the section map read from
 the table of contents, with the query that finds a literal string in three
 casings and labels each hit with its section.

 The state is built once by Load and only read afterwards.
 */
module Shakesearch {
  import opened Strings
  import opened Sorting
  import opened SuffixIndex
  import opened Contents
  import opened Resolver

  /** Length of the table-of-contents window read after the word "Contents". */
  const ContentsWindow: nat := 1970

  /** An excerpt runs this many characters either side of a hit. */
  const ExcerptRadius: nat := 250

  /** One search result: the section a hit lies in, and the text around it. */
  datatype Match = Match(section: string, excerpt: string)

  // ---------------------------------------------------------------------------
  // Reading the table of contents

  /** The offsets of the word "Contents", each once, in index order. */
  function SearchContents(ix: Index): (r: seq<int>)
    requires ix.Valid()
    ensures Distinct(r)
    ensures (set x | x in r) == Occurrences(ix.data, "Contents")
  {
    LookupFinds(ix, "Contents");
    ix.Lookup("Contents")
  }

  /** The table-of-contents window can be cut: "Contents" occurs, and the
      window after the occurrence the index reports first fits in the text. */
  predicate ContentsWindowFits(ix: Index)
    requires ix.Valid()
  {
    var results := SearchContents(ix);
    |results| > 0 && results[0] + ContentsWindow <= |ix.data|
  }

  /** The table-of-contents text: the fixed-length window that starts at an
      occurrence of "Contents" (not necessarily the first one in the text). */
  function TableOfContents(ix: Index): (s: string)
    requires ix.Valid() && ContentsWindowFits(ix)
    ensures |s| == ContentsWindow
    ensures exists i :: OccursAt(ix.data, "Contents", i) && i + ContentsWindow <= |ix.data|
                        && s == ix.data[i..i + ContentsWindow]
  {
    var results := SearchContents(ix);
    var idx := results[0];
    assert idx in (set x | x in results);
    assert idx in Occurrences(ix.data, "Contents");
    ix.data[idx..idx + ContentsWindow]
  }

  /** The `index`-th smallest offset (0 = first) at which `title` occurs;
      GetChapterSelectsSmallest says which one it is. */
  function GetChapter(ix: Index, title: string, index: nat): (r: int)
    requires ix.Valid()
    requires index < |ix.Lookup(title)|
    ensures r in Occurrences(ix.data, title)
  {
    LookupFinds(ix, title);
    var idxs := SortInts(ix.Lookup(title));
    assert |idxs| == |multiset(idxs)| == |ix.Lookup(title)|;
    assert idxs[index] in multiset(ix.Lookup(title));
    assert idxs[index] in (set x | x in ix.Lookup(title));
    idxs[index]
  }

  /** GetChapter picks the occurrence of `title` that has exactly `index`
      occurrences before it. */
  lemma GetChapterSelectsSmallest(ix: Index, title: string, index: nat)
    requires ix.Valid()
    requires index < |ix.Lookup(title)|
    ensures var r := GetChapter(ix, title, index);
            |set j | j in Occurrences(ix.data, title) && j < r| == index
  {
    var found := ix.Lookup(title);
    LookupFinds(ix, title);
    var idxs := SortInts(found);
    assert |idxs| == |multiset(idxs)| == |found|;
    SmallestAt(found, idxs, index);
    assert title != [] by {
      assert found[0] in (set x | x in found);
    }
    assert forall j :: j in Occurrences(ix.data, title) <==> j in found by {
      assert forall j :: j in found <==> j in (set x | x in found);
    }
    assert (set j | j in Occurrences(ix.data, title) && j < idxs[index])
        == (set j | j in found && j < idxs[index]);
  }

  /** In the ascending rearrangement `s` of a duplicate-free `found`, exactly
      `index` values of `found` are below `s[index]`. */
  lemma SmallestAt(found: seq<int>, s: seq<int>, index: nat)
    requires Distinct(found)
    requires Sorted(s) && multiset(s) == multiset(found)
    requires index < |s|
    ensures s[index] in found
    ensures (set j | j in found && j < s[index]) == (set j | j in s[..index])
    ensures |set j | j in found && j < s[index]| == index
  {
    DistinctPermutation(found, s);
    StrictlyAscending(s);
    assert forall j :: j in found <==> j in multiset(s);
    assert forall j :: j in s[..index] <==> j in s && j < s[index] by {
      forall j ensures j in s[..index] <==> j in s && j < s[index] {
        if j in s && j < s[index] {
          var k :| 0 <= k < |s| && s[k] == j;
          assert k < index;
          assert s[..index][k] == j;
        }
      }
    }
    DistinctCardinality(s[..index]);
  }

  /** The section start a heading resolves to can be found: the title occurs
      more often than the occurrence it asks for. */
  predicate Resolvable(ix: Index, h: Heading)
    requires ix.Valid()
  {
    h.occurrence < |ix.Lookup(h.title)|
  }

  predicate LineResolvable(ix: Index, line: string)
    requires ix.Valid()
  {
    var h := HeadingOf(line);
    h.None? || Resolvable(ix, h.value)
  }

  predicate LinesResolvable(ix: Index, lines: seq<string>)
    requires ix.Valid()
  {
    forall line :: line in lines ==> LineResolvable(ix, line)
  }

  /** The table of contents can be read without a failed lookup. */
  predicate TableOfContentsResolvable(ix: Index)
    requires ix.Valid()
  {
    ContentsWindowFits(ix) && LinesResolvable(ix, Split(TableOfContents(ix), '\n'))
  }

  /** The section entry a resolvable heading gives: its title, at the
      occurrence of the title the heading asks for. */
  function EntryFor(ix: Index, h: Heading): (e: Entry)
    requires ix.Valid() && Resolvable(ix, h)
    ensures e.title == h.title && e.offset in Occurrences(ix.data, h.title)
  {
    Entry(GetChapter(ix, h.title, h.occurrence), h.title)
  }

  /** The entry of a resolvable heading starts at an occurrence of its title. */
  lemma EntryAtOccurrence(ix: Index, h: Heading)
    requires ix.Valid() && Resolvable(ix, h)
    ensures EntryFor(ix, h).offset in Occurrences(ix.data, EntryFor(ix, h).title)
  {
  }

  /** The section entries found for the first `n` contents lines, in line
      order: one per line that names a section, at an occurrence of its title. */
  function Entries(ix: Index, lines: seq<string>, n: nat): (es: seq<Entry>)
    requires ix.Valid() && LinesResolvable(ix, lines)
    requires n <= |lines|
    ensures |es| <= n
  {
    if n == 0 then []
    else
      var es := Entries(ix, lines, n - 1);
      assert lines[n - 1] in lines;
      match HeadingOf(lines[n - 1])
      case None => es
      case Some(h) => es + [EntryFor(ix, h)]
  }

  /** One more contents line adds the entry its heading resolves to, if any. */
  lemma EntriesNext(ix: Index, lines: seq<string>, i: nat)
    requires ix.Valid() && LinesResolvable(ix, lines)
    requires i < |lines|
    ensures HeadingOf(lines[i]).None? ==> Entries(ix, lines, i + 1) == Entries(ix, lines, i)
    ensures HeadingOf(lines[i]).Some? ==>
              && Resolvable(ix, HeadingOf(lines[i]).value)
              && Entries(ix, lines, i + 1) == Entries(ix, lines, i) + [EntryFor(ix, HeadingOf(lines[i]).value)]
  {
    assert lines[i] in lines;
  }

  /** A line that names a section appends one entry, at an occurrence of its title. */
  lemma LastEntryAtOccurrence(ix: Index, lines: seq<string>, i: nat)
    requires ix.Valid() && LinesResolvable(ix, lines)
    requires i < |lines| && HeadingOf(lines[i]).Some?
    ensures var es := Entries(ix, lines, i + 1);
            && |es| > 0
            && es == Entries(ix, lines, i) + [es[|es| - 1]]
            && es[|es| - 1].offset in Occurrences(ix.data, es[|es| - 1].title)
  {
    EntriesNext(ix, lines, i);
    EntryAtOccurrence(ix, HeadingOf(lines[i]).value);
  }

  /** Appending an entry at an occurrence of its title keeps every entry at one. */
  lemma AppendAtOccurrence(text: string, before: seq<Entry>, e: Entry)
    requires forall k :: 0 <= k < |before| ==> before[k].offset in Occurrences(text, before[k].title)
    requires e.offset in Occurrences(text, e.title)
    ensures var es := before + [e];
            forall k :: 0 <= k < |es| ==> es[k].offset in Occurrences(text, es[k].title)
  {
    var es := before + [e];
    forall k | 0 <= k < |es|
      ensures es[k].offset in Occurrences(text, es[k].title)
    {
      if k < |before| {
        assert es[k] == before[k];
      }
    }
  }

  /** One more contents line keeps every entry at an occurrence of its title. */
  lemma EntriesAtOccurrencesNext(ix: Index, lines: seq<string>, i: nat)
    requires ix.Valid() && LinesResolvable(ix, lines)
    requires i < |lines|
    requires var es := Entries(ix, lines, i);
             forall k :: 0 <= k < |es| ==> es[k].offset in Occurrences(ix.data, es[k].title)
    ensures var es := Entries(ix, lines, i + 1);
            forall k :: 0 <= k < |es| ==> es[k].offset in Occurrences(ix.data, es[k].title)
  {
    if HeadingOf(lines[i]).Some? {
      LastEntryAtOccurrence(ix, lines, i);
      var es := Entries(ix, lines, i + 1);
      AppendAtOccurrence(ix.data, Entries(ix, lines, i), es[|es| - 1]);
    } else {
      EntriesNext(ix, lines, i);
    }
  }

  /** Every entry starts at an occurrence of its own title. */
  lemma {:induction false} EntriesAtOccurrences(ix: Index, lines: seq<string>, n: nat)
    requires ix.Valid() && LinesResolvable(ix, lines)
    requires n <= |lines|
    ensures var es := Entries(ix, lines, n);
            forall k :: 0 <= k < |es| ==> es[k].offset in Occurrences(ix.data, es[k].title)
  {
    if n > 0 {
      EntriesAtOccurrences(ix, lines, n - 1);
      EntriesAtOccurrencesNext(ix, lines, n - 1);
    }
  }

  /** The section entries read from a table-of-contents text. */
  function ContentsEntries(ix: Index, contents: string): seq<Entry>
    requires ix.Valid() && LinesResolvable(ix, Split(contents, '\n'))
  {
    var lines := Split(contents, '\n');
    Entries(ix, lines, |lines|)
  }

  /** The section entries of the whole table of contents. */
  function SectionEntries(ix: Index): seq<Entry>
    requires ix.Valid() && TableOfContentsResolvable(ix)
  {
    ContentsEntries(ix, TableOfContents(ix))
  }

  // ---------------------------------------------------------------------------
  // What a query finds

  /** The candidate offsets of a query: the hits of its lower-case, upper-case
      and title-case forms together, in ascending order. */
  function Candidates(ix: Index, query: string): (r: seq<int>)
    requires ix.Valid()
    ensures Sorted(r)
  {
    var lower := ToLower(query);
    SortInts(ix.Lookup(lower) + ix.Lookup(ToUpper(query)) + ix.Lookup(Title(lower)))
  }

  /** A candidate is reported unless it is itself a section start or lies
      before the first section. */
  predicate Keeps(m: map<int, string>, a: seq<int>, idx: int)
  {
    idx !in m && |a| > 0 && a[0] <= idx
  }

  /** The candidates that are reported, in their order. */
  function Kept(m: map<int, string>, a: seq<int>, idxs: seq<int>): (r: seq<int>)
    ensures |r| <= |idxs|
  {
    if idxs == [] then []
    else
      var last := idxs[|idxs| - 1];
      Kept(m, a, idxs[..|idxs| - 1]) + (if Keeps(m, a, last) then [last] else [])
  }

  /** A candidate is reported exactly when it is one of the candidates and is kept. */
  lemma {:induction false} KeptMembers(m: map<int, string>, a: seq<int>, idxs: seq<int>)
    ensures forall x :: x in Kept(m, a, idxs) <==> x in idxs && Keeps(m, a, x)
  {
    if idxs != [] {
      var init := idxs[..|idxs| - 1];
      KeptMembers(m, a, init);
      assert idxs == init + [idxs[|idxs| - 1]];
    }
  }

  /** The excerpt window around `idx` lies inside the text. */
  predicate ExcerptFits(text: string, idx: int)
  {
    ExcerptRadius <= idx && idx + ExcerptRadius <= |text|
  }

  /** Every one of `xs` has its excerpt window inside the text. */
  predicate ExcerptsFit(text: string, xs: seq<int>)
  {
    forall x :: x in xs ==> ExcerptFits(text, x)
  }

  /** The result row for a reported hit at `idx`. */
  function MatchAt(text: string, m: map<int, string>, a: seq<int>, idx: int): (r: Match)
    requires ExcerptFits(text, idx)
    ensures |r.excerpt| == 2 * ExcerptRadius
  {
    Match(Resolve(a, m, idx), text[idx - ExcerptRadius..idx + ExcerptRadius])
  }

  /** A row shows the text from `ExcerptRadius` characters before the hit, and
      is labelled "Pre-chapter", "" or one of the recorded titles. */
  lemma MatchAtShows(text: string, m: map<int, string>, a: seq<int>, idx: int)
    requires ExcerptFits(text, idx)
    ensures var r := MatchAt(text, m, a, idx);
            && (forall i :: 0 <= i < 2 * ExcerptRadius ==> r.excerpt[i] == text[idx - ExcerptRadius + i])
            && (r.section == PreChapter || r.section == "" || r.section in m.Values)
  {
  }

  /** The result rows for the hits `xs`, one per hit, in the same order. */
  function Matches(text: string, m: map<int, string>, a: seq<int>, xs: seq<int>): (r: seq<Match>)
    requires ExcerptsFit(text, xs)
    ensures |r| == |xs|
  {
    if xs == [] then []
    else
      assert forall x :: x in xs[..|xs| - 1] ==> x in xs;
      Matches(text, m, a, xs[..|xs| - 1]) + [MatchAt(text, m, a, xs[|xs| - 1])]
  }

  /** Row `k` is the row for hit `k`. */
  lemma {:induction false} MatchesRows(text: string, m: map<int, string>, a: seq<int>, xs: seq<int>)
    requires ExcerptsFit(text, xs)
    ensures forall k :: 0 <= k < |xs| ==> Matches(text, m, a, xs)[k] == MatchAt(text, m, a, xs[k])
  {
    if xs != [] {
      var init := xs[..|xs| - 1];
      assert forall x :: x in init ==> x in xs;
      MatchesRows(text, m, a, init);
    }
  }

  /** One more row. */
  lemma MatchesNext(text: string, m: map<int, string>, a: seq<int>, xs: seq<int>, x: int)
    requires ExcerptsFit(text, xs) && ExcerptFits(text, x)
    ensures ExcerptsFit(text, xs + [x])
    ensures Matches(text, m, a, xs + [x]) == Matches(text, m, a, xs) + [MatchAt(text, m, a, x)]
  {
    assert (xs + [x])[..|xs|] == xs;
  }

  /** Looking at candidate `i` of `all` reports it exactly when it is kept,
      and every candidate reported so far has its excerpt inside the text. */
  lemma KeptStep(text: string, m: map<int, string>, a: seq<int>, all: seq<int>, i: nat)
    requires i < |all|
    requires ExcerptsFit(text, Kept(m, a, all))
    ensures Kept(m, a, all[..i + 1]) == Kept(m, a, all[..i]) + (if Keeps(m, a, all[i]) then [all[i]] else [])
    ensures ExcerptsFit(text, Kept(m, a, all[..i + 1]))
    ensures Keeps(m, a, all[i]) ==> ExcerptFits(text, all[i])
  {
    var xs := all[..i];
    var x := all[i];
    KeptMembers(m, a, all);
    KeptMembers(m, a, xs + [x]);
    assert all[..i + 1] == xs + [x];
    assert xs + [x] + all[i + 1..] == all;
    assert (xs + [x])[..|xs|] == xs;
    assert forall y :: y in xs + [x] ==> y in all;
  }

  // ---------------------------------------------------------------------------
  // The searcher

  class Searcher {
    var completeWorks: string
    var suffixArray: Index
    var chapterMap: map<int, string>
    var chapterIndexArray: seq<int>

    /** The state after loading: the index is over the text, and the section
        offsets are ascending and are exactly the keys of the section map. */
    ghost predicate Valid()
      reads this
    {
      && suffixArray.Valid()
      && suffixArray.data == completeWorks
      && Sorted(chapterIndexArray)
      && (forall o :: o in chapterMap <==> o in chapterIndexArray)
    }

    /** An empty searcher, before Load. */
    constructor ()
      ensures completeWorks == [] && suffixArray == Index([], [])
      ensures chapterMap == map[] && chapterIndexArray == []
    {
      completeWorks := [];
      suffixArray := Index([], []);
      chapterMap := map[];
      chapterIndexArray := [];
    }

    /** Takes the text (read from the corpus file by the caller) and the
        index order the suffix-array library produced for it, and builds the
        section map. */
    method Load(text: string, sa: seq<int>)
      requires Index(text, sa).Valid()
      requires TableOfContentsResolvable(Index(text, sa))
      modifies this
      ensures Valid()
      ensures completeWorks == text && suffixArray == Index(text, sa)
      ensures var es := SectionEntries(suffixArray);
              chapterMap == MapOf(es) && chapterIndexArray == SortInts(OffsetsOf(es))
    {
      completeWorks := text;
      suffixArray := Index(text, sa);
      OrganizeTableOfContents();
    }

    /** Cuts the table-of-contents window and builds the section map from it. */
    method OrganizeTableOfContents()
      requires suffixArray.Valid() && suffixArray.data == completeWorks
      requires TableOfContentsResolvable(suffixArray)
      modifies this`chapterMap, this`chapterIndexArray
      ensures Valid()
      ensures var es := SectionEntries(suffixArray);
              chapterMap == MapOf(es) && chapterIndexArray == SortInts(OffsetsOf(es))
    {
      var results := SearchContents(suffixArray);
      var idx := results[0];
      assert idx in (set x | x in results);
      assert idx in Occurrences(completeWorks, "Contents");
      var contentString := completeWorks[idx..idx + ContentsWindow];
      assert contentString == TableOfContents(suffixArray);
      GetChapters(contentString);
      SortedOffsetsMatchMap(SectionEntries(suffixArray));
    }

    /** Reads the contents lines one by one, records each named section's
        start in a map and a list, then sorts the list. The list is a
        permutation of the offsets found, one per section line; the map holds,
        for each offset, the title of the last line that resolved to it. */
    method GetChapters(contents: string)
      requires suffixArray.Valid()
      requires LinesResolvable(suffixArray, Split(contents, '\n'))
      modifies this`chapterMap, this`chapterIndexArray
      ensures var es := ContentsEntries(old(suffixArray), contents);
              chapterMap == MapOf(es) && chapterIndexArray == SortInts(OffsetsOf(es))
    {
      var titles := Split(contents, '\n');
      var ix := suffixArray;
      ghost var es: seq<Entry> := [];
      var tempMap: map<int, string> := map[];
      var tempArray: seq<int> := [];
      for i := 0 to |titles|
        invariant es == Entries(ix, titles, i)
        invariant tempMap == MapOf(es) && tempArray == OffsetsOf(es)
      {
        EntriesNext(ix, titles, i);
        var heading := HeadingOf(titles[i]);
        if heading.Some? {
          var h := heading.value;
          var curr := GetChapter(ix, h.title, h.occurrence);
          AppendEntry(es, EntryFor(ix, h));
          es := es + [EntryFor(ix, h)];
          tempMap := tempMap[curr := h.title];
          tempArray := tempArray + [curr];
        }
      }
      chapterMap := tempMap;
      chapterIndexArray := SortInts(tempArray);
    }

    /** Finds the first slot of the section offsets that is not below
        `needle` and returns the title of the slot before it, or
        "Pre-chapter" when there is none. */
    method BinarySearch(needle: int) returns (title: string)
      requires Sorted(chapterIndexArray)
      ensures title == Resolve(chapterIndexArray, chapterMap, needle)
    {
      var low := 0;
      var high := |chapterIndexArray| - 1;
      while low <= high
        invariant 0 <= low <= high + 1 <= |chapterIndexArray|
        invariant forall i :: 0 <= i < low ==> chapterIndexArray[i] < needle
        invariant forall i :: high < i < |chapterIndexArray| ==> needle <= chapterIndexArray[i]
        decreases high - low
      {
        var median := (low + high) / 2;
        if chapterIndexArray[median] < needle {
          low := median + 1;
        } else {
          high := median - 1;
        }
      }
      CountBelowSplits(chapterIndexArray, needle);
      if low == 0 {
        return PreChapter;
      }
      var index := chapterIndexArray[low - 1];
      title := if index in chapterMap then chapterMap[index] else "";
    }

    /** The hits of the query's lower-case, upper-case and title-case forms,
        concatenated and sorted; a hit of several forms is listed once per form. */
    method GetAllIdxs(query: string) returns (idxs: seq<int>)
      requires suffixArray.Valid()
      ensures Sorted(idxs)
      ensures multiset(idxs) == multiset(suffixArray.Lookup(ToLower(query)))
                              + multiset(suffixArray.Lookup(ToUpper(query)))
                              + multiset(suffixArray.Lookup(Title(ToLower(query))))
    {
      var queryUppercase := ToUpper(query);
      var queryLowercase := ToLower(query);
      var queryCapitalize := Title(queryLowercase);

      idxs := suffixArray.Lookup(queryLowercase);
      var upperIdxs := suffixArray.Lookup(queryUppercase);
      var capitalIdxs := suffixArray.Lookup(queryCapitalize);
      idxs := idxs + upperIdxs;
      idxs := idxs + capitalIdxs;
      idxs := SortInts(idxs);
    }

    /** One row per reported candidate, in ascending offset order: the
        section it resolves to and the 500 characters around it. */
    method Search(query: string) returns (results: seq<Match>)
      requires Valid()
      requires Candidates(suffixArray, query) != [] ==> chapterIndexArray != []
      requires ExcerptsFit(completeWorks, Kept(chapterMap, chapterIndexArray, Candidates(suffixArray, query)))
      ensures results == Matches(completeWorks, chapterMap, chapterIndexArray,
                                 Kept(chapterMap, chapterIndexArray, Candidates(suffixArray, query)))
    {
      var idxs := GetAllIdxs(query);
      SortedPermutationUnique(idxs, Candidates(suffixArray, query));
      results := CollectMatches(idxs);
    }

    /** The loop of Search: skips every candidate that is a section start or
        lies before the first section, and makes a row for each other one. */
    method CollectMatches(idxs: seq<int>) returns (results: seq<Match>)
      requires Sorted(chapterIndexArray)
      requires idxs != [] ==> chapterIndexArray != []
      requires ExcerptsFit(completeWorks, Kept(chapterMap, chapterIndexArray, idxs))
      ensures results == Matches(completeWorks, chapterMap, chapterIndexArray, Kept(chapterMap, chapterIndexArray, idxs))
    {
      ghost var text, m, a := completeWorks, chapterMap, chapterIndexArray;
      ghost var kept: seq<int> := [];
      results := [];
      for i := 0 to |idxs|
        invariant kept == Kept(m, a, idxs[..i])
        invariant ExcerptsFit(text, kept)
        invariant results == Matches(text, m, a, kept)
      {
        KeptStep(text, m, a, idxs, i);
        var idx := idxs[i];
        var ok := idx in chapterMap;
        if ok || idx < chapterIndexArray[0] {
          continue;
        }
        var currExcerpt := completeWorks[idx - ExcerptRadius..idx + ExcerptRadius];
        var chapter := BinarySearch(idx);
        MatchesNext(text, m, a, kept, idx);
        kept := kept + [idx];
        results := results + [Match(chapter, currExcerpt)];
      }
      assert idxs[..|idxs|] == idxs;
    }
  }
}
