/**
 Reading the table of contents: which lines name a section, how a line's
 spelling is corrected to the heading used in the body of the text, and how
 the (offset, title) entries found for the lines become the section map and
 the list of section offsets.
 */
module Contents {
  import opened Strings
  import opened Sorting

  /** A section title to look up, and which of its occurrences (0 = first)
      is the section's own heading in the body. */
  datatype Heading = Heading(title: string, occurrence: nat)

  datatype Option<T> = None | Some(value: T)

  /** A section start: the offset of its heading and its title. */
  datatype Entry = Entry(offset: int, title: string)

  /** Contents lines whose spelling differs from the body heading, with the
      corrected title and the occurrence that marks the section start. */
  const Corrections: map<string, Heading> := map[
    "THE TRAGEDY OF ANTONY AND CLEOPATRA" := Heading("ANTONY AND CLEOPATRA", 1),
    "THE LIFE OF KING HENRY THE FIFTH" := Heading("THE LIFE OF KING HENRY V", 0),
    "THE TRAGEDY OF MACBETH" := Heading("MACBETH", 1),
    "THE TRAGEDY OF OTHELLO, MOOR OF VENICE" := Heading("OTHELLO, THE MOOR OF VENICE", 0),
    "TWELFTH NIGHT; OR, WHAT YOU WILL" := Heading("TWELFTH NIGHT: OR, WHAT YOU WILL", 0)
  ]

  /** The chain of title rewrites applied to a trimmed contents line. A listed
      line is replaced as the table of corrections says; every other line is
      kept and its second occurrence (the first being the contents listing
      itself) is taken as the section start. */
  function Substitute(title: string): (h: Heading)
    ensures title in Corrections ==> h == Corrections[title]
    ensures title !in Corrections ==> h == Heading(title, 1)
    ensures h.title != title <==> title in Corrections
    ensures h.occurrence <= 1 && (title != "" ==> h.title != "")
  {
    if title == "THE TRAGEDY OF ANTONY AND CLEOPATRA" then
      Heading("ANTONY AND CLEOPATRA", 1)
    else if title == "THE LIFE OF KING HENRY THE FIFTH" then
      Heading("THE LIFE OF KING HENRY V", 0)
    else if title == "THE TRAGEDY OF MACBETH" then
      Heading("MACBETH", 1)
    else if title == "THE TRAGEDY OF OTHELLO, MOOR OF VENICE" then
      Heading("OTHELLO, THE MOOR OF VENICE", 0)
    else if title == "TWELFTH NIGHT; OR, WHAT YOU WILL" then
      Heading("TWELFTH NIGHT: OR, WHAT YOU WILL", 0)
    else
      Heading(title, 1)
  }

  /** A contents line names a section unless, once trimmed, it is empty or the
      word "Contents"; the heading looked up is its corrected spelling. */
  function HeadingOf(line: string): (h: Option<Heading>)
    ensures h.None? <==> TrimSpace(line) == "" || TrimSpace(line) == "Contents"
    ensures h.Some? ==> h.value.title != "" && h.value.occurrence <= 1
  {
    var title := TrimSpace(line);
    if title != "" && title != "Contents" then
      Some(Substitute(title))
    else None
  }

  /** The section offsets in the order the entries were found. */
  function OffsetsOf(es: seq<Entry>): (r: seq<int>)
    ensures |r| == |es|
    ensures forall k :: 0 <= k < |es| ==> r[k] == es[k].offset
  {
    if es == [] then [] else OffsetsOf(es[..|es| - 1]) + [es[|es| - 1].offset]
  }

  /** The section map written entry by entry; a later entry at the same offset
      overwrites an earlier one. */
  function MapOf(es: seq<Entry>): (r: map<int, string>)
    ensures |r| <= |es|
  {
    if es == [] then map[] else MapOf(es[..|es| - 1])[es[|es| - 1].offset := es[|es| - 1].title]
  }

  /** Writing one more entry. */
  lemma AppendEntry(es: seq<Entry>, e: Entry)
    ensures OffsetsOf(es + [e]) == OffsetsOf(es) + [e.offset]
    ensures MapOf(es + [e]) == MapOf(es)[e.offset := e.title]
  {
    assert (es + [e])[..|es|] == es;
  }

  /** The keys of the section map are exactly the recorded offsets. */
  lemma {:induction false} MapKeysAreOffsets(es: seq<Entry>)
    ensures forall o :: o in MapOf(es) <==> o in OffsetsOf(es)
  {
    if es != [] {
      var init := es[..|es| - 1];
      MapKeysAreOffsets(init);
      assert OffsetsOf(es) == OffsetsOf(init) + [es[|es| - 1].offset];
    }
  }

  /** The sorted offsets and the section map agree: the sorted list is a
      permutation of the recorded offsets and holds exactly the map's keys. */
  lemma SortedOffsetsMatchMap(es: seq<Entry>)
    ensures Sorted(SortInts(OffsetsOf(es)))
    ensures multiset(SortInts(OffsetsOf(es))) == multiset(OffsetsOf(es))
    ensures forall o :: o in MapOf(es) <==> o in SortInts(OffsetsOf(es))
  {
    MapKeysAreOffsets(es);
    var sorted := SortInts(OffsetsOf(es));
    assert forall o :: o in sorted <==> o in multiset(OffsetsOf(es));
  }

  /** Every title in the section map comes from some entry at that offset. */
  lemma {:induction false} MapTitlesFromEntries(es: seq<Entry>, o: int)
    requires o in MapOf(es)
    ensures exists k :: 0 <= k < |es| && es[k] == Entry(o, MapOf(es)[o])
  {
    var init := es[..|es| - 1];
    if o != es[|es| - 1].offset {
      MapTitlesFromEntries(init, o);
      var k :| 0 <= k < |init| && init[k] == Entry(o, MapOf(init)[o]);
      assert es[k] == init[k];
    }
  }

  /** Last write wins: an offset maps to the title of the last entry at it. */
  lemma {:induction false} MapLastWriteWins(es: seq<Entry>, k: int)
    requires 0 <= k < |es|
    requires forall j :: k < j < |es| ==> es[j].offset != es[k].offset
    ensures es[k].offset in MapOf(es) && MapOf(es)[es[k].offset] == es[k].title
  {
    if k < |es| - 1 {
      var init := es[..|es| - 1];
      MapLastWriteWins(init, k);
    }
  }
}
