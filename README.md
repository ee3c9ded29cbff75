# shakesearch searcher, modelled in Dafny

shakesearch serves literal substring search over one static text, the complete
works of Shakespeare. Each hit comes back with the title of the play or poem
it lies in. The searcher in `main.go` does all of the work:

- It cuts the table of contents out of the text.
- It builds from it a map from section-start offsets to titles, plus the same
  offsets in ascending order.
- It looks up a query in three casings, drops the hits that are
  table-of-contents headings or lie before the first section, and labels each
  remaining hit by a binary search over the section offsets.

This project models that searcher and proves what it computes.

Modules:

- `Strings` (strings.dfy) models the library string operations the searcher
  relies on:
  - `strings.Split` on a single character, with `Join` as its inverse;
  - `strings.TrimSpace` with Go's white-space set;
  - `strings.ToLower`, `strings.ToUpper` and `strings.Title`, on ASCII.
- `Sorting` (sorting.dfy) models `sort.Ints` as the specified function
  `SortInts`, and proves that a sorted permutation is unique.
- `SuffixIndex` (suffix_index.dfy) models the suffix array as a value:
  - `Index(data, sa)` pairs the text with the order in which the index lists
    its offsets, and `sa` may be any permutation of the offsets;
  - `Lookup` returns every occurrence of a pattern exactly once, in that
    order, and nothing for the empty pattern.
- `Contents` (contents.dfy) models reading one contents line: trimming, skipping
  blank lines and "Contents", and the table of five title corrections with
  their occurrence numbers. It also models how the entries found become the
  section map and the offset list.
- `Resolver` (resolver.dfy) defines what the binary search computes:
  - the number of section starts strictly below an offset;
  - the title recorded at the last of those starts, or "Pre-chapter" when
    there are none.
- `Shakesearch` (searcher.dfy) holds the searcher itself:
  - a `Searcher` class with the four fields of the Go struct;
  - `Load`, `OrganizeTableOfContents`, `GetChapters`, `BinarySearch`,
    `GetAllIdxs` and `Search` as methods that update or read those fields;
  - the pure steps (`SearchContents`, `GetChapter`, the entries read from the
    contents, the candidates of a query, the reported rows) as functions.
- `SearchProperties` (search_properties.dfy) proves what a search returns and
  what the section map holds.

Each method is proved against a specification function:

- `GetChapters` leaves `MapOf(es)` and `SortInts(OffsetsOf(es))` for the
  entries `es` of the contents lines.
- `BinarySearch` returns `Resolve`.
- `Search` returns `Matches` of the kept candidates.

The lemmas then prove what those functions promise.

Three behaviours of the code that are easy to misread, and that the model
follows:

- The index does not return offsets in ascending order. The code sorts them
  for `getChapter` and `getAllIdxs`, but not in `organizeTableOfContents`. So
  the contents window starts at whichever occurrence of "Contents" the index
  lists first, not necessarily the first one in the text (`TableOfContents`).
- Section offsets are not forced to be distinct. Two contents lines that
  resolve to the same offset give two equal entries in the sorted list, and
  the map keeps the title written last (`MapLastWriteWins`).
- The excerpt is not clamped to the text, and an empty offset list is not
  guarded against. Both Go panics are preconditions here.

## Model

| member | source | states |
|---|---|---|
| `Shakesearch.Searcher.constructor` | main.go:40-45 | A fresh searcher has an empty text, an empty index, an empty map and an empty offset list. |
| `Shakesearch.Searcher.Load` | main.go:69-78 | Given the text and a valid index over it, the searcher ends up valid. The map is `MapOf` and the offset list is `SortInts(OffsetsOf)` of the entries read from the table of contents. |
| `Shakesearch.Searcher.OrganizeTableOfContents` | main.go:80-86 | The window after the occurrence of "Contents" that the index lists first is read as the table of contents. Afterwards the offset list is sorted and holds exactly the keys of the section map. |
| `Shakesearch.SearchContents` | main.go:88-91 | The result lists every occurrence of "Contents" in the text exactly once. |
| `Shakesearch.TableOfContents` | main.go:81-83 | The table of contents is the 1970 characters that start at some occurrence of "Contents". |
| `Shakesearch.Searcher.GetChapters` | main.go:93-125 | The loop's invariant ties the map and the list to the entries of the lines read so far. At the end the map is `MapOf` and the list is `SortInts(OffsetsOf)` of the entries of all contents lines. |
| `Contents.Substitute` | main.go:102-116 | Exactly the five listed titles are rewritten, to the corrected title and occurrence number in the table. Every other title is kept with occurrence 1. |
| `Contents.HeadingOf` | main.go:99-101 | A line is skipped exactly when, once trimmed, it is empty or "Contents". Otherwise it gives a non-empty title with occurrence 0 or 1. |
| `Shakesearch.GetChapter` | main.go:127-131 | The result is an occurrence of the title in the text. |
| `Shakesearch.GetChapterSelectsSmallest` | main.go:127-131 | The result has exactly `index` occurrences of the title below it, so it is the `index`-th smallest occurrence. |
| `Shakesearch.EntryFor` | main.go:117 | A heading's entry carries its title and an offset at which that title occurs. |
| `Shakesearch.EntriesNext` | main.go:98-120 | Proof step for the loop invariant of `GetChapters`: reading one more line adds that line's entry exactly when the line names a section, and changes nothing otherwise. |
| `Shakesearch.Entries` | main.go:98-120 | The entries read from the first `n` contents lines are at most `n`, one per line at most. `EntriesOnePerNamedLine` counts them exactly and `EntriesAtOccurrences` places them. |
| `Shakesearch.EntryAtOccurrence` | main.go:117 | The offset `getChapter` returns for a heading is an occurrence of the heading's title. |
| `Shakesearch.EntriesAtOccurrences` | main.go:117-119 | Every recorded section start is an occurrence of its own title. It is proved line by line (`EntriesAtOccurrencesNext`). |
| `SearchProperties.EntriesOnePerNamedLine` | main.go:98-121 | There is one entry per contents line that names a section: the number of entries equals the number of such lines. |
| `SearchProperties.EntriesGrow` | main.go:101-120 | Proof step for `EntriesOnePerNamedLine`: one more line adds one entry if it names a section, and none otherwise. |
| `Contents.AppendEntry` | main.go:118-119 | Proof step for the loop invariant of `GetChapters`: appending an entry appends its offset to the list and writes its title at its offset in the map. |
| `Contents.MapOf` | main.go:118 | The map has at most one key per entry written. `MapKeysAreOffsets` and `MapLastWriteWins` state its keys and titles. |
| `Contents.MapKeysAreOffsets` | main.go:118-119 | The keys of the map are exactly the offsets appended to the list. |
| `Contents.SortedOffsetsMatchMap` | main.go:122-124 | The stored list is ascending and a permutation of the appended offsets, and it holds exactly the map's keys. |
| `Contents.MapTitlesFromEntries` | main.go:118 | Every title in the map was written by an entry at that offset. |
| `Contents.MapLastWriteWins` | main.go:118 | An offset maps to the title of the last entry written at it. |
| `Contents.OffsetsOf` | main.go:119 | The offset list has one element per entry, the entry's offset, in entry order. |
| `Shakesearch.Searcher.BinarySearch` | main.go:133-153 | The loop keeps `0 <= low <= high + 1 <= len`, every slot before `low` below the needle and every slot after `high` at least the needle, and `high - low` shrinks. The result is `Resolve` of the needle. |
| `Resolver.Resolve` | main.go:148-152 | The label is "Pre-chapter", "" or one of the titles in the map. `ResolveBeforeFirstSection` and `ResolveGreatestBelow` state which one. |
| `Resolver.CountBelowSplits` | main.go:135-146 | On an ascending list, the count of offsets below the needle is the split point: every slot before it is below the needle, and every slot from it on is at least the needle. |
| `Resolver.CountBelowZero` | main.go:148-150 | The count is zero exactly when no recorded offset is below the needle. |
| `Resolver.ResolveBeforeFirstSection` | main.go:148-150 | With no offset strictly below the needle, the answer is "Pre-chapter". This covers the empty list and a needle equal to the first section start. |
| `Resolver.ResolveGreatestBelow` | main.go:151-152 | Otherwise the answer is the map's title at the greatest recorded offset strictly below the needle, or "" if that offset is not a key. |
| `Resolver.CountBelowMonotonic` | main.go:133-152 | A larger needle never gives a smaller slot, so the resolved section never moves backwards along the text. |
| `Resolver.CountBelow` | main.go:138-146 | The slot found is within the list. |
| `Shakesearch.Searcher.GetAllIdxs` | main.go:155-168 | The result is ascending and, as a multiset, is the lower-case, upper-case and title-case lookups together. |
| `Shakesearch.Candidates` | main.go:155-168 | The candidates are in ascending order. |
| `SearchProperties.CandidateHits` | main.go:155-168 | An offset is a candidate exactly when the query is non-empty and one of its three case variants occurs there. |
| `SearchProperties.CandidateCount` | main.go:160-165 | An offset is listed once for each case variant that occurs there. Duplicates are kept. |
| `SearchProperties.NoLetterQueryListedThrice` | main.go:156-165 | A query without letters is listed three times at each of its occurrences. |
| `SearchProperties.CandidateSpellsQuery` | main.go:156-162 | Every candidate is an occurrence of the query up to ASCII case. |
| `SearchProperties.EmptyQueryNoRows` | main.go:160-162 | The empty query has no candidates and the search gives no rows. |
| `Shakesearch.Searcher.Search` | main.go:170-188 | The rows are exactly `Matches` of the kept candidates: one row per candidate that is neither a section start nor before the first section, in candidate order. |
| `Shakesearch.Searcher.CollectMatches` | main.go:174-187 | The loop's invariant ties the rows so far to the kept prefix of the candidates. At the end the rows are `Matches` of all kept candidates. |
| `Shakesearch.Kept` | main.go:177-180 | No more candidates are reported than were found. |
| `Shakesearch.KeptMembers` | main.go:177-180 | A candidate is reported exactly when it passes `Keeps`, the skip test of lines 177-178: it is not a key of the map and is not below the first section start. |
| `Shakesearch.KeptStep` | main.go:176-180 | Proof step for the loop invariant of `CollectMatches`: one more candidate is appended to the reported ones exactly when it is kept, and then its excerpt fits. |
| `SearchProperties.KeptSorted` | main.go:176-186 | The reported candidates stay in ascending order. |
| `SearchProperties.KeptLabelled` | main.go:177-183 | Every reported hit lies strictly after the first section start. Its label is the title at the greatest section start below it, never "Pre-chapter". |
| `SearchProperties.ReportedRow` | main.go:182-185 | Row `k` is the `k`-th reported hit's section title and the 500 characters `[idx-250, idx+250)` around it. |
| `SearchProperties.ExcerptCentresHit` | main.go:182 | For a query of at most 250 characters, the excerpt spells the query up to ASCII case starting at its middle. |
| `Shakesearch.MatchAt` | main.go:182-184 | A row's excerpt is 500 characters long. |
| `Shakesearch.MatchAtShows` | main.go:182-184 | The excerpt is the text from 250 characters before the hit, and the label is "Pre-chapter", "" or one of the titles in the map. |
| `Shakesearch.Matches` | main.go:184-185 | There is one row per reported hit. |
| `Shakesearch.MatchesRows` | main.go:182-185 | Row `k` is the row made for hit `k`. |
| `Shakesearch.MatchesNext` | main.go:185 | Proof step for the loop invariant of `CollectMatches`: one more hit appends its row. |
| `SuffixIndex.Index.Lookup` | main.go:160-162 | The lookup gives at most one offset per text position. `LookupFinds` states that it lists each occurrence once and nothing for the empty pattern. |
| `SuffixIndex.LookupFinds` | main.go:89 | The lookup lists every occurrence of the pattern exactly once, and nothing for the empty pattern. |
| `SuffixIndex.MatchingFinds` | main.go:128 | Filtering the index order keeps exactly the offsets where the pattern occurs, without repeats. |
| `Sorting.SortInts` | main.go:123 | The result is ascending and a permutation of the input. |
| `Sorting.Insert` | main.go:129 | Inserting keeps the list ascending and adds the element once. |
| `Sorting.SortedPermutationUnique` | main.go:165 | Two ascending permutations of the same numbers are equal, so the sorted result does not depend on the index order. |
| `Sorting.DistinctMultiplicity` | main.go:163-164 | In a duplicate-free lookup an offset occurs once or not at all. |
| `Strings.Split` | main.go:95 | Splitting gives at least one piece. |
| `Strings.JoinSplit` | main.go:95 | Joining the pieces with the separator gives back the window. |
| `Strings.SplitParts` | main.go:95 | No piece contains the separator. |
| `Strings.TrimSpace` | main.go:99 | The trimmed line neither starts nor ends with white space. |
| `Strings.TrimSpaceSlice` | main.go:99 | The trimmed line is a slice of the line with only white space outside it. |
| `Strings.ToLower` | main.go:157 | Lower-casing keeps the length. `LowerChars` gives the character-wise mapping. |
| `Strings.ToUpper` | main.go:156 | Upper-casing keeps the length. `UpperChars` gives the character-wise mapping. |
| `Strings.Title` | main.go:158 | Title-casing keeps the length. `TitleChars` gives the character-wise mapping: a letter after a separator is upper-cased. |
| `Strings.LowerChar` | main.go:157 | An ASCII upper-case letter becomes the lower-case letter 32 code points above it; every other character is kept. |
| `Strings.UpperChar` | main.go:156 | An ASCII lower-case letter becomes the upper-case letter 32 code points below it; every other character is kept. |
| `Strings.LowerChars` | main.go:157 | Character `i` of the lower-cased query is `LowerChar` of character `i`. |
| `Strings.UpperChars` | main.go:156 | Character `i` of the upper-cased query is `UpperChar` of character `i`. |
| `Strings.TitleChars` | main.go:158 | Title-casing upper-cases the first character and every character after a word separator, and keeps every other character. |
| `Strings.VariantOccurrenceSpells` | main.go:156-158 | Wherever a case variant of the query occurs, the text spells the query up to ASCII case. |
| `Strings.VariantsFoldTogether` | main.go:156-158 | The three case variants lower-case to the lower-cased query. |
| `Strings.NoLettersNoCase` | main.go:156-158 | A string without ASCII letters is its own lower-case, upper-case and title-case form. |

## Left out

- `main` and `handleSearch` are not modelled: the HTTP routing, the `PORT`
  variable, the static file server, JSON encoding and status codes.
- `Load` takes the text as a parameter. Reading the corpus file, and its error
  result, are not modelled.
- The suffix array's construction and its internal order are not modelled.
  `Index.sa` stands for the order the library lists offsets in, and is any
  permutation of them.
- Case mapping is ASCII only. `strings.ToLower`, `ToUpper` and `Title` on
  other letters are not modelled.
- Characters are the model's unit, while Go slices strings by byte. The two
  agree for an ASCII corpus. Multi-byte characters are not modelled.
- `sort.Ints` sorts the Go slice in place. The model replaces it with the pure
  function `SortInts`, so aliasing of the sorted slice is not modelled.
- Go panics become preconditions, and are not modelled as run-time failures:
  - no occurrence of "Contents";
  - a contents window past the end of the text;
  - a title with too few occurrences;
  - `ChapterIndexArray[0]` on an empty list;
  - an excerpt past either end of the text.
- `Shakesearch.Searcher.CollectMatches`: the loop of `Search` is a method of
  its own, so that each proof stays small.
- `Search` keeps a Go `[][]string` of two-element rows. The model uses the
  `Match` datatype, with the same two fields in the same order.
- `static/app.js`, the browser page, is not part of this model.
