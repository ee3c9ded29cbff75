/**
 The string operations the searcher relies on: splitting on a separator,
 trimming white space, the three case conversions of a query, and what it
 means for a pattern to occur at an offset of a text.

 Strings are sequences of characters (runes). The case conversions are the
 ASCII ones; characters outside ASCII are left as they are.
 */
module Strings {

  /** `pat` occurs verbatim in `text` starting at offset `i`. */
  predicate OccursAt(text: string, pat: string, i: int)
  {
    0 <= i && i + |pat| <= |text| && text[i..i + |pat|] == pat
  }

  /** Every offset at which `pat` occurs in `text`, overlapping occurrences included. */
  ghost function Occurrences(text: string, pat: string): set<int>
  {
    set i | 0 <= i <= |text| - |pat| && OccursAt(text, pat, i)
  }

  // ---------------------------------------------------------------------------
  // Splitting on a separator character

  /** Concatenates `parts`, putting `sep` between consecutive parts. */
  function Join(parts: seq<string>, sep: char): string
    requires |parts| >= 1
  {
    if |parts| == 1 then parts[0] else parts[0] + [sep] + Join(parts[1..], sep)
  }

  /** The pieces of `s` between occurrences of `sep`; like strings.Split, the
      empty string gives one empty piece and a trailing separator gives a
      trailing empty piece. SplitParts and JoinSplit state what the pieces are. */
  function Split(s: string, sep: char): (r: seq<string>)
    ensures |r| >= 1
  {
    if s == [] then [[]]
    else
      var rest := Split(s[1..], sep);
      if s[0] == sep then [[]] + rest
      else [[s[0]] + rest[0]] + rest[1..]
  }

  /** No piece contains the separator. */
  lemma {:induction false} SplitParts(s: string, sep: char)
    ensures forall i :: 0 <= i < |Split(s, sep)| ==> sep !in Split(s, sep)[i]
  {
    if s != [] {
      SplitParts(s[1..], sep);
    }
  }

  /** Joining the pieces with the separator gives back the string. */
  lemma {:induction false} JoinSplit(s: string, sep: char)
    ensures Join(Split(s, sep), sep) == s
  {
    if s != [] {
      JoinSplit(s[1..], sep);
      var rest := Split(s[1..], sep);
      if s[0] == sep {
        assert Split(s, sep) == [[]] + rest;
        assert ([[]] + rest)[1..] == rest;
      } else {
        assert rest == [rest[0]] + rest[1..];
        var r := Split(s, sep);
        if |rest| > 1 {
          assert r[1..] == rest[1..];
        }
        assert s == [s[0]] + s[1..];
      }
    }
  }

  /** Splitting undoes joining pieces that do not contain the separator. */
  lemma {:induction false} SplitJoin(parts: seq<string>, sep: char)
    requires |parts| >= 1
    requires forall i :: 0 <= i < |parts| ==> sep !in parts[i]
    ensures Split(Join(parts, sep), sep) == parts
  {
    if |parts| == 1 {
      SplitNoSeparator(parts[0], sep);
    } else {
      SplitJoin(parts[1..], sep);
      SplitPrefix(parts[0], Join(parts[1..], sep), sep);
      assert parts == [parts[0]] + parts[1..];
    }
  }

  lemma {:induction false} SplitNoSeparator(s: string, sep: char)
    requires sep !in s
    ensures Split(s, sep) == [s]
  {
    if s != [] {
      SplitNoSeparator(s[1..], sep);
      assert s == [s[0]] + s[1..];
    }
  }

  lemma {:induction false} SplitPrefix(p: string, t: string, sep: char)
    requires sep !in p
    ensures Split(p + [sep] + t, sep) == [p] + Split(t, sep)
  {
    if p == [] {
      assert p + [sep] + t == [sep] + t;
      assert ([sep] + t)[1..] == t;
    } else {
      SplitPrefix(p[1..], t, sep);
      assert (p + [sep] + t)[1..] == p[1..] + [sep] + t;
      assert [p[0]] + p[1..] == p;
    }
  }

  // ---------------------------------------------------------------------------
  // White space and trimming

  /** Unicode white space, as Go's unicode.IsSpace classifies it. */
  predicate IsSpace(c: char)
  {
    c == '\t' || c == '\n' || c == '\U{000B}' || c == '\U{000C}' || c == '\r' || c == ' '
    || c == '\U{0085}' || c == '\U{00A0}' || c == '\U{1680}'
    || ('\U{2000}' <= c <= '\U{200A}')
    || c == '\U{2028}' || c == '\U{2029}' || c == '\U{202F}' || c == '\U{205F}' || c == '\U{3000}'
  }

  predicate AllSpace(s: string)
  {
    forall i :: 0 <= i < |s| ==> IsSpace(s[i])
  }

  /** Drops the leading white space of `s`. */
  function TrimLeft(s: string): (r: string)
    ensures |r| <= |s| && r == s[|s| - |r|..]
    ensures AllSpace(s[..|s| - |r|])
    ensures r == [] || !IsSpace(r[0])
  {
    if s != [] && IsSpace(s[0]) then
      var r := TrimLeft(s[1..]);
      assert s[|s| - |r|..] == s[1..][|s| - 1 - |r|..];
      assert forall i :: 0 < i < |s| - |r| ==> s[i] == s[1..][i - 1];
      r
    else s
  }

  /** Drops the trailing white space of `s`. */
  function TrimRight(s: string): (r: string)
    ensures |r| <= |s| && r == s[..|r|]
    ensures AllSpace(s[|r|..])
    ensures r == [] || !IsSpace(r[|r| - 1])
  {
    if s != [] && IsSpace(s[|s| - 1]) then
      var r := TrimRight(s[..|s| - 1]);
      assert s[..|r|] == s[..|s| - 1][..|r|];
      assert forall i :: |r| <= i < |s| - 1 ==> s[i] == s[..|s| - 1][i];
      r
    else s
  }

  /** strings.TrimSpace: `s` with its leading and trailing white space
      removed; TrimSpaceSlice says which part of `s` it is. */
  function TrimSpace(s: string): (r: string)
    ensures r == [] || (!IsSpace(r[0]) && !IsSpace(r[|r| - 1]))
  {
    TrimRight(TrimLeft(s))
  }

  /** The trimmed string is the slice `s[i..i+|r|]` whose outside is all
      white space. */
  lemma TrimSpaceSlice(s: string)
    ensures var r := TrimSpace(s);
            exists i :: 0 <= i <= |s| - |r| && s[i..i + |r|] == r
                        && AllSpace(s[..i]) && AllSpace(s[i + |r|..])
  {
    var l := TrimLeft(s);
    var r := TrimRight(l);
    var i := |s| - |l|;
    assert l == s[i..];
    assert s[i..i + |r|] == r;
    assert s[i + |r|..] == l[|r|..];
    assert AllSpace(s[..i]) && AllSpace(s[i + |r|..]);
  }


  // ---------------------------------------------------------------------------
  // Case conversions (ASCII)

  predicate IsAsciiUpper(c: char) { 'A' <= c <= 'Z' }
  predicate IsAsciiLower(c: char) { 'a' <= c <= 'z' }
  predicate IsAsciiLetter(c: char) { IsAsciiUpper(c) || IsAsciiLower(c) }

  /** An upper-case ASCII letter becomes its lower-case form; every other
      character is kept. */
  function LowerChar(c: char): (d: char)
    ensures !IsAsciiUpper(d)
    ensures IsAsciiUpper(c) ==> IsAsciiLower(d) && d as int == c as int + 32
    ensures !IsAsciiUpper(c) ==> d == c
  {
    if IsAsciiUpper(c) then (c as int - 'A' as int + 'a' as int) as char else c
  }

  /** A lower-case ASCII letter becomes its upper-case form; every other
      character is kept. */
  function UpperChar(c: char): (d: char)
    ensures !IsAsciiLower(d)
    ensures IsAsciiLower(c) ==> IsAsciiUpper(d) && d as int == c as int - 32
    ensures !IsAsciiLower(c) ==> d == c
  {
    if IsAsciiLower(c) then (c as int - 'a' as int + 'A' as int) as char else c
  }

  /** strings.ToLower on ASCII: LowerChar on every character (LowerChars). */
  function ToLower(s: string): (r: string)
    ensures |r| == |s|
  {
    if s == [] then [] else [LowerChar(s[0])] + ToLower(s[1..])
  }

  /** strings.ToUpper on ASCII: UpperChar on every character (UpperChars). */
  function ToUpper(s: string): (r: string)
    ensures |r| == |s|
  {
    if s == [] then [] else [UpperChar(s[0])] + ToUpper(s[1..])
  }

  /** ToLower maps every character on its own and keeps the positions. */
  lemma {:induction false} LowerChars(s: string)
    ensures forall i :: 0 <= i < |s| ==> ToLower(s)[i] == LowerChar(s[i])
  {
    if s != [] {
      LowerChars(s[1..]);
    }
  }

  /** ToUpper maps every character on its own and keeps the positions. */
  lemma {:induction false} UpperChars(s: string)
    ensures forall i :: 0 <= i < |s| ==> ToUpper(s)[i] == UpperChar(s[i])
  {
    if s != [] {
      UpperChars(s[1..]);
    }
  }

  /** Word boundaries for strings.Title: in ASCII everything but letters, digits
      and '_'; beyond ASCII, white space (a letter or digit is never white space). */
  predicate IsSeparator(c: char)
  {
    if c <= '\U{007F}' then
      !(IsAsciiLetter(c) || ('0' <= c <= '9') || c == '_')
    else
      IsSpace(c)
  }

  /** strings.Title on the characters that follow `prev`. */
  function TitleAfter(prev: char, s: string): (r: string)
    ensures |r| == |s|
    decreases |s|
  {
    if s == [] then []
    else [if IsSeparator(prev) then UpperChar(s[0]) else s[0]] + TitleAfter(s[0], s[1..])
  }

  /** strings.Title: upper-cases the first letter of every word; a word starts
      at the beginning of the string and after every separator (TitleChars). */
  function Title(s: string): (r: string)
    ensures |r| == |s|
  {
    TitleAfter(' ', s)
  }

  /** TitleAfter upper-cases exactly the characters that follow a separator. */
  lemma {:induction false} TitleAfterChars(prev: char, s: string)
    ensures forall i :: 0 <= i < |s| ==>
              TitleAfter(prev, s)[i] == (if IsSeparator(if i == 0 then prev else s[i - 1]) then UpperChar(s[i]) else s[i])
    decreases |s|
  {
    if s != [] {
      var rest := s[1..];
      TitleAfterChars(s[0], rest);
      forall i | 0 <= i < |s|
        ensures TitleAfter(prev, s)[i]
                == (if IsSeparator(if i == 0 then prev else s[i - 1]) then UpperChar(s[i]) else s[i])
      {
        if i > 0 {
          assert TitleAfter(prev, s)[i] == TitleAfter(s[0], rest)[i - 1];
          assert rest[i - 1] == s[i];
          assert i - 1 > 0 ==> rest[i - 2] == s[i - 1];
        }
      }
    }
  }

  /** Title upper-cases the first character and every character after a
      separator, and keeps the rest. */
  lemma TitleChars(s: string)
    ensures s != [] ==> Title(s)[0] == UpperChar(s[0])
    ensures forall i :: 1 <= i < |s| && IsSeparator(s[i - 1]) ==> Title(s)[i] == UpperChar(s[i])
    ensures forall i :: 1 <= i < |s| && !IsSeparator(s[i - 1]) ==> Title(s)[i] == s[i]
  {
    TitleAfterChars(' ', s);
  }

  /** `text` spells `q` at offset `x` when ASCII case is ignored. */
  predicate SpellsAt(text: string, q: string, x: int)
  {
    0 <= x && x + |q| <= |text| && forall i :: 0 <= i < |q| ==> LowerChar(text[x + i]) == LowerChar(q[i])
  }

  /** Each of the three case variants of `q` agrees with `q` character by
      character once case is ignored. */
  lemma VariantCharsFold(q: string)
    ensures forall i :: 0 <= i < |q| ==> LowerChar(ToLower(q)[i]) == LowerChar(q[i])
    ensures forall i :: 0 <= i < |q| ==> LowerChar(ToUpper(q)[i]) == LowerChar(q[i])
    ensures forall i :: 0 <= i < |q| ==> LowerChar(Title(ToLower(q))[i]) == LowerChar(q[i])
  {
    var lower := ToLower(q);
    LowerChars(q);
    UpperChars(q);
    TitleOnlyUpcases(lower);
    forall i | 0 <= i < |q|
      ensures LowerChar(lower[i]) == LowerChar(q[i])
      ensures LowerChar(ToUpper(q)[i]) == LowerChar(q[i])
      ensures LowerChar(Title(lower)[i]) == LowerChar(q[i])
    {
      CaseFolds(q[i]);
      CaseFolds(lower[i]);
    }
  }

  /** Lower-casing undoes upper-casing and lower-casing, one character at a time. */
  lemma CaseFolds(c: char)
    ensures LowerChar(LowerChar(c)) == LowerChar(c)
    ensures LowerChar(UpperChar(c)) == LowerChar(c)
  {
  }

  /** Wherever a case variant of `q` occurs, the text spells `q` up to case. */
  lemma {:induction false} VariantOccurrenceSpells(text: string, q: string, x: int)
    requires OccursAt(text, ToLower(q), x) || OccursAt(text, ToUpper(q), x) || OccursAt(text, Title(ToLower(q)), x)
    ensures SpellsAt(text, q, x)
  {
    VariantCharsFold(q);
    var v := if OccursAt(text, ToLower(q), x) then ToLower(q)
             else if OccursAt(text, ToUpper(q), x) then ToUpper(q)
             else Title(ToLower(q));
    assert OccursAt(text, v, x) && |v| == |q|;
    forall i | 0 <= i < |q|
      ensures LowerChar(text[x + i]) == LowerChar(q[i])
    {
      assert text[x + i] == text[x..x + |v|][i] == v[i];
    }
  }

  /** Title changes a character only by upper-casing it. */
  lemma TitleOnlyUpcases(s: string)
    ensures forall i :: 0 <= i < |s| ==> Title(s)[i] == UpperChar(s[i]) || Title(s)[i] == s[i]
  {
    TitleAfterChars(' ', s);
    forall i | 0 <= i < |s|
      ensures Title(s)[i] == UpperChar(s[i]) || Title(s)[i] == s[i]
    {
      var prev := if i == 0 then ' ' else s[i - 1];
      assert Title(s)[i] == if IsSeparator(prev) then UpperChar(s[i]) else s[i];
    }
  }

  /** The three case variants of a query all fold to the same lower-case string,
      so every one of them is the query up to ASCII case. */
  lemma {:induction false} VariantsFoldTogether(q: string)
    ensures ToLower(ToLower(q)) == ToLower(q)
    ensures ToLower(ToUpper(q)) == ToLower(q)
    ensures ToLower(Title(ToLower(q))) == ToLower(q)
  {
    LowerIdempotent(q);
    LowerOfUpper(q);
    LowerOfTitle(' ', ToLower(q));
    LowerIdempotent(q);
  }

  lemma {:induction false} LowerIdempotent(s: string)
    ensures ToLower(ToLower(s)) == ToLower(s)
  {
    if s != [] {
      LowerIdempotent(s[1..]);
    }
  }

  lemma {:induction false} LowerOfUpper(s: string)
    ensures ToLower(ToUpper(s)) == ToLower(s)
  {
    if s != [] {
      LowerOfUpper(s[1..]);
    }
  }

  lemma {:induction false} LowerOfTitle(prev: char, s: string)
    ensures ToLower(TitleAfter(prev, s)) == ToLower(s)
    decreases |s|
  {
    if s != [] {
      LowerOfTitle(s[0], s[1..]);
    }
  }

  /** A string without ASCII letters is its own lower-case, upper-case and
      title-case form. */
  lemma {:induction false} NoLettersNoCase(s: string)
    requires forall i :: 0 <= i < |s| ==> !IsAsciiLetter(s[i])
    ensures ToLower(s) == s && ToUpper(s) == s && Title(s) == s
  {
    NoLettersTitle(' ', s);
    NoLettersLowerUpper(s);
  }

  lemma {:induction false} NoLettersLowerUpper(s: string)
    requires forall i :: 0 <= i < |s| ==> !IsAsciiLetter(s[i])
    ensures ToLower(s) == s && ToUpper(s) == s
  {
    if s != [] {
      NoLettersLowerUpper(s[1..]);
    }
  }

  lemma {:induction false} NoLettersTitle(prev: char, s: string)
    requires forall i :: 0 <= i < |s| ==> !IsAsciiLetter(s[i])
    ensures TitleAfter(prev, s) == s
    decreases |s|
  {
    if s != [] {
      NoLettersTitle(s[0], s[1..]);
    }
  }
}
