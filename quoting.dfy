/** `quote` of render-table.py: escapes cell text for LaTeX. */
module Quoting {
  import opened Text

  /** The characters quote() escapes, in the order of its replace chain. */
  const QuoteChain: string := "%#&$_{}"

  const QuoteSpecials: set<char> := {'%', '#', '&', '$', '_', '{', '}'}

  /** quote(text): empty input gives "", otherwise strip, escape the seven
      specials in chain order, then double every pair of backslashes. */
  function Quote(text: string): string
  {
    if text == "" then ""
    else Replace(EscapeChain(Strip(text), QuoteChain), "\\\\", "\\\\\\\\")
  }

  /** The replace chain equals escaping each special character once. */
  lemma QuoteChainEscapes(s: string)
    ensures EscapeChain(s, QuoteChain) == Escaped(s, QuoteSpecials)
  {
    assert (set c | c in QuoteChain) == QuoteSpecials;
    EscapeChainIsEscaped(s, QuoteChain);
  }

  /** Escaping a backslash-free text creates no pair of backslashes, so the last
      replace of quote() leaves it alone. */
  lemma {:induction false} DoublingSkipsEscaped(s: string, specials: set<char>)
    requires '\\' !in s && '\\' !in specials
    ensures Replace(Escaped(s, specials), "\\\\", "\\\\\\\\") == Escaped(s, specials)
    decreases |s|
  {
    if s != [] {
      assert s == [s[0]] + s[1..];
      DoublingSkipsEscaped(s[1..], specials);
      var tail := Escaped(s[1..], specials);
      ReplaceSkips(s[0], tail);
      if s[0] in specials {
        ReplaceSkips('\\', [s[0]] + tail);
        assert ['\\', s[0]] + tail == ['\\'] + ([s[0]] + tail);
      }
    }
  }

  /** A character other than a backslash cannot start a pair of backslashes, and
      a backslash followed by another character cannot either. */
  lemma ReplaceSkips(x: char, tail: string)
    requires x != '\\' || (|tail| > 0 && tail[0] != '\\')
    ensures Replace([x] + tail, "\\\\", "\\\\\\\\") == [x] + Replace(tail, "\\\\", "\\\\\\\\")
  {
    var t := [x] + tail;
    assert !("\\\\" <= t) by {
      if x == '\\' { assert t[1] == tail[0]; }
    }
    assert t[1..] == tail;
  }

  /** Empty or whitespace-only text quotes to "", and only such text does. */
  lemma QuoteBlank(text: string)
    ensures Quote(text) == "" <==> Blank(text)
  {
    StripBlank(text);
    if text != "" {
      var t := Strip(text);
      QuoteChainEscapes(t);
      EscapedGrows(t, QuoteSpecials);
      ReplaceGrows(Escaped(t, QuoteSpecials), "\\\\", "\\\\\\\\");
    }
  }

  /** Without backslashes, quoting is escaping each special character of the
      stripped text. */
  lemma QuoteWithoutBackslash(text: string)
    requires '\\' !in Strip(text)
    ensures Quote(text) == Escaped(Strip(text), QuoteSpecials)
  {
    var t := Strip(text);
    if text != "" {
      QuoteChainEscapes(t);
      DoublingSkipsEscaped(t, QuoteSpecials);
    } else {
      assert t == "";
    }
  }

  /** A stripped text with no special character and no backslash comes back as it is. */
  lemma QuotePlain(text: string)
    requires '\\' !in Strip(text)
    requires forall i :: 0 <= i < |Strip(text)| ==> Strip(text)[i] !in QuoteSpecials
    ensures Quote(text) == Strip(text)
  {
    QuoteWithoutBackslash(text);
    EscapedPlain(Strip(text), QuoteSpecials);
  }

  /** Each of the seven characters is output preceded by a backslash, whatever
      the text: escaping marks every special, and the last replace only
      lengthens runs of backslashes. */
  lemma QuoteMarksSpecials(text: string)
    ensures SpecialsMarked(Quote(text), QuoteSpecials)
  {
    if text != "" {
      var e := EscapeChain(Strip(text), QuoteChain);
      QuoteChainEscapes(Strip(text));
      EscapedMarksSpecials(Strip(text), QuoteSpecials);
      MarkedAfterFalse(e, QuoteSpecials);
      DoublingKeepsMarks(e, QuoteSpecials, false);
      MarkedAfterFalse(Quote(text), QuoteSpecials);
    }
  }

  /** For input free of backslashes, every backslash of the output is an escape
      of one of the seven characters. */
  lemma QuoteBackslashesMark(text: string)
    requires '\\' !in Strip(text)
    ensures BackslashesMark(Quote(text), QuoteSpecials)
  {
    QuoteWithoutBackslash(text);
    EscapedBackslashes(Strip(text), QuoteSpecials);
  }

  /** Every special of s sits right after a backslash; at position 0 the
      character before s is a backslash exactly when prev holds. */
  predicate MarkedAfter(s: string, specials: set<char>, prev: bool)
  {
    forall i {:trigger s[i]} :: 0 <= i < |s| && s[i] in specials ==> (i == 0 && prev) || (i > 0 && s[i - 1] == '\\')
  }

  lemma MarkedAfterFalse(s: string, specials: set<char>)
    ensures MarkedAfter(s, specials, false) <==> SpecialsMarked(s, specials)
  {
  }

  /** Doubling the pairs of backslashes keeps every special behind a backslash. */
  lemma {:induction false} DoublingKeepsMarks(s: string, specials: set<char>, prev: bool)
    requires '\\' !in specials
    requires MarkedAfter(s, specials, prev)
    ensures MarkedAfter(Replace(s, "\\\\", "\\\\\\\\"), specials, prev)
    decreases |s|
  {
    var r := Replace(s, "\\\\", "\\\\\\\\");
    if s == [] {
      assert r == [];
    } else if "\\\\" <= s {
      var rest := s[2..];
      assert MarkedAfter(rest, specials, true) by {
        forall i | 0 <= i < |rest| && rest[i] in specials
          ensures (i == 0 && true) || (i > 0 && rest[i - 1] == '\\')
        {
          assert s[i + 2] == rest[i];
        }
      }
      DoublingKeepsMarks(rest, specials, true);
      var tail := Replace(rest, "\\\\", "\\\\\\\\");
      assert r == "\\\\\\\\" + tail;
      forall i | 0 <= i < |r| && r[i] in specials
        ensures (i == 0 && prev) || (i > 0 && r[i - 1] == '\\')
      {
        assert i >= 4 && r[i] == tail[i - 4];
      }
    } else {
      var rest := s[1..];
      var p := s[0] == '\\';
      assert MarkedAfter(rest, specials, p) by {
        forall i | 0 <= i < |rest| && rest[i] in specials
          ensures (i == 0 && p) || (i > 0 && rest[i - 1] == '\\')
        {
          assert s[i + 1] == rest[i];
        }
      }
      DoublingKeepsMarks(rest, specials, p);
      var tail := Replace(rest, "\\\\", "\\\\\\\\");
      assert r == [s[0]] + tail;
      forall i | 0 <= i < |r| && r[i] in specials
        ensures (i == 0 && prev) || (i > 0 && r[i - 1] == '\\')
      {
        if i == 0 {
          assert s[0] == r[0];
        } else {
          assert r[i] == tail[i - 1];
          assert r[i - 1] == if i == 1 then s[0] else tail[i - 2];
        }
      }
    }
  }

  /** Quoting escapes piecewise: the escape of a concatenation is the
      concatenation of the escapes. */
  lemma QuoteConcat(a: string, b: string)
    requires '\\' !in Strip(a + b) && '\\' !in Strip(a) && '\\' !in Strip(b)
    requires Strip(a + b) == Strip(a) + Strip(b)
    ensures Quote(a + b) == Quote(a) + Quote(b)
  {
    QuoteWithoutBackslash(a + b);
    QuoteWithoutBackslash(a);
    QuoteWithoutBackslash(b);
    EscapedConcat(Strip(a), Strip(b), QuoteSpecials);
  }
}
