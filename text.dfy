/** The string primitives the scripts lean on, written out with Python's semantics:
    str.strip, int(), str.split, str.join, str.replace and str.partition. */
module Text {
  import opened Wrappers

  /** The characters Python's argument-less str.strip() removes. */
  const Whitespace: set<char> := {
    '\t', '\n', '\U{000B}', '\U{000C}', '\r', '\U{001C}', '\U{001D}', '\U{001E}', '\U{001F}',
    ' ', '\U{0085}', '\U{00A0}', '\U{1680}', '\U{2000}', '\U{2001}', '\U{2002}', '\U{2003}',
    '\U{2004}', '\U{2005}', '\U{2006}', '\U{2007}', '\U{2008}', '\U{2009}', '\U{200A}',
    '\U{2028}', '\U{2029}', '\U{202F}', '\U{205F}', '\U{3000}'
  }

  /** Every whitespace character lies at or below the space or at or above NEL. */
  lemma NotWhitespace(c: char)
    requires ' ' < c < '\U{0085}'
    ensures c !in Whitespace
  {
  }

  predicate Blank(s: string)
  {
    forall i :: 0 <= i < |s| ==> s[i] in Whitespace
  }

  // ---------------------------------------------------------------- strip

  /** Drops the leading characters that belong to cs. */
  function StripLeft(s: string, cs: set<char>): (r: string)
    ensures |r| <= |s| && r == s[|s| - |r|..]
    ensures forall i :: 0 <= i < |s| - |r| ==> s[i] in cs
    ensures r == [] || r[0] !in cs
    decreases |s|
  {
    if s != [] && s[0] in cs then StripLeft(s[1..], cs) else s
  }

  /** Drops the trailing characters that belong to cs. */
  function StripRight(s: string, cs: set<char>): (r: string)
    ensures |r| <= |s| && r == s[..|r|]
    ensures forall i :: |r| <= i < |s| ==> s[i] in cs
    ensures r == [] || r[|r| - 1] !in cs
    decreases |s|
  {
    if s != [] && s[|s| - 1] in cs then StripRight(s[..|s| - 1], cs) else s
  }

  lemma StripLeftStep(s: string, cs: set<char>)
    requires s != [] && s[0] in cs
    ensures StripLeft(s, cs) == StripLeft(s[1..], cs)
  {
  }

  lemma StripLeftStops(s: string, cs: set<char>)
    requires s == [] || s[0] !in cs
    ensures StripLeft(s, cs) == s
  {
  }

  /** Stripping removes a prefix made only of strippable characters in front
      of a text that has no strippable character at either end. */
  lemma {:induction false} StripCharsPrefix(p: string, t: string, cs: set<char>)
    requires forall i :: 0 <= i < |p| ==> p[i] in cs
    requires t != [] && t[0] !in cs && t[|t| - 1] !in cs
    ensures StripRight(StripLeft(p + t, cs), cs) == t
    decreases |p|
  {
    if p == [] {
      assert p + t == t;
      StripLeftStops(t, cs);
      StripCharsKeeps(t, cs);
    } else {
      assert (p + t)[0] == p[0] && (p + t)[1..] == p[1..] + t;
      StripLeftStep(p + t, cs);
      StripCharsPrefix(p[1..], t, cs);
    }
  }

  /** Python's s.strip(chars). */
  function StripChars(s: string, cs: set<char>): string
  {
    StripRight(StripLeft(s, cs), cs)
  }

  /** Python's s.strip(). */
  function Strip(s: string): string
  {
    StripChars(s, Whitespace)
  }

  /** The stripped text has no strippable character at either end. */
  lemma StripCharsEnds(s: string, cs: set<char>)
    ensures var r := StripChars(s, cs);
      r == [] || (r[0] !in cs && r[|r| - 1] !in cs)
  {
    var l := StripLeft(s, cs);
    var r := StripRight(l, cs);
    if r != [] {
      assert r[0] == l[0] && l[0] !in cs;
    }
  }

  /** A text with nothing strippable at its ends is left as it is. */
  lemma StripCharsKeeps(s: string, cs: set<char>)
    requires s == [] || (s[0] !in cs && s[|s| - 1] !in cs)
    ensures StripChars(s, cs) == s
  {
  }

  lemma StripCharsIdempotent(s: string, cs: set<char>)
    ensures StripChars(StripChars(s, cs), cs) == StripChars(s, cs)
  {
    StripCharsEnds(s, cs);
    StripCharsKeeps(StripChars(s, cs), cs);
  }

  /** Stripping empties a text exactly when every character of it is strippable. */
  lemma {:induction false} StripCharsEmpty(s: string, cs: set<char>)
    ensures StripChars(s, cs) == [] <==> forall i :: 0 <= i < |s| ==> s[i] in cs
  {
    var l := StripLeft(s, cs);
    if l != [] {
      assert StripRight(l, cs) != [] by {
        assert l[0] !in cs;
      }
      assert s[|s| - |l|] == l[0];
    }
  }

  lemma StripBlank(s: string)
    ensures Strip(s) == [] <==> Blank(s)
  {
    StripCharsEmpty(s, Whitespace);
  }

  // ---------------------------------------------------------------- digits

  predicate IsDigit(c: char)
  {
    '0' <= c <= '9'
  }

  predicate AllDigits(s: string)
  {
    forall i :: 0 <= i < |s| ==> IsDigit(s[i])
  }

  /** Both halves of a digit string are digit strings. */
  lemma AllDigitsSplit(s: string, k: nat)
    requires AllDigits(s) && k <= |s|
    ensures AllDigits(s[..k]) && AllDigits(s[k..]) && s[..k] + s[k..] == s
  {
    assert forall i :: 0 <= i < k ==> s[..k][i] == s[i];
    assert forall i :: 0 <= i < |s| - k ==> s[k..][i] == s[k + i];
  }

  /** A character that is not a digit does not occur in a digit string. */
  lemma NonDigitAbsent(s: string, c: char)
    requires AllDigits(s) && !IsDigit(c)
    ensures c !in s
  {
  }

  function DigitValue(c: char): nat
    requires IsDigit(c)
  {
    c as int - '0' as int
  }

  /** The number a string of decimal digits denotes (leading zeros allowed). */
  function DigitsValue(s: string): nat
    requires AllDigits(s)
  {
    if s == [] then 0 else DigitsValue(s[..|s| - 1]) * 10 + DigitValue(s[|s| - 1])
  }

  function DigitChar(d: nat): (c: char)
    requires d < 10
    ensures IsDigit(c) && DigitValue(c) == d
  {
    ('0' as int + d) as char
  }

  /** Python's str(n) for a natural number: its canonical decimal digits. */
  function NatToDigits(n: nat): (r: string)
    ensures |r| >= 1 && AllDigits(r) && DigitsValue(r) == n
    ensures r[0] == '0' ==> n == 0
  {
    if n < 10 then [DigitChar(n)]
    else
      var init := NatToDigits(n / 10);
      var r := init + [DigitChar(n % 10)];
      assert r[..|r| - 1] == init;
      r
  }

  lemma {:induction false} DigitsValueConcat(a: string, b: string)
    requires AllDigits(a) && AllDigits(b)
    ensures AllDigits(a + b)
    ensures DigitsValue(a + b) == DigitsValue(a) * Pow10Nat(|b|) + DigitsValue(b)
    decreases |b|
  {
    assert AllDigits(a + b) by {
      forall i | 0 <= i < |a + b| ensures IsDigit((a + b)[i]) {
        if i < |a| { assert (a + b)[i] == a[i]; } else { assert (a + b)[i] == b[i - |a|]; }
      }
    }
    if b == [] {
      assert a + b == a;
    } else {
      var b' := b[..|b| - 1];
      var d := DigitValue(b[|b| - 1]);
      assert (a + b)[..|a + b| - 1] == a + b';
      assert (a + b)[|a + b| - 1] == b[|b| - 1];
      DigitsValueConcat(a, b');
      var x, y, p := DigitsValue(a), DigitsValue(b'), Pow10Nat(|b'|);
      assert DigitsValue(a + b) == DigitsValue(a + b') * 10 + d;
      assert DigitsValue(b) == y * 10 + d;
      assert Pow10Nat(|b|) == 10 * p;
      MulShift(x, p, y, d);
    }
  }

  lemma MulShift(x: nat, p: nat, y: nat, d: nat)
    ensures (x * p + y) * 10 + d == x * (10 * p) + (y * 10 + d)
  {
  }

  /** Leading zeros do not change the value of a digit string. */
  lemma DigitsValueLeadingZeros(z: string, s: string)
    requires forall i :: 0 <= i < |z| ==> z[i] == '0'
    requires AllDigits(s)
    ensures AllDigits(z + s) && DigitsValue(z + s) == DigitsValue(s)
  {
    ZerosValue(z);
    DigitsValueConcat(z, s);
  }

  lemma {:induction false} ZerosValue(z: string)
    requires forall i :: 0 <= i < |z| ==> z[i] == '0'
    ensures AllDigits(z) && DigitsValue(z) == 0
  {
    if z != [] {
      ZerosValue(z[..|z| - 1]);
    }
  }

  function Pow10Nat(k: nat): (r: nat)
    ensures r >= 1
  {
    if k == 0 then 1 else 10 * Pow10Nat(k - 1)
  }

  // ---------------------------------------------------------------- int()

  /** Python's int(s) on a decimal string: surrounding whitespace, an optional
      sign, then one or more ASCII digits. */
  function ParseInt(s: string): (r: Option<int>)
    ensures Blank(s) ==> r == None
  {
    StripBlank(s);
    ParseSigned(Strip(s))
  }

  /** An optional sign followed by one or more ASCII digits. */
  function ParseSigned(t: string): (r: Option<int>)
    ensures t == [] ==> r == None
  {
    var body := if |t| > 0 && (t[0] == '-' || t[0] == '+') then t[1..] else t;
    if body != [] && AllDigits(body) then
      var v: int := DigitsValue(body);
      Some(if t[0] == '-' then -v else v)
    else None
  }

  /** int() reads back what str() prints. */
  lemma ParseIntOfDigits(n: nat)
    ensures ParseInt(NatToDigits(n)) == Some(n)
  {
    var d := NatToDigits(n);
    assert IsDigit(d[0]) && IsDigit(d[|d| - 1]);
    NotWhitespace(d[0]);
    NotWhitespace(d[|d| - 1]);
    StripCharsKeeps(d, Whitespace);
    assert Strip(d) == d;
    assert ParseSigned(d) == Some(n);
  }

  lemma ParseIntOfNegated(n: nat)
    ensures ParseInt("-" + NatToDigits(n)) == Some(-(n as int))
  {
    var e := NatToDigits(n);
    var d := "-" + e;
    assert d[|d| - 1] == e[|e| - 1] && IsDigit(e[|e| - 1]);
    NotWhitespace(d[0]);
    NotWhitespace(d[|d| - 1]);
    StripCharsKeeps(d, Whitespace);
    assert Strip(d) == d;
    assert d[1..] == e;
    assert ParseSigned(d) == Some(-(n as int));
  }

  // ---------------------------------------------------------------- find, partition

  function FirstIndex(s: string, c: char): (i: nat)
    requires c in s
    ensures i < |s| && s[i] == c && c !in s[..i]
  {
    if s[0] == c then 0
    else
      var j := FirstIndex(s[1..], c);
      assert s[..j + 1] == [s[0]] + s[1..][..j];
      j + 1
  }

  /** Python's s.partition(c): the text before the first c, whether there was
      one, and the text after it. */
  function Partition(s: string, c: char): (r: (string, bool, string))
    ensures r.1 <==> c in s
    ensures r.1 ==> s == r.0 + [c] + r.2 && c !in r.0
    ensures !r.1 ==> r.0 == s && r.2 == ""
  {
    if c in s then
      var i := FirstIndex(s, c);
      assert s == s[..i] + [c] + s[i + 1..];
      (s[..i], true, s[i + 1..])
    else (s, false, "")
  }

  /** The first c of a + [c] + b is the one after a, when a has none. */
  lemma {:induction false} FirstIndexAfter(a: string, c: char, b: string)
    requires c !in a
    ensures FirstIndex(a + [c] + b, c) == |a|
    decreases |a|
  {
    var s := a + [c] + b;
    if a != [] {
      assert s[0] == a[0] && s[1..] == a[1..] + [c] + b;
      assert c !in a[1..] by { assert a == [a[0]] + a[1..]; }
      FirstIndexAfter(a[1..], c, b);
    }
  }

  lemma PartitionAt(a: string, c: char, b: string)
    requires c !in a
    ensures Partition(a + [c] + b, c) == (a, true, b)
  {
    var s := a + [c] + b;
    FirstIndexAfter(a, c, b);
    assert s[..|a|] == a && s[|a| + 1..] == b;
  }

  // ---------------------------------------------------------------- split, join

  /** The scan behind str.split(sep): `cur` is the piece collected so far.
      Separators are found left to right and never overlap. */
  function SplitFrom(s: string, sep: string, cur: string): (r: seq<string>)
    requires |sep| > 0
    ensures |r| >= 1
    decreases |s|
  {
    if s == [] then [cur]
    else if sep <= s then [cur] + SplitFrom(s[|sep|..], sep, "")
    else SplitFrom(s[1..], sep, cur + [s[0]])
  }

  /** Python's s.split(sep) for a non-empty separator. */
  function Split(s: string, sep: string): (r: seq<string>)
    requires |sep| > 0
    ensures |r| >= 1
  {
    SplitFrom(s, sep, "")
  }

  /** A text without the separator's first character is one piece. */
  lemma {:induction false} SplitFromNoSep(s: string, sep: string, cur: string)
    requires |sep| > 0 && sep[0] !in s
    ensures SplitFrom(s, sep, cur) == [cur + s]
    decreases |s|
  {
    if s == [] {
      assert cur + s == cur;
    } else {
      assert s[0] != sep[0] by { assert s[0] in s; }
      assert !(sep <= s);
      assert sep[0] !in s[1..] by {
        assert s == [s[0]] + s[1..];
      }
      SplitFromNoSep(s[1..], sep, cur + [s[0]]);
      assert cur + [s[0]] + s[1..] == cur + s;
    }
  }

  /** Splitting on one character distributes over an occurrence of it. */
  lemma {:induction false} SplitFromConcat(a: string, c: char, b: string, cur: string)
    ensures SplitFrom(a + [c] + b, [c], cur) == SplitFrom(a, [c], cur) + SplitFrom(b, [c], "")
    decreases |a|
  {
    var s := a + [c] + b;
    if a == [] {
      assert [c] <= s;
      assert s[1..] == b;
    } else {
      assert s[0] == a[0];
      assert s[1..] == a[1..] + [c] + b;
      if a[0] == c {
        assert [c] <= s && [c] <= a;
        SplitFromConcat(a[1..], c, b, "");
      } else {
        assert !([c] <= s) && !([c] <= a);
        SplitFromConcat(a[1..], c, b, cur + [a[0]]);
      }
    }
  }

  lemma SplitConcat(a: string, c: char, b: string)
    ensures Split(a + [c] + b, [c]) == Split(a, [c]) + Split(b, [c])
  {
    SplitFromConcat(a, c, b, "");
  }

  /** Python's sep.join(pieces). */
  function Join(pieces: seq<string>, sep: string): string
  {
    if pieces == [] then ""
    else if |pieces| == 1 then pieces[0]
    else pieces[0] + sep + Join(pieces[1..], sep)
  }

  /** The scan passes over a piece without the separator's first character and
      cuts right after it. */
  lemma {:induction false} SplitFromPiece(a: string, sep: string, b: string, cur: string)
    requires |sep| > 0 && sep[0] !in a
    ensures SplitFrom(a + sep + b, sep, cur) == [cur + a] + SplitFrom(b, sep, "")
    decreases |a|
  {
    var s := a + sep + b;
    if a == [] {
      assert s == sep + b && s[|sep|..] == b;
      assert cur + a == cur;
    } else {
      assert s[0] == a[0] && a[0] != sep[0] by { assert a[0] in a; }
      assert !(sep <= s);
      assert s[1..] == a[1..] + sep + b;
      assert sep[0] !in a[1..] by { assert a == [a[0]] + a[1..]; }
      SplitFromPiece(a[1..], sep, b, cur + [a[0]]);
      assert cur + [a[0]] + a[1..] == cur + a;
    }
  }

  /** Splitting undoes joining, provided no piece holds the separator's first
      character. */
  lemma {:induction false} SplitJoin(pieces: seq<string>, sep: string)
    requires |pieces| >= 1 && |sep| > 0
    requires forall k :: 0 <= k < |pieces| ==> sep[0] !in pieces[k]
    ensures Split(Join(pieces, sep), sep) == pieces
  {
    SplitFromNoSep(pieces[0], sep, "");
    assert "" + pieces[0] == pieces[0];
    if |pieces| > 1 {
      SplitJoin(pieces[1..], sep);
      SplitFromPiece(pieces[0], sep, Join(pieces[1..], sep), "");
      assert pieces == [pieces[0]] + pieces[1..];
    }
  }

  /** Python's s.split(c, max): at most `max` splits, the rest stays in the last piece. */
  function SplitMax(s: string, c: char, max: nat): (r: seq<string>)
    ensures 1 <= |r| <= max + 1
    decreases max
  {
    if max == 0 || c !in s then [s]
    else
      var i := FirstIndex(s, c);
      [s[..i]] + SplitMax(s[i + 1..], c, max - 1)
  }

  /** A text without c is one piece however many splits are allowed. */
  lemma SplitMaxNoSep(s: string, c: char, max: nat)
    requires c !in s
    ensures SplitMax(s, c, max) == [s]
  {
  }

  /** Each allowed split cuts at the first remaining c. */
  lemma SplitMaxAt(a: string, c: char, b: string, max: nat)
    requires max > 0 && c !in a
    ensures SplitMax(a + [c] + b, c, max) == [a] + SplitMax(b, c, max - 1)
  {
    var s := a + [c] + b;
    FirstIndexAfter(a, c, b);
    assert s[|a|] == c;
    assert s[..|a|] == a && s[|a| + 1..] == b;
  }

  /** Joining with one more piece at the end adds a separator and that piece. */
  lemma {:induction false} JoinSnoc(pieces: seq<string>, last: string, sep: string)
    requires |pieces| >= 1
    ensures Join(pieces + [last], sep) == Join(pieces, sep) + sep + last
  {
    var ps := pieces + [last];
    if |pieces| > 1 {
      assert ps[1..] == pieces[1..] + [last];
      JoinSnoc(pieces[1..], last, sep);
    } else {
      assert ps[1..] == [last];
    }
  }

  /** A first and a last piece around a non-empty middle. */
  lemma JoinAround(first: string, middle: seq<string>, last: string, sep: string)
    requires |middle| >= 1
    ensures Join([first] + middle + [last], sep) == first + sep + Join(middle, sep) + sep + last
  {
    var ps := [first] + middle + [last];
    assert ps[1..] == middle + [last];
    JoinSnoc(middle, last, sep);
  }

  // ---------------------------------------------------------------- replace

  /** Python's s.replace(pat, rep): occurrences found left to right, never overlapping. */
  function Replace(s: string, pat: string, rep: string): string
    requires |pat| > 0
    decreases |s|
  {
    if s == [] then []
    else if pat <= s then rep + Replace(s[|pat|..], pat, rep)
    else [s[0]] + Replace(s[1..], pat, rep)
  }

  /** Replacing a single character distributes over concatenation. */
  lemma {:induction false} ReplaceCharConcat(a: string, b: string, c: char, rep: string)
    ensures Replace(a + b, [c], rep) == Replace(a, [c], rep) + Replace(b, [c], rep)
    decreases |a|
  {
    if a == [] {
      assert a + b == b;
    } else {
      var head := if a[0] == c then rep else [a[0]];
      assert (a + b)[0] == a[0] && (a + b)[1..] == a[1..] + b;
      ReplaceCharStep(a + b, c, rep);
      ReplaceCharStep(a, c, rep);
      ReplaceCharConcat(a[1..], b, c, rep);
      assert head + (Replace(a[1..], [c], rep) + Replace(b, [c], rep))
          == (head + Replace(a[1..], [c], rep)) + Replace(b, [c], rep);
    }
  }

  /** One character of a single-character replace. */
  lemma ReplaceCharStep(s: string, c: char, rep: string)
    requires s != []
    ensures Replace(s, [c], rep) == (if s[0] == c then rep else [s[0]]) + Replace(s[1..], [c], rep)
  {
    assert [c] <= s <==> s[0] == c;
  }

  /** A replacement at least as long as the pattern never shortens the text. */
  lemma {:induction false} ReplaceGrows(s: string, pat: string, rep: string)
    requires |pat| > 0 && |rep| >= |pat|
    ensures |Replace(s, pat, rep)| >= |s|
    decreases |s|
  {
    if s == [] {
    } else if pat <= s {
      ReplaceGrows(s[|pat|..], pat, rep);
    } else {
      ReplaceGrows(s[1..], pat, rep);
    }
  }

  // ---------------------------------------------------------------- escaping

  /** The reference for a chain of escaping replaces: every character of `specials`
      is preceded by a backslash, every other character is copied. */
  function Escaped(s: string, specials: set<char>): string
  {
    if s == [] then ""
    else (if s[0] in specials then ['\\', s[0]] else [s[0]]) + Escaped(s[1..], specials)
  }

  /** Python's chain s.replace(c1, "\\" + c1).replace(c2, "\\" + c2)..., in the order of cs. */
  function EscapeChain(s: string, cs: string): string
    decreases |cs|
  {
    if cs == [] then s else EscapeChain(Replace(s, [cs[0]], ['\\', cs[0]]), cs[1..])
  }

  lemma {:induction false} EscapedConcat(a: string, b: string, specials: set<char>)
    ensures Escaped(a + b, specials) == Escaped(a, specials) + Escaped(b, specials)
    decreases |a|
  {
    if a == [] {
      assert a + b == b;
    } else {
      assert (a + b)[0] == a[0];
      assert (a + b)[1..] == a[1..] + b;
      EscapedConcat(a[1..], b, specials);
    }
  }

  lemma {:induction false} EscapedNothing(s: string)
    ensures Escaped(s, {}) == s
    decreases |s|
  {
    if s != [] {
      EscapedNothing(s[1..]);
      assert [s[0]] + s[1..] == s;
    }
  }

  /** A text with no special character is its own escape. */
  lemma {:induction false} EscapedPlain(s: string, specials: set<char>)
    requires forall i :: 0 <= i < |s| ==> s[i] !in specials
    ensures Escaped(s, specials) == s
    decreases |s|
  {
    if s != [] {
      EscapedPlain(s[1..], specials);
      assert [s[0]] + s[1..] == s;
    }
  }

  lemma {:induction false} EscapedGrows(s: string, specials: set<char>)
    ensures |Escaped(s, specials)| >= |s|
    decreases |s|
  {
    if s != [] {
      EscapedGrows(s[1..], specials);
    }
  }

  /** Every special character of r sits right after a backslash. */
  predicate SpecialsMarked(r: string, specials: set<char>)
  {
    forall i :: 0 <= i < |r| && r[i] in specials ==> i > 0 && r[i - 1] == '\\'
  }

  /** Every backslash of r is followed by a special character. */
  predicate BackslashesMark(r: string, specials: set<char>)
  {
    forall i :: 0 <= i < |r| && r[i] == '\\' ==> i + 1 < |r| && r[i + 1] in specials
  }

  /** In escaped text every special character sits right after a backslash. */
  lemma {:induction false} EscapedMarksSpecials(s: string, specials: set<char>)
    requires '\\' !in specials
    ensures SpecialsMarked(Escaped(s, specials), specials)
    decreases |s|
  {
    if s != [] {
      EscapedMarksSpecials(s[1..], specials);
      var head := if s[0] in specials then ['\\', s[0]] else [s[0]];
      var tail := Escaped(s[1..], specials);
      var r := Escaped(s, specials);
      assert r == head + tail;
      forall i | 0 <= i < |r| && r[i] in specials
        ensures i > 0 && r[i - 1] == '\\'
      {
        if i >= |head| {
          assert r[i] == tail[i - |head|];
          assert tail[i - |head|] in specials;
          if i - |head| > 0 {
            assert r[i - 1] == tail[i - |head| - 1];
          } else {
            assert false;
          }
        }
      }
    }
  }

  /** In escaped text of a backslash-free input, every backslash is followed by a
      special character: the escapes are the only backslashes. */
  lemma {:induction false} EscapedBackslashes(s: string, specials: set<char>)
    requires '\\' !in s && '\\' !in specials
    ensures BackslashesMark(Escaped(s, specials), specials)
    decreases |s|
  {
    if s != [] {
      assert '\\' !in s[1..] by {
        assert s == [s[0]] + s[1..];
      }
      EscapedBackslashes(s[1..], specials);
      var head := if s[0] in specials then ['\\', s[0]] else [s[0]];
      var tail := Escaped(s[1..], specials);
      var r := Escaped(s, specials);
      assert r == head + tail;
      forall i | 0 <= i < |r| && r[i] == '\\'
        ensures i + 1 < |r| && r[i + 1] in specials
      {
        if i >= |head| {
          assert tail[i - |head|] == '\\';
          assert i - |head| + 1 < |tail|;
          assert r[i + 1] == tail[i - |head| + 1];
        } else {
          assert s[0] != '\\';
        }
      }
    }
  }

  /** One more escaping replace adds its character to the escaped set. */
  lemma {:induction false} ReplaceEscaped(s: string, specials: set<char>, c: char)
    requires c != '\\' && c !in specials
    ensures Replace(Escaped(s, specials), [c], ['\\', c]) == Escaped(s, specials + {c})
    decreases |s|
  {
    if s != [] {
      var head := if s[0] in specials then ['\\', s[0]] else [s[0]];
      ReplaceCharConcat(head, Escaped(s[1..], specials), c, ['\\', c]);
      ReplaceEscaped(s[1..], specials, c);
      if s[0] in specials {
        assert Replace(head, [c], ['\\', c]) == head by {
          assert head[1..] == [s[0]];
          assert [s[0]][1..] == [];
        }
      } else {
        assert head[1..] == [];
      }
    }
  }

  /** A chain of escaping replaces over distinct characters, none of them a
      backslash, escapes each of those characters once. */
  lemma {:induction false} EscapeChainFrom(s: string, specials: set<char>, cs: string)
    requires forall i :: 0 <= i < |cs| ==> cs[i] != '\\' && cs[i] !in specials
    requires forall i, j :: 0 <= i < j < |cs| ==> cs[i] != cs[j]
    ensures EscapeChain(Escaped(s, specials), cs) == Escaped(s, specials + set c | c in cs)
    decreases |cs|
  {
    if cs == [] {
      assert (set c | c in cs) == {};
      assert specials + {} == specials;
    } else {
      ReplaceEscaped(s, specials, cs[0]);
      EscapeChainFrom(s, specials + {cs[0]}, cs[1..]);
      assert specials + {cs[0]} + (set c | c in cs[1..]) == specials + set c | c in cs;
    }
  }

  lemma EscapeChainIsEscaped(s: string, cs: string)
    requires forall i :: 0 <= i < |cs| ==> cs[i] != '\\'
    requires forall i, j :: 0 <= i < j < |cs| ==> cs[i] != cs[j]
    ensures EscapeChain(s, cs) == Escaped(s, set c | c in cs)
  {
    EscapedNothing(s);
    EscapeChainFrom(s, {}, cs);
    assert {} + (set c | c in cs) == set c | c in cs;
  }
}
