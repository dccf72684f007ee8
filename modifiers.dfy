/** The cell and row modifiers of render-table.py, the MODIFIERS registry and
    parse_modifier.  A modifier is a value: its spans, its arguments, and the
    class it stands for as the constructor. */
module Modifiers {
  import opened Wrappers
  import opened Text
  import opened Decimals
  import opened Spans

  /** One constructor per modifier class; `domain` is the RowSpans/ColSpans it
      carries.  `Option` arguments are the `args` parse received (None when the
      spec had no third part). */
  datatype Modifier =
    | Wrapper(domain: Domain, directive: Option<string>, wrapValue: bool)
    | Bold(domain: Domain)
    | Italic(domain: Domain)
    | BackgroundColor(domain: Domain, color: Option<string>)
    | TextColor(domain: Domain, color: Option<string>)
    | Dot(domain: Domain)
    | CheckmarkIfValue(domain: Domain, expected: Option<string>)
    | CrossmarkIfValue(domain: Domain, expected: Option<string>)
    | List(domain: Domain, marker: Option<string>)   // marker is stored, apply ignores it
    | RoundNumbers(domain: Domain, decimals: int, rounding: Rounding)
    | Percent(domain: Domain, decimals: int)
    | RowBorderWrapper(domain: Domain, borderTop: bool, command: string)
    | RowWrapper(domain: Domain)

  /** The class attribute `priority`: 100 unless a class overrides it. */
  function Priority(m: Modifier): nat
  {
    match m
    case BackgroundColor(_, _) => 10
    case RoundNumbers(_, _, _) => 200
    case Percent(_, _) => 200
    case RowBorderWrapper(_, _, _) => 0
    case RowWrapper(_) => 1
    case _ => 100
  }

  /** An f-string renders None as "None". */
  function Show(o: Option<string>): string
  {
    match o
    case None => "None"
    case Some(s) => s
  }

  // ---------------------------------------------------------------- wrap, wrap_row

  /** WrapperBase.wrap: apply inside the domain, the value unchanged outside it. */
  function Wrap(m: Modifier, cell: Coord, value: string): Result<string>
  {
    if InDomain(m.domain, cell) then Apply(m, value) else Ok(value)
  }

  /** WrapperBase.wrap_row: apply_row when (row, None) is in the domain. */
  function WrapRow(m: Modifier, row: int, value: string): string
  {
    if InDomain(m.domain, Coord(Some(row), None)) then ApplyRow(m, value) else value
  }

  /** Outside its domain a modifier changes neither a cell nor a row. */
  lemma WrapOutside(m: Modifier, cell: Coord, row: int, value: string)
    requires !InDomain(m.domain, cell)
    requires !InDomain(m.domain, Coord(Some(row), None))
    ensures Wrap(m, cell, value) == Ok(value)
    ensures WrapRow(m, row, value) == value
  {
  }

  /** A column-scoped modifier never runs its row hook. */
  lemma ColumnModifierSkipsRows(m: Modifier, row: int, value: string)
    requires m.domain.axis == ColAxis
    ensures WrapRow(m, row, value) == value
  {
    DomainAxes(m.domain, Coord(Some(row), None));
  }

  /** Only the two row classes have a row hook; every other one keeps the row. */
  lemma RowHookOnlyForRowClasses(m: Modifier, row: int, value: string)
    requires !m.RowBorderWrapper? && !m.RowWrapper?
    ensures WrapRow(m, row, value) == value
  {
  }

  // ---------------------------------------------------------------- apply

  /** The `apply` method of each class.  Only the two numeric classes can fail,
      when the text the pattern admits is not a Decimal literal. */
  function Apply(m: Modifier, value: string): (r: Result<string>)
    ensures !m.RoundNumbers? && !m.Percent? ==> r.Ok?
  {
    match m
    case Wrapper(_, d, wrapValue) => Ok(WrapperCell(Show(d), wrapValue, value))
    case Bold(_) => Ok(WrapperCell("bfseries", false, value))
    case Italic(_) => Ok(WrapperCell("itshape", false, value))
    case BackgroundColor(_, color) => Ok("\\cellcolor{" + Show(color) + "}" + value)
    case TextColor(_, color) => Ok("\\color{" + Show(color) + "}{" + value + "}")
    case Dot(_) => Ok(if Strip(value) != "" then "\\textbullet" else value)
    case CheckmarkIfValue(_, expected) => Ok(if Some(Strip(value)) == expected then "\\cmark" else value)
    case CrossmarkIfValue(_, expected) => Ok(if Some(Strip(value)) == expected then "\\xmark" else value)
    case List(_, _) => Ok(if Strip(value) == "" then "" else ItemList(value))
    case RoundNumbers(_, decimals, rounding) => RoundCell(value, decimals, rounding)
    case Percent(_, decimals) => PercentCell(value, decimals)
    case RowBorderWrapper(_, _, _) => Ok(value)
    case RowWrapper(_) => Ok(value)
  }

  /** The `apply_row` hook; WrapperBase's default keeps the row. */
  function ApplyRow(m: Modifier, value: string): string
  {
    match m
    case RowBorderWrapper(_, borderTop, command) =>
      if borderTop then "\\" + command + "\n" + value else value
    case RowWrapper(_) =>
      if value != "" then value + "\n\\\\\n" else "\\\\\n"
    case _ => value
  }

  /** Wrapper.apply with a directive d. */
  function WrapperCell(d: string, wrapValue: bool, value: string): string
  {
    var v := Strip(value);
    if v == "" then ""
    else if wrapValue then "\\" + d + "{" + v + "}"
    else
      var space := if |v| > 0 && v[0] == '\\' then "" else " ";
      "\\" + d + space + v
  }

  /** Wrapper.apply maps a blank value, and only a blank value, to "". */
  lemma WrapperBlank(d: string, wrapValue: bool, value: string)
    ensures Blank(value) <==> WrapperCell(d, wrapValue, value) == ""
  {
    StripBlank(value);
  }

  /** With wrap_value the stripped value is enclosed as `\d{...}` and can be
      read back from between the braces. */
  lemma WrapperEncloses(d: string, value: string)
    requires !Blank(value)
    ensures var r := WrapperCell(d, true, value);
      && r == "\\" + d + "{" + Strip(value) + "}"
      && r[|d| + 2..|r| - 1] == Strip(value)
  {
    StripBlank(value);
    var r := WrapperCell(d, true, value);
    assert r[|d| + 2..|r| - 1] == Strip(value);
  }

  /** Without wrap_value the stripped value follows `\d` and a space, or follows
      `\d` directly when it starts with a backslash. */
  lemma WrapperPrefixes(d: string, value: string)
    requires !Blank(value)
    ensures var v := Strip(value);
      && |v| > 0
      && (v[0] == '\\' ==> WrapperCell(d, false, value) == "\\" + d + v)
      && (v[0] != '\\' ==> WrapperCell(d, false, value) == "\\" + d + " " + v)
  {
    StripBlank(value);
    var v := Strip(value);
    assert v != "";
    if v[0] == '\\' {
      assert WrapperCell(d, false, value) == "\\" + d + "" + v;
      assert "\\" + d + "" == "\\" + d;
    } else {
      assert WrapperCell(d, false, value) == "\\" + d + " " + v;
    }
  }

  /** Dot, cmark-if and xmark-if either put their marker in place of the value
      or return the value unchanged, as the stripped value decides. */
  lemma MarkersReplaceOrKeep(m: Modifier, value: string)
    requires m.Dot? || m.CheckmarkIfValue? || m.CrossmarkIfValue?
    ensures m.Dot? ==> Apply(m, value) == Ok(if Blank(value) then value else "\\textbullet")
    ensures m.CheckmarkIfValue? ==>
      Apply(m, value) == Ok(if m.expected == Some(Strip(value)) then "\\cmark" else value)
    ensures m.CrossmarkIfValue? ==>
      Apply(m, value) == Ok(if m.expected == Some(Strip(value)) then "\\xmark" else value)
    ensures m.CheckmarkIfValue? && m.expected.None? ==> Apply(m, value) == Ok(value)
  {
    StripBlank(value);
  }

  // ---------------------------------------------------------------- List

  const ItemizeBegin: string := "\\begin{tabitemize}"
  const ItemizeEnd: string := "\\end{tabitemize}"

  /** `\item ` before each line. */
  function Items(lines: seq<string>): (r: seq<string>)
    ensures |r| == |lines|
    ensures forall k :: 0 <= k < |r| ==> r[k] == "\\item " + lines[k]
  {
    seq(|lines|, k requires 0 <= k < |lines| => "\\item " + lines[k])
  }

  /** List.apply on a non-blank value: the text without leading and trailing
      dashes and spaces, split at "\n- ", one item per piece, inside tabitemize. */
  function ItemList(value: string): string
  {
    var lines := Split(StripChars(value, {'-', ' '}), "\n- ");
    Join([ItemizeBegin] + Items(lines) + [ItemizeEnd], "\n")
  }

  /** A blank value gives "", any other value an environment that opens with
      `\begin{tabitemize}` and closes with `\end{tabitemize}` around its items. */
  lemma ListShape(m: Modifier, value: string)
    requires m.List?
    ensures Blank(value) ==> Apply(m, value) == Ok("")
    ensures !Blank(value) ==>
      var lines := Split(StripChars(value, {'-', ' '}), "\n- ");
      Apply(m, value) == Ok(ItemizeBegin + "\n" + Join(Items(lines), "\n") + "\n" + ItemizeEnd)
    ensures !Blank(value) ==>
      ItemizeBegin + "\n" <= Apply(m, value).value
  {
    StripBlank(value);
    if !Blank(value) {
      var lines := Split(StripChars(value, {'-', ' '}), "\n- ");
      JoinAround(ItemizeBegin, Items(lines), ItemizeEnd, "\n");
    }
  }

  /** A single bullet "- t" becomes one item holding t. */
  lemma ListSingleItem(m: Modifier, t: string)
    requires m.List?
    requires t != [] && t[0] !in {'-', ' '} && t[|t| - 1] !in {'-', ' '}
    requires '\n' !in t && !Blank(t)
    ensures Apply(m, "- " + t) == Ok(ItemizeBegin + "\n" + "\\item " + t + "\n" + ItemizeEnd)
  {
    BulletStripped(t);
    StripBlank("- " + t);
    SingleItemList(t);
  }

  lemma SingleItemList(t: string)
    requires StripChars("- " + t, {'-', ' '}) == t && '\n' !in t
    ensures ItemList("- " + t) == ItemizeBegin + "\n" + "\\item " + t + "\n" + ItemizeEnd
  {
    var lines := Split(t, "\n- ");
    OneItem(t);
    JoinAround(ItemizeBegin, Items(lines), ItemizeEnd, "\n");
    var x := ItemizeBegin + "\n";
    assert x + ("\\item " + t) == x + "\\item " + t;
  }

  /** A text without a newline is a single item. */
  lemma OneItem(t: string)
    requires '\n' !in t
    ensures Join(Items(Split(t, "\n- ")), "\n") == "\\item " + t
  {
    SplitFromNoSep(t, "\n- ", "");
    assert "" + t == t;
    assert Items([t]) == ["\\item " + t];
  }

  /** Stripping dashes and spaces from "- t" leaves t, which is not blank. */
  lemma BulletStripped(t: string)
    requires t != [] && t[0] !in {'-', ' '} && t[|t| - 1] !in {'-', ' '}
    requires !Blank(t)
    ensures !Blank("- " + t)
    ensures StripChars("- " + t, {'-', ' '}) == t
  {
    PrefixNotBlank("- ", t);
    StripCharsPrefix("- ", t, {'-', ' '});
  }

  lemma PrefixNotBlank(p: string, t: string)
    requires !Blank(t)
    ensures !Blank(p + t)
  {
    var i :| 0 <= i < |t| && t[i] !in Whitespace;
    assert (p + t)[i + |p|] == t[i];
  }

  /** The row end after the closing item is the closing tag. */
  lemma ListEndsWithClosingTag(m: Modifier, value: string)
    requires m.List? && !Blank(value)
    ensures var r := Apply(m, value).value;
      |r| >= |ItemizeEnd| && r[|r| - |ItemizeEnd|..] == ItemizeEnd
  {
    ListShape(m, value);
  }

  // ---------------------------------------------------------------- numeric patterns

  predicate IsSeparator(c: char)
  {
    c == ',' || c == '.'
  }

  /** r"([0-9]+[,.]?)+" matched as a whole: digits first, and never two
      separators in a row. */
  predicate DigitGroups(b: string)
  {
    && |b| > 0 && IsDigit(b[0])
    && (forall i :: 0 <= i < |b| ==> IsDigit(b[i]) || IsSeparator(b[i]))
    && (forall i :: 1 <= i < |b| && IsSeparator(b[i]) ==> !IsSeparator(b[i - 1]))
  }

  /** r"[0-9,.]+" matched as a whole. */
  predicate DigitsAndSeparators(b: string)
  {
    |b| > 0 && forall i :: 0 <= i < |b| ==> IsDigit(b[i]) || IsSeparator(b[i])
  }

  /** r"^-?([0-9]+[,.]?)+" up to the end. */
  predicate RoundNumeral(v: string)
  {
    if |v| > 0 && v[0] == '-' then DigitGroups(v[1..]) else DigitGroups(v)
  }

  /** r"^-?[0-9,.]+" up to the end. */
  predicate PercentNumeral(v: string)
  {
    if |v| > 0 && v[0] == '-' then DigitsAndSeparators(v[1..]) else DigitsAndSeparators(v)
  }

  /** re.match with a final `$`, which also matches just before a trailing newline. */
  predicate EndAnchored(v: string, p: string -> bool)
  {
    p(v) || (|v| > 0 && v[|v| - 1] == '\n' && p(v[..|v| - 1]))
  }

  /** What reaches Decimal(): the value without commas; Decimal ignores the
      surrounding whitespace. */
  function DecimalText(v: string): string
  {
    Strip(Replace(v, ",", ""))
  }

  // ---------------------------------------------------------------- RoundNumbers

  /** y is x rounded to y.exponent fraction digits: toward zero for Down, to the
      nearest with ties to even for HalfEven; the sign is kept. */
  predicate RoundedTo(x: Dec, y: Dec, mode: Rounding)
  {
    var n, q, target := x.coefficient * Pow10(y.exponent), Pow10(x.exponent), y.coefficient * Pow10(x.exponent);
    && y.negative == x.negative
    && (mode == Down ==> target <= n < target + q)
    && (mode == HalfEven ==> 2 * Dist(target, n) <= q)
    && (mode == HalfEven && 2 * Dist(target, n) == q ==> y.coefficient % 2 == 0)
  }

  /** x quantized to d fraction digits. */
  function Quantize(x: Dec, d: nat, mode: Rounding): (y: Dec)
    ensures y.exponent == d && RoundedTo(x, y, mode)
  {
    var c := RoundDiv(x.coefficient * Pow10(d), Pow10(x.exponent), mode);
    assert (c + 1) * Pow10(x.exponent) == c * Pow10(x.exponent) + Pow10(x.exponent);
    Dec(x.negative, c, d)
  }

  /** Decimal division by 10^k, exact. */
  function Shift(x: Dec, k: nat): (y: Dec)
  {
    Dec(x.negative, x.coefficient, x.exponent + k)
  }

  function Render(y: Dec): string
  {
    FormatFixed(y.negative, y.coefficient, y.exponent)
  }

  /** The `(x)` accounting notation becomes `-x`. */
  function Unparen(value: string): string
  {
    if |value| >= 2 && value[0] == '(' && value[|value| - 1] == ')' then
      "-" + value[1..|value| - 1]
    else value
  }

  /** RoundNumbers.apply.  With negative decimals the value is divided by
      10^-decimals and quantized to an integer under the context rounding
      (half-even), never scaled back. */
  function RoundCell(value: string, decimals: int, mode: Rounding): Result<string>
  {
    RoundRewritten(Unparen(value), decimals, mode)
  }

  function RoundRewritten(v: string, decimals: int, mode: Rounding): Result<string>
  {
    if EndAnchored(v, RoundNumeral) then
      (match ParseDecimal(DecimalText(v))
       case None => Err(InvalidDecimal(DecimalText(v)))
       case Some(x) =>
         if decimals < 0 then Ok(Render(Quantize(Shift(x, -decimals), 0, HalfEven)))
         else Ok(Render(Quantize(x, decimals, mode))))
    else
      Ok("{" + (if Strip(v) == "..." then "\\dots" else v) + "}")
  }

  /** `(x)` is read as `-x` before anything else. */
  lemma RoundParens(x: string, decimals: int, mode: Rounding)
    ensures RoundCell("(" + x + ")", decimals, mode) == RoundRewritten("-" + x, decimals, mode)
  {
    var v := "(" + x + ")";
    assert v[1..|v| - 1] == x;
  }

  /** A numeric value is printed with exactly `decimals` fraction digits, and
      the printed number is the input rounded by the chosen mode. */
  lemma RoundNumeric(v: string, decimals: nat, mode: Rounding)
    requires EndAnchored(v, RoundNumeral)
    requires ParseDecimal(DecimalText(v)).Some?
    ensures RoundRewritten(v, decimals, mode).Ok?
    ensures var x := ParseDecimal(DecimalText(v)).value;
      var out := ParseDecimal(RoundRewritten(v, decimals, mode).value);
      out.Some? && out.value.exponent == decimals && RoundedTo(x, out.value, mode)
  {
    var y := Quantize(ParseDecimal(DecimalText(v)).value, decimals, mode);
    FormatParseRoundTrip(y.negative, y.coefficient, y.exponent);
  }

  /** With negative decimals the value divided by 10^-decimals is printed as an
      integer, rounded half-even whatever the second argument said. */
  lemma RoundNegativeDecimals(v: string, decimals: int, mode: Rounding)
    requires decimals < 0
    requires EndAnchored(v, RoundNumeral)
    requires ParseDecimal(DecimalText(v)).Some?
    ensures RoundRewritten(v, decimals, mode).Ok?
    ensures var x := ParseDecimal(DecimalText(v)).value;
      var out := ParseDecimal(RoundRewritten(v, decimals, mode).value);
      out.Some? && out.value.exponent == 0 && RoundedTo(Shift(x, -decimals), out.value, HalfEven)
  {
    var y := Quantize(Shift(ParseDecimal(DecimalText(v)).value, -decimals), 0, HalfEven);
    FormatParseRoundTrip(y.negative, y.coefficient, y.exponent);
  }

  /** Any other value is wrapped in braces, with `...` turned into `\dots`. */
  lemma RoundOther(v: string, decimals: int, mode: Rounding)
    requires !EndAnchored(v, RoundNumeral)
    ensures Strip(v) == "..." ==> RoundRewritten(v, decimals, mode) == Ok("{\\dots}")
    ensures Strip(v) != "..." ==> RoundRewritten(v, decimals, mode) == Ok("{" + v + "}")
  {
    assert "{" + "\\dots" + "}" == "{\\dots}";
  }

  // ---------------------------------------------------------------- Percent

  /** Percent.apply: a numeric value times 100, quantized half-even to
      `decimals` places ("0" * n is "" for a negative n, so none), inside \pct{}. */
  function PercentCell(value: string, decimals: int): Result<string>
  {
    if EndAnchored(value, PercentNumeral) then
      (match ParseDecimal(DecimalText(value))
       case None => Err(InvalidDecimal(DecimalText(value)))
       case Some(x) =>
         var d := if decimals < 0 then 0 else decimals;
         Ok("\\pct{" + Render(Quantize(Hundredfold(x), d, HalfEven)) + "}"))
    else Ok(value)
  }

  function Hundredfold(x: Dec): Dec
  {
    Dec(x.negative, x.coefficient * 100, x.exponent)
  }

  /** A numeric value v becomes \pct{p} where p is 100 * v rounded half-even to
      `decimals` places; anything else passes through unchanged. */
  lemma PercentNumeric(v: string, decimals: int)
    requires EndAnchored(v, PercentNumeral)
    requires ParseDecimal(DecimalText(v)).Some?
    ensures var r := PercentCell(v, decimals);
      && r.Ok? && |r.value| >= 6
      && r.value[..5] == "\\pct{" && r.value[|r.value| - 1] == '}'
    ensures var r := PercentCell(v, decimals).value;
      var x := ParseDecimal(DecimalText(v)).value;
      var out := ParseDecimal(r[5..|r| - 1]);
      && out.Some?
      && out.value.exponent == (if decimals < 0 then 0 else decimals)
      && RoundedTo(Hundredfold(x), out.value, HalfEven)
  {
    var x := ParseDecimal(DecimalText(v)).value;
    var d := if decimals < 0 then 0 else decimals;
    var y := Quantize(Hundredfold(x), d, HalfEven);
    var s := Render(y);
    assert PercentCell(v, decimals) == Ok("\\pct{" + s + "}");
    FormatParseRoundTrip(y.negative, y.coefficient, y.exponent);
    PctEnclosed(s);
  }

  lemma PctEnclosed(s: string)
    ensures var r := "\\pct{" + s + "}";
      |r| >= 6 && r[..5] == "\\pct{" && r[|r| - 1] == '}' && r[5..|r| - 1] == s
  {
    var r := "\\pct{" + s + "}";
    assert r[5..|r| - 1] == s;
  }

  lemma PercentOther(v: string, decimals: int)
    requires !EndAnchored(v, PercentNumeral)
    ensures PercentCell(v, decimals) == Ok(v)
  {
  }

  // ---------------------------------------------------------------- row hooks

  /** RowBorderWrapper puts `\cmd` and a newline in front of the row iff its
      border_top flag is set, and keeps cells as they are. */
  lemma RowBorderPrepends(m: Modifier, value: string)
    requires m.RowBorderWrapper?
    ensures Apply(m, value) == Ok(value)
    ensures m.borderTop ==> ApplyRow(m, value) == "\\" + m.command + "\n" + value
    ensures !m.borderTop ==> ApplyRow(m, value) == value
    ensures var r := ApplyRow(m, value); |r| >= |value| && r[|r| - |value|..] == value
  {
    var r := ApplyRow(m, value);
    assert r[|r| - |value|..] == value;
  }

  /** RowWrapper never gives an empty row: a non-empty row is kept and ended by
      a newline, `\\` and a newline; an empty row becomes `\\` and a newline. */
  lemma RowWrapperEnds(m: Modifier, value: string)
    requires m.RowWrapper?
    ensures Apply(m, value) == Ok(value)
    ensures ApplyRow(m, value) != ""
    ensures value != "" ==> ApplyRow(m, value) == value + "\n\\\\\n"
    ensures value == "" ==> ApplyRow(m, value) == "\\\\\n"
    ensures var r := ApplyRow(m, value); value <= r && r[|r| - 3..] == "\\\\\n"
  {
  }

  // ---------------------------------------------------------------- MODIFIERS, parse

  datatype Kind = WrapKind | BoldKind | ItalicKind | BgKind | FgKind | RoundKind
                | PercentKind | DotKind | ListKind | CmarkKind | XmarkKind

  /** The MODIFIERS registry. */
  const Registry: map<string, Kind> := map[
    "bold" := BoldKind, "italic" := ItalicKind, "bg" := BgKind, "fg" := FgKind,
    "round" := RoundKind, "percent" := PercentKind, "dot" := DotKind,
    "list" := ListKind, "cmark-if" := CmarkKind, "xmark-if" := XmarkKind,
    "wrap" := WrapKind
  ]

  /** The classmethod `parse` of each registered class. */
  function ParseKind(kind: Kind, key: string, domain: Domain, args: Option<string>): (r: Result<Modifier>)
    ensures r.Ok? ==> r.value.domain == domain
    ensures r.Ok? ==> !r.value.RowBorderWrapper? && !r.value.RowWrapper?
    ensures r.Err? ==> r.error in {UnexpectedArgument(key), MissingArgument(key)}
                       || r.error.InvalidInteger?
  {
    match kind
    case WrapKind => Ok(Wrapper(domain, args, true))
    case BoldKind => if args.Some? then Err(UnexpectedArgument(key)) else Ok(Bold(domain))
    case ItalicKind => if args.Some? then Err(UnexpectedArgument(key)) else Ok(Italic(domain))
    case BgKind => Ok(BackgroundColor(domain, args))
    case FgKind => Ok(TextColor(domain, args))
    case DotKind => if args.Some? then Err(UnexpectedArgument(key)) else Ok(Dot(domain))
    case ListKind => Ok(List(domain, args))
    case CmarkKind => Ok(CheckmarkIfValue(domain, args))
    case XmarkKind => Ok(CrossmarkIfValue(domain, args))
    case RoundKind =>
      if args.None? then Err(MissingArgument(key))
      else
        var parts := Split(args.value, ",");
        var rounding := if |parts| > 1 && parts[1] == "down" then Down else HalfEven;
        (match ParseInt(parts[0])
         case None => Err(InvalidInteger(parts[0]))
         case Some(d) => Ok(RoundNumbers(domain, d, rounding)))
    case PercentKind =>
      if args.None? then Err(MissingArgument(key))
      else
        match ParseInt(args.value)
        case None => Err(InvalidInteger(args.value))
        case Some(d) => Ok(Percent(domain, d))
  }

  /** parse_modifier once the spec is cut into its parts: spans first, then the key. */
  function ParseParts(spansText: string, key: string, args: Option<string>, axis: Axis): (r: Result<Modifier>)
    ensures r.Ok? ==> ParseSpans(spansText).Ok? && r.value.domain == Domain(axis, ParseSpans(spansText).value)
    ensures r.Ok? ==> key in Registry
    ensures r.Ok? ==> !r.value.RowBorderWrapper? && !r.value.RowWrapper?
  {
    match ParseSpans(spansText)
    case Err(e) => Err(e)
    case Ok(spans) =>
      if key in Registry then ParseKind(Registry[key], key, Domain(axis, spans), args)
      else Err(UnknownModifier(key))
  }

  /** parse_modifier(m, spans_cls): m.split(":", 2), with the axis of spans_cls. */
  function ParseModifier(m: string, axis: Axis): (r: Result<Modifier>)
    ensures ':' !in m ==> r == Err(InvalidModifierSpec(m))
    ensures r.Ok? ==> r.value.domain.axis == axis
    ensures r.Ok? ==> !r.value.RowBorderWrapper? && !r.value.RowWrapper?
  {
    var spec := SplitMax(m, ':', 2);
    if |spec| == 3 then ParseParts(spec[0], spec[1], Some(spec[2]), axis)
    else if |spec| == 2 then ParseParts(spec[0], spec[1], None, axis)
    else Err(InvalidModifierSpec(m))
  }

  /** Only the first two colons cut: the arguments may hold any number of them. */
  lemma ParseModifierWithArgs(spansText: string, key: string, args: string, axis: Axis)
    requires ':' !in spansText && ':' !in key
    ensures ParseModifier(spansText + ":" + key + ":" + args, axis) == ParseParts(spansText, key, Some(args), axis)
  {
    var m := spansText + ":" + key + ":" + args;
    var rest := key + ":" + args;
    assert m == spansText + [':'] + rest;
    assert rest == key + [':'] + args;
    SplitMaxAt(spansText, ':', rest, 2);
    SplitMaxAt(key, ':', args, 1);
    assert SplitMax(args, ':', 0) == [args];
    var spec := SplitMax(m, ':', 2);
    assert spec == [spansText, key, args];
    assert ParseModifier(m, axis) == ParseParts(spec[0], spec[1], Some(spec[2]), axis);
  }

  /** Two parts leave the arguments None. */
  lemma ParseModifierWithoutArgs(spansText: string, key: string, axis: Axis)
    requires ':' !in spansText && ':' !in key
    ensures ParseModifier(spansText + ":" + key, axis) == ParseParts(spansText, key, None, axis)
  {
    var m := spansText + ":" + key;
    assert m == spansText + [':'] + key;
    SplitMaxAt(spansText, ':', key, 2);
    SplitMaxNoSep(key, ':', 1);
  }

  /** A key outside the registry is refused once the spans have parsed. */
  lemma UnknownKeyRefused(spansText: string, key: string, args: Option<string>, axis: Axis)
    requires ParseSpans(spansText).Ok? && key !in Registry
    ensures ParseParts(spansText, key, args, axis) == Err(UnknownModifier(key))
  {
  }

  /** The keys registered for Bold, Italic and Dot (bold, italic, dot) refuse
      an argument and accept none. */
  lemma FlagsRefuseArguments(spansText: string, key: string, args: Option<string>, axis: Axis)
    requires key in Registry && Registry[key] in {BoldKind, ItalicKind, DotKind}
    requires ParseSpans(spansText).Ok?
    ensures args.Some? ==> ParseParts(spansText, key, args, axis) == Err(UnexpectedArgument(key))
    ensures args.None? ==> ParseParts(spansText, key, args, axis).Ok?
  {
    var kind := Registry[key];
    var domain := Domain(axis, ParseSpans(spansText).value);
    assert ParseParts(spansText, key, args, axis) == ParseKind(kind, key, domain, args);
    FlagKind(kind, key, domain, args);
  }

  lemma FlagKind(kind: Kind, key: string, domain: Domain, args: Option<string>)
    requires kind == BoldKind || kind == ItalicKind || kind == DotKind
    ensures args.Some? ==> ParseKind(kind, key, domain, args) == Err(UnexpectedArgument(key))
    ensures args.None? ==> ParseKind(kind, key, domain, args).Ok?
  {
  }

  /** The MODIFIERS keys and the class each one names. */
  lemma RegistryKeys()
    ensures Registry.Keys == {"bold", "italic", "bg", "fg", "round", "percent", "dot",
                              "list", "cmark-if", "xmark-if", "wrap"}
    ensures Registry["bold"] == BoldKind && Registry["italic"] == ItalicKind
    ensures Registry["dot"] == DotKind && Registry["round"] == RoundKind
  {
  }

  /** round reads the decimals from the first comma piece and rounds half-even
      unless the second piece is exactly "down". */
  lemma RoundPieces(args: string, domain: Domain, n: int)
    requires ParseInt(Split(args, ",")[0]) == Some(n)
    ensures var pieces := Split(args, ",");
      ParseKind(RoundKind, "round", domain, Some(args))
        == Ok(RoundNumbers(domain, n, if |pieces| > 1 && pieces[1] == "down" then Down else HalfEven))
    ensures ParseKind(RoundKind, "round", domain, None) == Err(MissingArgument("round"))
  {
  }

  /** "n" and "n,down" for a natural number n. */
  lemma RoundArguments(n: nat, domain: Domain)
    ensures ParseKind(RoundKind, "round", domain, Some(NatToDigits(n)))
      == Ok(RoundNumbers(domain, n, HalfEven))
    ensures ParseKind(RoundKind, "round", domain, Some(NatToDigits(n) + ",down"))
      == Ok(RoundNumbers(domain, n, Down))
  {
    var ds := NatToDigits(n);
    DigitsOnePiece(n);
    ParseIntOfDigits(n);
    RoundPieces(ds, domain, n);
    NonDigitAbsent(ds, ',');
    DownPieces(ds);
    RoundPieces(ds + ",down", domain, n);
  }

  lemma DownPieces(ds: string)
    requires ',' !in ds
    ensures Split(ds + ",down", ",") == [ds, "down"]
  {
    SplitFromNoSep(ds, ",", "");
    assert "" + ds == ds;
    SplitFromNoSep("down", ",", "");
    assert "" + "down" == "down";
    assert ds + ",down" == ds + [','] + "down";
    SplitConcat(ds, ',', "down");
  }

  lemma DigitsOnePiece(n: nat)
    ensures Split(NatToDigits(n), ",") == [NatToDigits(n)]
  {
    var ds := NatToDigits(n);
    NonDigitAbsent(ds, ',');
    SplitFromNoSep(ds, ",", "");
    assert "" + ds == ds;
  }

  /** The priorities of the classes. */
  lemma Priorities(d: Domain)
    ensures Priority(RoundNumbers(d, 0, HalfEven)) == Priority(Percent(d, 0)) == 200
    ensures Priority(Wrapper(d, None, true)) == Priority(Bold(d)) == Priority(List(d, None)) == 100
    ensures Priority(BackgroundColor(d, None)) == 10
    ensures Priority(RowWrapper(d)) == 1 && Priority(RowBorderWrapper(d, true, "")) == 0
  {
  }
}
