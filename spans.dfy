/** Row and column addresses: `Span`, `Spans` and the axis-scoped `RowSpans`
    and `ColSpans` of render-table.py. */
module Spans {
  import opened Wrappers
  import opened Text

  /** A half-open interval [start, end); a missing bound is unbounded. */
  datatype Span = Span(start: Option<int>, end: Option<int>)

  /** Span.__contains__. */
  predicate SpanContains(sp: Span, i: int)
  {
    if sp.start.None? && sp.end.None? then true
    else if sp.start.None? then i < sp.end.value
    else if sp.end.None? then sp.start.value <= i
    else sp.start.value <= i < sp.end.value
  }

  /** An empty piece is absent; otherwise int(piece) + offset. */
  function ParseBound(t: string, offset: int): (r: Result<Option<int>>)
    ensures t == "" ==> r == Ok(None)
    ensures t != "" && r.Ok? ==> r.value.Some?
  {
    if t == "" then Ok(None)
    else match ParseInt(t)
      case None => Err(InvalidInteger(t))
      case Some(n) => Ok(Some(n + offset))
  }

  /** Span.parse: "n", "a-b" (inclusive), "a-" and "-b", split at the first '-'. */
  function ParseSpan(s: string): (r: Result<Span>)
    ensures s == "" ==> r == Err(EmptySpan)
  {
    if s == "" then Err(EmptySpan)
    else
      var (startText, sep, endText) := Partition(s, '-');
      match ParseBound(startText, 0)
      case Err(e) => Err(e)
      case Ok(start) =>
        match ParseBound(endText, 1)
        case Err(e) => Err(e)
        case Ok(end) =>
          if end.None? && !sep then Ok(Span(start, Some(start.value + 1)))
          else Ok(Span(start, end))
  }

  lemma ParseBoundOfDigits(n: nat, offset: int)
    ensures ParseBound(NatToDigits(n), offset) == Ok(Some(n + offset))
  {
    ParseIntOfDigits(n);
  }

  /** "n" holds exactly n. */
  lemma ParseSpanSingle(n: nat)
    ensures ParseSpan(NatToDigits(n)).Ok?
    ensures forall i :: SpanContains(ParseSpan(NatToDigits(n)).value, i) <==> i == n
  {
    var s := NatToDigits(n);
    NonDigitAbsent(s, '-');
    ParseBoundOfDigits(n, 0);
    assert ParseSpan(s) == Ok(Span(Some(n), Some(n + 1)));
  }

  /** "a-b" holds exactly a..b, both ends included. */
  lemma ParseSpanRange(a: nat, b: nat)
    ensures ParseSpan(NatToDigits(a) + "-" + NatToDigits(b)).Ok?
    ensures forall i :: SpanContains(ParseSpan(NatToDigits(a) + "-" + NatToDigits(b)).value, i)
                        <==> a <= i <= b
  {
    RangeBounds(a, b);
  }

  lemma RangeBounds(a: nat, b: nat)
    ensures ParseSpan(NatToDigits(a) + "-" + NatToDigits(b)) == Ok(Span(Some(a), Some(b + 1)))
  {
    var x, y := NatToDigits(a), NatToDigits(b);
    var s := x + "-" + y;
    NonDigitAbsent(x, '-');
    assert s == x + ['-'] + y;
    PartitionAt(x, '-', y);
    ParseBoundOfDigits(a, 0);
    ParseBoundOfDigits(b, 1);
  }

  /** "a-" holds every i >= a. */
  lemma ParseSpanFrom(a: nat)
    ensures ParseSpan(NatToDigits(a) + "-").Ok?
    ensures forall i :: SpanContains(ParseSpan(NatToDigits(a) + "-").value, i) <==> a <= i
  {
    var x := NatToDigits(a);
    NonDigitAbsent(x, '-');
    ParseBoundOfDigits(a, 0);
    ParseSpanOpenEnd(x, a);
  }

  /** "x-", where x is a bound without a '-', parses to a span without an end. */
  lemma ParseSpanOpenEnd(x: string, a: int)
    requires '-' !in x
    requires ParseBound(x, 0) == Ok(Some(a))
    ensures ParseSpan(x + "-") == Ok(Span(Some(a), None))
  {
    PartitionAt(x, '-', "");
    assert x + "-" == x + ['-'] + "";
  }

  /** "-b" has no lower bound: it holds every i <= b, negative ones included. */
  lemma ParseSpanUpTo(b: nat)
    ensures ParseSpan("-" + NatToDigits(b)).Ok?
    ensures forall i :: SpanContains(ParseSpan("-" + NatToDigits(b)).value, i) <==> i <= b
  {
    var y := NatToDigits(b);
    ParseBoundOfDigits(b, 1);
    ParseSpanOpenStart(y, b + 1);
  }

  /** "-y", where y is a bound, parses to a span without a start. */
  lemma ParseSpanOpenStart(y: string, e: int)
    requires ParseBound(y, 1) == Ok(Some(e))
    ensures ParseSpan("-" + y) == Ok(Span(None, Some(e)))
  {
    var s := "-" + y;
    assert s == "" + ['-'] + y;
    PartitionAt("", '-', y);
    assert Partition(s, '-') == ("", true, y);
    assert ParseBound("", 0) == Ok(None);
  }

  /** A lone "-" has neither bound and holds everything. */
  lemma ParseSpanDash()
    ensures ParseSpan("-") == Ok(Span(None, None))
    ensures forall i :: SpanContains(ParseSpan("-").value, i)
  {
    PartitionAt("", '-', "");
    assert "-" == "" + ['-'] + "";
  }

  // ---------------------------------------------------------------- Spans

  /** Spans.__contains__: some member span holds i. */
  predicate InSpans(spans: seq<Span>, i: int)
  {
    exists k :: 0 <= k < |spans| && SpanContains(spans[k], i)
  }

  /** Spans.__contains__ as the source runs it: a scan with an early return. */
  method Contains(spans: seq<Span>, i: int) returns (b: bool)
    ensures b <==> InSpans(spans, i)
  {
    var k := 0;
    while k < |spans|
      invariant 0 <= k <= |spans|
      invariant forall j :: 0 <= j < k ==> !SpanContains(spans[j], i)
    {
      if SpanContains(spans[k], i) {
        return true;
      }
      k := k + 1;
    }
    return false;
  }

  /** Spans.all(): one span with neither bound. */
  function AllSpans(): (r: seq<Span>)
    ensures forall i :: InSpans(r, i)
  {
    var r := [Span(None, None)];
    assert forall i :: SpanContains(r[0], i);
    r
  }

  lemma NoSpansHoldNothing(i: int)
    ensures !InSpans([], i)
  {
  }

  /** The non-empty pieces, in order (the `if s` of Spans.parse). */
  function NonEmpty(pieces: seq<string>): (r: seq<string>)
    ensures forall k :: 0 <= k < |r| ==> r[k] != ""
  {
    if pieces == [] then []
    else (if pieces[0] == "" then [] else [pieces[0]]) + NonEmpty(pieces[1..])
  }

  lemma {:induction false} NonEmptyConcat(a: seq<string>, b: seq<string>)
    ensures NonEmpty(a + b) == NonEmpty(a) + NonEmpty(b)
    decreases |a|
  {
    if a == [] {
      assert a + b == b;
    } else {
      assert (a + b)[0] == a[0] && (a + b)[1..] == a[1..] + b;
      NonEmptyConcat(a[1..], b);
    }
  }

  /** Parses each piece in order; the first failure aborts. */
  function ParseSpanList(pieces: seq<string>): (r: Result<seq<Span>>)
    ensures r.Ok? ==> |r.value| == |pieces|
    ensures r.Ok? ==> forall k :: 0 <= k < |pieces| ==> ParseSpan(pieces[k]) == Ok(r.value[k])
  {
    ParseEachPiece(pieces, ParseSpan)
  }

  /** A list comprehension over the pieces with a parser that may raise. */
  function ParseEachPiece<T>(pieces: seq<string>, parse: string -> Result<T>): (r: Result<seq<T>>)
    ensures r.Ok? ==> |r.value| == |pieces|
    ensures r.Ok? ==> forall k :: 0 <= k < |pieces| ==> parse(pieces[k]) == Ok(r.value[k])
  {
    if pieces == [] then Ok([])
    else match parse(pieces[0])
      case Err(e) => Err(e)
      case Ok(x) =>
        match ParseEachPiece(pieces[1..], parse)
        case Err(e) => Err(e)
        case Ok(rest) => Ok([x] + rest)
  }

  /** Spans.parse: split at commas, drop empty pieces, parse the rest. */
  function ParseSpans(v: string): Result<seq<Span>>
  {
    ParseSpanList(NonEmpty(Split(v, ",")))
  }

  /** Empty comma-separated pieces are ignored, including a doubled comma. */
  lemma ParseSpansSkipsEmptyPieces(a: string, b: string)
    ensures ParseSpans(a + ",," + b) == ParseSpans(a + "," + b)
  {
    var A, B := Split(a, ","), Split(b, ",");
    var L := Split(a + ",," + b, ",");
    SplitDoubleComma(a, b);
    assert L == A + ([""] + B);
    NonEmptyConcat(A, [""] + B);
    NonEmptyConcat([""], B);
    assert NonEmpty([""]) == [];
    assert [] + NonEmpty(B) == NonEmpty(B);
    NonEmptyConcat(A, B);
    assert NonEmpty(L) == NonEmpty(Split(a + "," + b, ","));
  }

  lemma SplitDoubleComma(a: string, b: string)
    ensures Split(a + ",," + b, ",") == Split(a, ",") + [""] + Split(b, ",")
    ensures Split(a + "," + b, ",") == Split(a, ",") + Split(b, ",")
  {
    assert a + ",," + b == a + [','] + ("" + [','] + b);
    assert a + "," + b == a + [','] + b;
    SplitConcat(a, ',', "" + [','] + b);
    SplitConcat("", ',', b);
    SplitConcat(a, ',', b);
    assert Split("", ",") == [""];
  }

  lemma ParseSpansEmpty()
    ensures ParseSpans("") == Ok([])
  {
    assert Split("", ",") == [""];
  }

  // ---------------------------------------------------------------- filter

  /** What Spans.filter yields: the elements whose index the set holds, in order. */
  function FilterSpec<T>(spans: seq<Span>, xs: seq<T>): (r: seq<T>)
    ensures |r| <= |xs|
  {
    if xs == [] then []
    else
      var n := |xs| - 1;
      FilterSpec(spans, xs[..n]) + (if InSpans(spans, n) then [xs[n]] else [])
  }

  /** The indices below n that the set holds, in increasing order. */
  function SelectedIndices(spans: seq<Span>, n: nat): (r: seq<nat>)
    ensures forall k :: 0 <= k < |r| ==> r[k] < n
  {
    if n == 0 then []
    else SelectedIndices(spans, n - 1) + (if InSpans(spans, n - 1) then [n - 1] else [])
  }

  /** The selected indices increase strictly and are exactly the held ones. */
  lemma {:induction false} SelectedIndicesExact(spans: seq<Span>, n: nat)
    ensures var r := SelectedIndices(spans, n);
      && (forall k, l :: 0 <= k < l < |r| ==> r[k] < r[l])
      && (forall j :: j in r <==> 0 <= j < n && InSpans(spans, j))
  {
    if n > 0 {
      SelectedIndicesExact(spans, n - 1);
    }
  }

  /** Element k of the filtered sequence is the element at the k-th selected index. */
  lemma {:induction false} FilterSelects<T>(spans: seq<Span>, xs: seq<T>)
    ensures var idx := SelectedIndices(spans, |xs|);
      && |FilterSpec(spans, xs)| == |idx|
      && forall k :: 0 <= k < |idx| ==> FilterSpec(spans, xs)[k] == xs[idx[k]]
  {
    if xs != [] {
      var n := |xs| - 1;
      FilterSelects(spans, xs[..n]);
      assert forall j :: 0 <= j < n ==> xs[..n][j] == xs[j];
    }
  }

  lemma {:induction false} FilterAll<T>(xs: seq<T>)
    ensures FilterSpec(AllSpans(), xs) == xs
  {
    if xs != [] {
      FilterAll(xs[..|xs| - 1]);
      assert InSpans(AllSpans(), |xs| - 1);
      assert xs[..|xs| - 1] + [xs[|xs| - 1]] == xs;
    }
  }

  lemma {:induction false} FilterNone<T>(xs: seq<T>)
    ensures FilterSpec([], xs) == []
  {
    if xs != [] {
      FilterNone(xs[..|xs| - 1]);
    }
  }

  /** Spans.filter run as the source runs it: one pass over the enumerated input. */
  method Filter<T>(spans: seq<Span>, xs: seq<T>) returns (r: seq<T>)
    ensures r == FilterSpec(spans, xs)
  {
    r := [];
    var i := 0;
    while i < |xs|
      invariant 0 <= i <= |xs|
      invariant r == FilterSpec(spans, xs[..i])
    {
      var held := Contains(spans, i);
      assert xs[..i + 1][..i] == xs[..i];
      if held {
        r := r + [xs[i]];
      }
      i := i + 1;
    }
    assert xs[..|xs|] == xs;
  }

  // ---------------------------------------------------------------- RowSpans, ColSpans

  datatype Axis = RowAxis | ColAxis

  /** A `RowSpans` or `ColSpans`: a span set that tests one component of a coordinate. */
  datatype Domain = Domain(axis: Axis, spans: seq<Span>)

  /** A (row, col) cell coordinate; (row, None) addresses a whole row. */
  datatype Coord = Coord(row: Option<int>, col: Option<int>)

  /** RowSpans.__contains__ and ColSpans.__contains__. */
  predicate InDomain(d: Domain, c: Coord)
  {
    match d.axis
    case RowAxis => if c.row.None? then false else InSpans(d.spans, c.row.value)
    case ColAxis => if c.col.None? then false else InSpans(d.spans, c.col.value)
  }

  /** A row-scoped set never holds a coordinate without a row, a column-scoped
      set never one without a column, and each ignores the other component. */
  lemma DomainAxes(d: Domain, c: Coord)
    ensures d.axis == RowAxis && c.row.None? ==> !InDomain(d, c)
    ensures d.axis == ColAxis && c.col.None? ==> !InDomain(d, c)
    ensures d.axis == RowAxis ==> InDomain(d, c) == InDomain(d, Coord(c.row, None))
    ensures d.axis == ColAxis ==> InDomain(d, c) == InDomain(d, Coord(None, c.col))
  {
  }

  /** Spans.__contains__ behind RowSpans/ColSpans, run as a scan. */
  method DomainContains(d: Domain, c: Coord) returns (b: bool)
    ensures b == InDomain(d, c)
  {
    match d.axis
    case RowAxis =>
      if c.row.None? { return false; }
      b := Contains(d.spans, c.row.value);
    case ColAxis =>
      if c.col.None? { return false; }
      b := Contains(d.spans, c.col.value);
  }
}
