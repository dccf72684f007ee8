/** prepare-data.py: the quoting of headers and values, the row filter, the
    month arithmetic behind the date ticks, and the date bookkeeping of main. */
module PrepareData {
  import opened Wrappers
  import opened Text

  // ---------------------------------------------------------------- quote_header

  /** The characters of s outside cs, in order. */
  function Removed(s: string, cs: set<char>): (r: string)
    ensures |r| <= |s|
    ensures forall i :: 0 <= i < |r| ==> r[i] !in cs && r[i] in s
  {
    if s == [] then ""
    else (if s[0] in cs then "" else [s[0]]) + Removed(s[1..], cs)
  }

  /** quote_header: `k.replace(" ", "").replace("_", "")`. */
  function QuoteHeader(k: string): string
  {
    Replace(Replace(k, " ", ""), "_", "")
  }

  /** Replacing a character by nothing removes it. */
  lemma {:induction false} ReplaceByNothing(s: string, c: char)
    ensures Replace(s, [c], "") == Removed(s, {c})
    decreases |s|
  {
    if s != [] {
      ReplaceByNothing(s[1..], c);
      if [c] <= s {
        assert s[0] == c;
        assert s[|[c]|..] == s[1..];
      }
    }
  }

  lemma {:induction false} RemovedTwice(s: string, a: set<char>, b: set<char>)
    ensures Removed(Removed(s, a), b) == Removed(s, a + b)
    decreases |s|
  {
    if s != [] {
      RemovedTwice(s[1..], a, b);
      var head := if s[0] in a then "" else [s[0]];
      RemovedConcat(head, Removed(s[1..], a), b);
      if s[0] !in a {
        assert Removed(head, b) == (if s[0] in b then "" else [s[0]]) by {
          assert head[1..] == [];
        }
      }
    }
  }

  lemma {:induction false} RemovedConcat(x: string, y: string, cs: set<char>)
    ensures Removed(x + y, cs) == Removed(x, cs) + Removed(y, cs)
    decreases |x|
  {
    if x == [] {
      assert x + y == y;
    } else {
      assert (x + y)[0] == x[0] && (x + y)[1..] == x[1..] + y;
      RemovedConcat(x[1..], y, cs);
    }
  }

  lemma {:induction false} RemovedNothingToRemove(s: string, cs: set<char>)
    requires forall i :: 0 <= i < |s| ==> s[i] !in cs
    ensures Removed(s, cs) == s
    decreases |s|
  {
    if s != [] {
      RemovedNothingToRemove(s[1..], cs);
      assert [s[0]] + s[1..] == s;
    }
  }

  /** quote_header drops every space and underscore and keeps every other
      character in its order; a quoted header is quoted already. */
  lemma QuoteHeaderRemoves(k: string)
    ensures QuoteHeader(k) == Removed(k, {' ', '_'})
    ensures ' ' !in QuoteHeader(k) && '_' !in QuoteHeader(k)
    ensures QuoteHeader(QuoteHeader(k)) == QuoteHeader(k)
  {
    ReplaceByNothing(k, ' ');
    ReplaceByNothing(Removed(k, {' '}), '_');
    RemovedTwice(k, {' '}, {'_'});
    assert {' '} + {'_'} == {' ', '_'};
    var q := Removed(k, {' ', '_'});
    ReplaceByNothing(q, ' ');
    RemovedNothingToRemove(q, {' '});
    ReplaceByNothing(q, '_');
    RemovedNothingToRemove(q, {'_'});
  }

  // ---------------------------------------------------------------- quote_value

  const ValueSpecials: set<char> := {'%', '#', '&'}

  /** quote_value: strip, then escape `%`, `#` and `&` in that order. */
  function QuoteValue(v: string): string
  {
    EscapeChain(Strip(v), "%#&")
  }

  /** Drops the backslash in front of each special character. */
  function Unescaped(r: string, specials: set<char>): string
    decreases |r|
  {
    if r == [] then ""
    else if r[0] == '\\' && |r| > 1 && r[1] in specials then [r[1]] + Unescaped(r[2..], specials)
    else [r[0]] + Unescaped(r[1..], specials)
  }

  /** Removing the escapes gives back the escaped text, whatever it held. */
  lemma {:induction false} UnescapeEscaped(s: string, specials: set<char>)
    requires '\\' !in specials
    ensures Unescaped(Escaped(s, specials), specials) == s
    decreases |s|
  {
    if s != [] {
      var tail := Escaped(s[1..], specials);
      UnescapeEscaped(s[1..], specials);
      if s[0] in specials {
        var r := ['\\', s[0]] + tail;
        assert r[2..] == tail;
      } else {
        var r := [s[0]] + tail;
        assert r[1..] == tail;
        if tail != [] {
          EscapedHead(s[1..], specials);
        }
      }
      assert [s[0]] + s[1..] == s;
    }
  }

  /** An escaped text never starts with a special character. */
  lemma EscapedHead(s: string, specials: set<char>)
    requires '\\' !in specials && s != []
    ensures Escaped(s, specials)[0] !in specials
  {
  }

  /** quote_value prefixes each `%`, `#` and `&` of the stripped text with a
      backslash, copying everything else; dropping those backslashes gives the
      stripped text back. */
  lemma QuoteValueEscapes(v: string)
    ensures QuoteValue(v) == Escaped(Strip(v), ValueSpecials)
    ensures SpecialsMarked(QuoteValue(v), ValueSpecials)
    ensures Unescaped(QuoteValue(v), ValueSpecials) == Strip(v)
  {
    var s := Strip(v);
    ChainEscapesSpecials(s);
    EscapedRoundTrip(s, ValueSpecials);
  }

  /** Escaping marks every special character and can be undone. */
  lemma EscapedRoundTrip(s: string, specials: set<char>)
    requires '\\' !in specials
    ensures SpecialsMarked(Escaped(s, specials), specials)
    ensures Unescaped(Escaped(s, specials), specials) == s
  {
    EscapedMarksSpecials(s, specials);
    UnescapeEscaped(s, specials);
  }

  /** The three replace calls escape the three specials of a value. */
  lemma ChainEscapesSpecials(s: string)
    ensures EscapeChain(s, "%#&") == Escaped(s, ValueSpecials)
  {
    var cs := "%#&";
    assert cs[0] == '%' && cs[1] == '#' && cs[2] == '&' && |cs| == 3;
    assert (set c | c in cs) == ValueSpecials;
    EscapeChainIsEscaped(s, cs);
  }

  /** A stripped value without `%`, `#` or `&` is written as it is. */
  lemma QuoteValuePlain(v: string)
    requires forall i :: 0 <= i < |Strip(v)| ==> Strip(v)[i] !in ValueSpecials
    ensures QuoteValue(v) == Strip(v)
  {
    QuoteValueEscapes(v);
    EscapedPlain(Strip(v), ValueSpecials);
  }

  // ---------------------------------------------------------------- keeprow, iterrows

  /** A row of csv.DictReader; None is the reader's restval. */
  type Row = map<string, Option<string>>

  /** One `key:value` spec against a row: whether the field equals the value,
      or why the spec cannot be checked. */
  function FieldEquals(row: Row, spec: string): (r: Result<bool>)
    ensures r.Err? ==> r.error == InvalidFilterSpec(spec) || r.error.MissingField?
  {
    var parts := Split(spec, ":");
    if |parts| != 2 then Err(InvalidFilterSpec(spec))
    else if parts[0] !in row then Err(MissingField(parts[0]))
    else Ok(row[parts[0]] == Some(parts[1]))
  }

  /** A spec `key:value` whose key and value hold no colon is checked against
      the field named key. */
  lemma FieldEqualsSpec(row: Row, key: string, value: string)
    requires ':' !in key && ':' !in value
    ensures FieldEquals(row, key + ":" + value) ==
      if key in row then Ok(row[key] == Some(value)) else Err(MissingField(key))
  {
    SplitJoin([key, value], ":");
    assert Join([key, value], ":") == key + ":" + value by {
      assert [key, value][1..] == [value];
    }
  }

  /** A spec with no colon, or with two, is refused. */
  lemma FieldEqualsRefuses(row: Row, spec: string)
    requires |Split(spec, ":")| != 2
    ensures FieldEquals(row, spec) == Err(InvalidFilterSpec(spec))
  {
  }

  /** keeprow: the filters in order, each returning False on a mismatch, then
      the excludes in order, each returning False on a match. */
  function KeepRowSpec(row: Row, filters: seq<string>, excludes: seq<string>): Result<bool>
    decreases |filters| + |excludes|
  {
    if filters != [] then
      match FieldEquals(row, filters[0])
      case Err(e) => Err(e)
      case Ok(eq) => if !eq then Ok(false) else KeepRowSpec(row, filters[1..], excludes)
    else if excludes != [] then
      match FieldEquals(row, excludes[0])
      case Err(e) => Err(e)
      case Ok(eq) => if eq then Ok(false) else KeepRowSpec(row, [], excludes[1..])
    else Ok(true)
  }

  /** A row is kept iff every filter holds and no exclude does. */
  lemma {:induction false} KeepRowIff(row: Row, filters: seq<string>, excludes: seq<string>)
    ensures KeepRowSpec(row, filters, excludes) == Ok(true) <==>
      (forall i :: 0 <= i < |filters| ==> FieldEquals(row, filters[i]) == Ok(true))
      && (forall j :: 0 <= j < |excludes| ==> FieldEquals(row, excludes[j]) == Ok(false))
    decreases |filters| + |excludes|
  {
    if filters != [] {
      KeepRowIff(row, filters[1..], excludes);
      assert forall i :: 1 <= i < |filters| ==> filters[1..][i - 1] == filters[i];
    } else if excludes != [] {
      KeepRowIff(row, [], excludes[1..]);
      assert forall j :: 1 <= j < |excludes| ==> excludes[1..][j - 1] == excludes[j];
    }
  }

  /** With well-formed specs over present fields keeprow never raises. */
  lemma {:induction false} KeepRowTotal(row: Row, filters: seq<string>, excludes: seq<string>)
    requires forall i :: 0 <= i < |filters| ==> FieldEquals(row, filters[i]).Ok?
    requires forall j :: 0 <= j < |excludes| ==> FieldEquals(row, excludes[j]).Ok?
    ensures KeepRowSpec(row, filters, excludes).Ok?
    decreases |filters| + |excludes|
  {
    if filters != [] {
      assert FieldEquals(row, filters[0]).Ok?;
      KeepRowTotal(row, filters[1..], excludes);
    } else if excludes != [] {
      assert FieldEquals(row, excludes[0]).Ok?;
      KeepRowTotal(row, [], excludes[1..]);
    }
  }

  /** Checks one spec as keeprow's loops do: split, unpack, look up. */
  method CheckField(row: Row, spec: string) returns (r: Result<bool>)
    ensures r == FieldEquals(row, spec)
  {
    var parts := Split(spec, ":");
    if |parts| != 2 {
      return Err(InvalidFilterSpec(spec));
    }
    var key, value := parts[0], parts[1];
    if key !in row {
      return Err(MissingField(key));
    }
    return Ok(row[key] == Some(value));
  }

  /** keeprow, with its two loops and early returns. */
  method KeepRow(row: Row, filters: seq<string>, excludes: seq<string>) returns (r: Result<bool>)
    ensures r == KeepRowSpec(row, filters, excludes)
  {
    var i := 0;
    while i < |filters|
      invariant 0 <= i <= |filters|
      invariant KeepRowSpec(row, filters, excludes) == KeepRowSpec(row, filters[i..], excludes)
    {
      assert filters[i..][1..] == filters[i + 1..];
      var eq := CheckField(row, filters[i]);
      if eq.Err? {
        return Err(eq.error);
      }
      if !eq.value {
        return Ok(false);
      }
      i := i + 1;
    }
    var j := 0;
    while j < |excludes|
      invariant 0 <= j <= |excludes|
      invariant KeepRowSpec(row, filters, excludes) == KeepRowSpec(row, [], excludes[j..])
    {
      assert excludes[j..][1..] == excludes[j + 1..];
      var eq := CheckField(row, excludes[j]);
      if eq.Err? {
        return Err(eq.error);
      }
      if eq.value {
        return Ok(false);
      }
      j := j + 1;
    }
    return Ok(true);
  }

  /** iterrows collected: the kept rows in order; the first raising keeprow
      ends the iteration. */
  function IterRowsSpec(rows: seq<Row>, filters: seq<string>, excludes: seq<string>): (r: Result<seq<Row>>)
    ensures r.Ok? ==> |r.value| <= |rows|
  {
    if rows == [] then Ok([])
    else
      var n := |rows| - 1;
      match IterRowsSpec(rows[..n], filters, excludes)
      case Err(e) => Err(e)
      case Ok(kept) =>
        match KeepRowSpec(rows[n], filters, excludes)
        case Err(e) => Err(e)
        case Ok(keep) => Ok(kept + (if keep then [rows[n]] else []))
  }

  /** The positions of the rows keeprow accepts, in increasing order. */
  function AcceptedIndices(rows: seq<Row>, filters: seq<string>, excludes: seq<string>): (r: seq<nat>)
    ensures forall k :: 0 <= k < |r| ==> r[k] < |rows|
  {
    Positions(rows, row => KeepRowSpec(row, filters, excludes) == Ok(true))
  }

  /** The positions of the elements that pass a test, in increasing order. */
  function Positions<T>(xs: seq<T>, test: T -> bool): (r: seq<nat>)
    ensures forall k :: 0 <= k < |r| ==> r[k] < |xs|
  {
    if xs == [] then []
    else
      var n := |xs| - 1;
      Positions(xs[..n], test) + (if test(xs[n]) then [n] else [])
  }

  /** The positions increase strictly and are exactly those of the elements
      that pass. */
  lemma {:induction false} PositionsExact<T>(xs: seq<T>, test: T -> bool)
    ensures var idx := Positions(xs, test);
      && (forall k, l :: 0 <= k < l < |idx| ==> idx[k] < idx[l])
      && (forall j :: j in idx <==> 0 <= j < |xs| && test(xs[j]))
    decreases |xs|
  {
    if xs != [] {
      var n := |xs| - 1;
      var prefix := xs[..n];
      PositionsExact(prefix, test);
      var idx := Positions(prefix, test) + (if test(xs[n]) then [n] else []);
      assert Positions(xs, test) == idx;
      forall j
        ensures j in idx <==> 0 <= j < |xs| && test(xs[j])
      {
        if 0 <= j < n {
          assert prefix[j] == xs[j];
        }
      }
      IncreasingSnoc(Positions(prefix, test), n, test(xs[n]));
    }
  }

  /** iterrows yields exactly the rows keeprow accepts, in their order: element
      k of its output is the row at the k-th accepted position, the positions
      increase strictly, and they are exactly the accepted ones.  When it
      finishes, keeprow raised on no row. */
  lemma IterRowsSelects(rows: seq<Row>, filters: seq<string>, excludes: seq<string>)
    requires IterRowsSpec(rows, filters, excludes).Ok?
    ensures var kept := IterRowsSpec(rows, filters, excludes).value;
      var idx := AcceptedIndices(rows, filters, excludes);
      && |kept| == |idx|
      && (forall k :: 0 <= k < |idx| ==> kept[k] == rows[idx[k]])
      && (forall k, l :: 0 <= k < l < |idx| ==> idx[k] < idx[l])
      && (forall j :: j in idx <==> 0 <= j < |rows| && KeepRowSpec(rows[j], filters, excludes) == Ok(true))
      && (forall j :: 0 <= j < |rows| ==> KeepRowSpec(rows[j], filters, excludes).Ok?)
  {
    IterRowsPositions(rows, filters, excludes);
    AcceptedIndicesExact(rows, filters, excludes);
  }

  /** The output of iterrows, read off the accepted positions. */
  lemma {:induction false} IterRowsPositions(rows: seq<Row>, filters: seq<string>, excludes: seq<string>)
    requires IterRowsSpec(rows, filters, excludes).Ok?
    ensures var kept := IterRowsSpec(rows, filters, excludes).value;
      var idx := AcceptedIndices(rows, filters, excludes);
      && |kept| == |idx|
      && (forall k :: 0 <= k < |idx| ==> kept[k] == rows[idx[k]])
      && (forall j :: 0 <= j < |rows| ==> KeepRowSpec(rows[j], filters, excludes).Ok?)
    decreases |rows|
  {
    if rows != [] {
      var n := |rows| - 1;
      var prefix := rows[..n];
      IterRowsPositions(prefix, filters, excludes);
      var keep := KeepRowSpec(rows[n], filters, excludes) == Ok(true);
      PickedSnoc(rows, IterRowsSpec(prefix, filters, excludes).value, AcceptedIndices(prefix, filters, excludes), keep);
      forall j | 0 <= j < |rows|
        ensures KeepRowSpec(rows[j], filters, excludes).Ok?
      {
        if j < n {
          assert prefix[j] == rows[j];
        }
      }
    }
  }

  /** Extending a picked subsequence of the first n rows by row n, or not. */
  lemma PickedSnoc<T>(rows: seq<T>, picked: seq<T>, idx: seq<nat>, keep: bool)
    requires |rows| > 0 && |picked| == |idx|
    requires forall k :: 0 <= k < |idx| ==> idx[k] < |rows| - 1 && picked[k] == rows[..|rows| - 1][idx[k]]
    ensures var n := |rows| - 1;
      var picked' := picked + (if keep then [rows[n]] else []);
      var idx' := idx + (if keep then [n] else []);
      && |picked'| == |idx'|
      && forall k :: 0 <= k < |idx'| ==> picked'[k] == rows[idx'[k]]
  {
  }

  /** Appending a position past every earlier one keeps them increasing. */
  lemma IncreasingSnoc(idx: seq<nat>, n: nat, keep: bool)
    requires forall k :: 0 <= k < |idx| ==> idx[k] < n
    requires forall k, l :: 0 <= k < l < |idx| ==> idx[k] < idx[l]
    ensures var idx' := idx + (if keep then [n] else []);
      forall k, l :: 0 <= k < l < |idx'| ==> idx'[k] < idx'[l]
  {
  }

  /** The accepted positions increase strictly and are exactly the positions of
      the rows keeprow accepts. */
  lemma AcceptedIndicesExact(rows: seq<Row>, filters: seq<string>, excludes: seq<string>)
    ensures var idx := AcceptedIndices(rows, filters, excludes);
      && (forall k, l :: 0 <= k < l < |idx| ==> idx[k] < idx[l])
      && (forall j :: j in idx <==> 0 <= j < |rows| && KeepRowSpec(rows[j], filters, excludes) == Ok(true))
  {
    PositionsExact(rows, row => KeepRowSpec(row, filters, excludes) == Ok(true));
  }

  /** iterrows, consumed by a for loop. */
  method IterRows(rows: seq<Row>, filters: seq<string>, excludes: seq<string>) returns (r: Result<seq<Row>>)
    ensures r == IterRowsSpec(rows, filters, excludes)
  {
    var kept: seq<Row> := [];
    var i := 0;
    while i < |rows|
      invariant 0 <= i <= |rows|
      invariant IterRowsSpec(rows[..i], filters, excludes) == Ok(kept)
    {
      ghost var upto := rows[..i + 1];
      assert upto[..i] == rows[..i] && upto[i] == rows[i];
      var keep := KeepRow(rows[i], filters, excludes);
      if keep.Err? {
        PrefixErrorStays(rows, filters, excludes, i + 1);
        return Err(keep.error);
      }
      var next := kept + (if keep.value then [rows[i]] else []);
      assert IterRowsSpec(upto, filters, excludes) == Ok(next);
      kept := next;
      i := i + 1;
    }
    assert rows[..i] == rows;
    return Ok(kept);
  }

  /** An error among the first n rows is the error of the whole iteration. */
  lemma {:induction false} PrefixErrorStays(rows: seq<Row>, filters: seq<string>, excludes: seq<string>, n: nat)
    requires n <= |rows| && IterRowsSpec(rows[..n], filters, excludes).Err?
    ensures IterRowsSpec(rows, filters, excludes) == IterRowsSpec(rows[..n], filters, excludes)
    decreases |rows| - n
  {
    if n < |rows| {
      assert rows[..n + 1][..n] == rows[..n];
      PrefixErrorStays(rows, filters, excludes, n + 1);
    } else {
      assert rows[..n] == rows;
    }
  }

  // ---------------------------------------------------------------- dates

  datatype Date = Date(year: int, month: int, day: int)

  predicate IsLeap(y: int)
  {
    y % 4 == 0 && (y % 100 != 0 || y % 400 == 0)
  }

  function DaysIn(y: int, m: int): int
  {
    if m == 2 then (if IsLeap(y) then 29 else 28)
    else if m == 4 || m == 6 || m == 9 || m == 11 then 30
    else 31
  }

  /** What datetime.date accepts: years 1 to 9999 and real calendar days. */
  predicate ValidDate(d: Date)
  {
    1 <= d.year <= 9999 && 1 <= d.month <= 12 && 1 <= d.day <= DaysIn(d.year, d.month)
  }

  type Day = d: Date | ValidDate(d) witness Date(1, 1, 1)

  /** Date comparison: by year, then month, then day. */
  predicate Before(a: Date, b: Date)
  {
    a.year < b.year || (a.year == b.year && (a.month < b.month || (a.month == b.month && a.day < b.day)))
  }

  predicate AtMost(a: Date, b: Date)
  {
    a == b || Before(a, b)
  }

  /** Months since the start of year 0. */
  function MonthIndex(d: Date): int
  {
    d.year * 12 + d.month - 1
  }

  /** For first-of-month dates the order is the order of their month indices. */
  lemma FirstsOrder(a: Day, b: Day)
    requires a.day == 1 && b.day == 1
    ensures Before(a, b) <==> MonthIndex(a) < MonthIndex(b)
    ensures a == b <==> MonthIndex(a) == MonthIndex(b)
  {
  }

  /** next_month: day 1 of the following month, December rolling over into
      January; datetime refuses the month after December 9999. */
  function NextMonth(d: Day): (r: Result<Day>)
    ensures r.Err? <==> d.year == 9999 && d.month == 12
    ensures r.Err? ==> r.error == YearOutOfRange
    ensures r.Ok? ==> r.value.day == 1 && MonthIndex(r.value) == MonthIndex(d) + 1
  {
    if d.month == 12 then
      if d.year + 1 > 9999 then Err(YearOutOfRange) else Ok(Date(d.year + 1, 1, 1))
    else Ok(Date(d.year, d.month + 1, 1))
  }

  /** The next month is strictly later, and it is the earliest first-of-month
      date that is. */
  lemma NextMonthLeast(d: Day, e: Day)
    requires NextMonth(d).Ok?
    ensures Before(d, NextMonth(d).value)
    ensures e.day == 1 && Before(d, e) ==> AtMost(NextMonth(d).value, e)
  {
    var n := NextMonth(d).value;
    if e.day == 1 && Before(d, e) {
      assert MonthIndex(d) < MonthIndex(e);
      FirstsOrder(n, e);
    }
  }

  /** December rolls over to January of the following year. */
  lemma NextMonthDecember(d: Day)
    requires d.month == 12 && d.year < 9999
    ensures NextMonth(d) == Ok(Date(d.year + 1, 1, 1))
  {
  }

  // ---------------------------------------------------------------- itermonths

  /** Python's `m % f == 0` for a frequency f: whatever the sign rule of the
      remainder, it is zero exactly when f divides m. */
  predicate Tick(d: Date, frequency: int)
    requires frequency != 0
  {
    (d.month - 1) % frequency == 0
  }

  /** The loop of itermonths from `date` on, up to and including `last`. */
  function MonthsFrom(date: Day, last: Day, frequency: int): Result<seq<Day>>
    decreases MonthIndex(last) - MonthIndex(date)
  {
    if !AtMost(date, last) then Ok([])
    else if frequency == 0 then Err(ZeroFrequency)
    else
      var head := if Tick(date, frequency) then [date] else [];
      match NextMonth(date)
      case Err(e) => Err(e)
      case Ok(next) =>
        match MonthsFrom(next, last, frequency)
        case Err(e) => Err(e)
        case Ok(rest) => Ok(head + rest)
  }

  /** itermonths(from_date, to_date, frequency), collected. */
  function ItermonthsSpec(fromDate: Day, toDate: Day, frequency: int): Result<seq<Day>>
  {
    match NextMonth(fromDate)
    case Err(e) => Err(e)
    case Ok(first) =>
      match NextMonth(toDate)
      case Err(e) => Err(e)
      case Ok(last) => MonthsFrom(first, last, frequency)
  }

  /** itermonths: the while loop that advances `date` a month at a time. */
  method Itermonths(fromDate: Day, toDate: Day, frequency: int) returns (r: Result<seq<Day>>)
    ensures r == ItermonthsSpec(fromDate, toDate, frequency)
  {
    var first := NextMonth(fromDate);
    if first.Err? {
      return Err(first.error);
    }
    var last := NextMonth(toDate);
    if last.Err? {
      return Err(last.error);
    }
    var date := first.value;
    var ticks: seq<Day> := [];
    AfterNothing(MonthsFrom(date, last.value, frequency));
    while AtMost(date, last.value)
      invariant MonthsFrom(first.value, last.value, frequency) == After(ticks, MonthsFrom(date, last.value, frequency))
      decreases MonthIndex(last.value) - MonthIndex(date)
    {
      if frequency == 0 {
        return Err(ZeroFrequency);
      }
      ghost var done := ticks;
      if (date.month - 1) % frequency == 0 {
        ticks := ticks + [date];
      }
      var next := NextMonth(date);
      if next.Err? {
        return Err(next.error);
      }
      ghost var head := if Tick(date, frequency) then [date] else [];
      MonthsFromStep(date, last.value, frequency, next.value);
      AfterStep(done, head, MonthsFrom(next.value, last.value, frequency));
      assert ticks == done + head;
      date := next.value;
    }
    AfterNothing(MonthsFrom(date, last.value, frequency));
    return Ok(ticks);
  }

  /** One pass of the loop: the tick for `date`, if any, then the rest. */
  lemma MonthsFromStep(date: Day, last: Day, frequency: int, next: Day)
    requires AtMost(date, last) && frequency != 0 && NextMonth(date) == Ok(next)
    ensures MonthsFrom(date, last, frequency)
         == After(if Tick(date, frequency) then [date] else [], MonthsFrom(next, last, frequency))
  {
  }

  /** The outcome of a loop that has already yielded `done`. */
  function After(done: seq<Day>, rest: Result<seq<Day>>): Result<seq<Day>>
  {
    match rest
    case Err(e) => Err(e)
    case Ok(xs) => Ok(done + xs)
  }

  lemma AfterNothing(rest: Result<seq<Day>>)
    ensures After([], rest) == rest
    ensures rest == Ok([]) ==> forall done :: After(done, rest) == Ok(done)
  {
    if rest.Ok? {
      assert [] + rest.value == rest.value;
    }
    if rest == Ok([]) {
      forall done: seq<Day> ensures After(done, rest) == Ok(done) {
        assert done + [] == done;
      }
    }
  }

  lemma AfterStep(done: seq<Day>, head: seq<Day>, rest: Result<seq<Day>>)
    ensures After(done, After(head, rest)) == After(done + head, rest)
  {
    if rest.Ok? {
      assert done + (head + rest.value) == done + head + rest.value;
    }
  }

  lemma AtMostTrans(a: Date, b: Date, c: Date)
    ensures AtMost(a, b) && AtMost(b, c) ==> AtMost(a, c)
    ensures Before(a, b) && AtMost(b, c) ==> Before(a, c)
  {
  }

  /** Each yielded date is a first-of-month date from `lo` to `hi` on the frequency. */
  predicate TicksWithin(xs: seq<Day>, lo: Date, hi: Date, frequency: int)
  {
    forall k :: 0 <= k < |xs| ==>
      xs[k].day == 1 && AtMost(lo, xs[k]) && AtMost(xs[k], hi) && frequency != 0 && Tick(xs[k], frequency)
  }

  predicate Increasing(xs: seq<Day>)
  {
    forall k, l :: 0 <= k < l < |xs| ==> Before(xs[k], xs[l])
  }

  /** Every first-of-month date from `lo` to `hi` on the frequency is yielded. */
  ghost predicate TicksCovered(xs: seq<Day>, lo: Date, hi: Date, frequency: int)
  {
    forall e: Day :: e.day == 1 && AtMost(lo, e) && AtMost(e, hi) && frequency != 0 && Tick(e, frequency) ==> e in xs
  }

  /** One turn of the loop: the date if it is on the frequency, then the rest. */
  lemma MonthsFromUnfold(date: Day, last: Day, frequency: int)
    requires AtMost(date, last) && MonthsFrom(date, last, frequency).Ok?
    ensures frequency != 0 && NextMonth(date).Ok?
    ensures MonthsFrom(NextMonth(date).value, last, frequency).Ok?
    ensures MonthsFrom(date, last, frequency).value ==
      (if Tick(date, frequency) then [date] else []) + MonthsFrom(NextMonth(date).value, last, frequency).value
  {
  }

  lemma {:induction false} MonthsFromSound(date: Day, last: Day, frequency: int)
    requires date.day == 1 && MonthsFrom(date, last, frequency).Ok?
    ensures TicksWithin(MonthsFrom(date, last, frequency).value, date, last, frequency)
    decreases MonthIndex(last) - MonthIndex(date)
  {
    if AtMost(date, last) {
      MonthsFromUnfold(date, last, frequency);
      var next := NextMonth(date).value;
      MonthsFromSound(next, last, frequency);
      var head := if Tick(date, frequency) then [date] else [];
      var rest := MonthsFrom(next, last, frequency).value;
      var xs := head + rest;
      forall k | 0 <= k < |xs|
        ensures xs[k].day == 1 && AtMost(date, xs[k]) && AtMost(xs[k], last) && frequency != 0 && Tick(xs[k], frequency)
      {
        if k < |head| {
          assert xs[k] == date;
        } else {
          assert xs[k] == rest[k - |head|];
          NextMonthLeast(date, date);
          AtMostTrans(date, next, xs[k]);
        }
      }
    }
  }

  /** The dates of the loop are first-of-month dates after `date`, so they can
      only be yielded when `date` itself starts a month. */
  lemma {:induction false} MonthsFromIncreasing(date: Day, last: Day, frequency: int)
    requires MonthsFrom(date, last, frequency).Ok?
    ensures Increasing(MonthsFrom(date, last, frequency).value)
    decreases MonthIndex(last) - MonthIndex(date)
  {
    if AtMost(date, last) {
      MonthsFromUnfold(date, last, frequency);
      var next := NextMonth(date).value;
      MonthsFromIncreasing(next, last, frequency);
      MonthsFromSound(next, last, frequency);
      var head := if Tick(date, frequency) then [date] else [];
      var rest := MonthsFrom(next, last, frequency).value;
      NextMonthLeast(date, date);
      forall k | 0 <= k < |rest|
        ensures Before(date, rest[k])
      {
        AtMostTrans(date, next, rest[k]);
      }
      PrependEarlier(date, head, rest);
    }
  }

  /** A date before every element of an increasing list may go in front. */
  lemma PrependEarlier(date: Day, head: seq<Day>, rest: seq<Day>)
    requires head == [] || head == [date]
    requires Increasing(rest)
    requires forall k :: 0 <= k < |rest| ==> Before(date, rest[k])
    ensures Increasing(head + rest)
  {
    var xs := head + rest;
    forall k, l | 0 <= k < l < |xs|
      ensures Before(xs[k], xs[l])
    {
      assert xs[l] == rest[l - |head|];
      if k >= |head| {
        assert xs[k] == rest[k - |head|];
      }
    }
  }

  lemma {:induction false} MonthsFromComplete(date: Day, last: Day, frequency: int)
    requires date.day == 1 && MonthsFrom(date, last, frequency).Ok?
    ensures TicksCovered(MonthsFrom(date, last, frequency).value, date, last, frequency)
    decreases MonthIndex(last) - MonthIndex(date)
  {
    var xs := MonthsFrom(date, last, frequency).value;
    if AtMost(date, last) {
      MonthsFromUnfold(date, last, frequency);
      var next := NextMonth(date).value;
      MonthsFromComplete(next, last, frequency);
      var head := if Tick(date, frequency) then [date] else [];
      var rest := MonthsFrom(next, last, frequency).value;
      assert xs == head + rest;
      forall e: Day | e.day == 1 && AtMost(date, e) && AtMost(e, last) && frequency != 0 && Tick(e, frequency)
        ensures e in xs
      {
        if e == date {
          assert xs[0] == e;
        } else {
          NextMonthLeast(date, e);
          assert e in rest;
        }
      }
    } else {
      forall e: Day | AtMost(date, e) && AtMost(e, last)
        ensures false
      {
        AtMostTrans(date, e, last);
      }
    }
  }

  /** Nothing is yielded when next_month(from_date) is later than next_month(to_date). */
  lemma ItermonthsEmpty(fromDate: Day, toDate: Day, frequency: int)
    requires NextMonth(fromDate).Ok? && NextMonth(toDate).Ok?
    requires Before(NextMonth(toDate).value, NextMonth(fromDate).value)
    ensures ItermonthsSpec(fromDate, toDate, frequency) == Ok([])
  {
  }

  /** The ticks from itermonths are exactly the first-of-month dates from
      next_month(from_date) to next_month(to_date) on the frequency, in
      increasing order. */
  lemma ItermonthsExact(fromDate: Day, toDate: Day, frequency: int)
    requires ItermonthsSpec(fromDate, toDate, frequency).Ok?
    ensures var xs := ItermonthsSpec(fromDate, toDate, frequency).value;
      var first, last := NextMonth(fromDate).value, NextMonth(toDate).value;
      TicksWithin(xs, first, last, frequency) && Increasing(xs) && TicksCovered(xs, first, last, frequency)
  {
    var first, last := NextMonth(fromDate).value, NextMonth(toDate).value;
    MonthsFromSound(first, last, frequency);
    MonthsFromIncreasing(first, last, frequency);
    MonthsFromComplete(first, last, frequency);
  }

  /** A zero frequency raises as soon as the loop body runs. */
  lemma ItermonthsZeroFrequency(fromDate: Day, toDate: Day)
    requires NextMonth(fromDate).Ok? && NextMonth(toDate).Ok?
    requires AtMost(NextMonth(fromDate).value, NextMonth(toDate).value)
    ensures ItermonthsSpec(fromDate, toDate, 0) == Err(ZeroFrequency)
  {
  }

  // ---------------------------------------------------------------- main

  /** The frequency names of --date-ticks and their month steps. */
  function FrequencyOf(name: string): (r: Result<int>)
    ensures r.Ok? ==> r.value in {1, 3, 6, 12} && 12 % r.value == 0
    ensures r.Err? ==> r.error == UnknownFrequency(name)
  {
    if name == "monthly" then Ok(1)
    else if name == "quarterly" then Ok(3)
    else if name == "semi-yearly" then Ok(6)
    else if name == "yearly" then Ok(12)
    else Err(UnknownFrequency(name))
  }

  /** quarterly ticks fall on January, April, July and October; yearly ones
      on January only. */
  lemma TickMonths(d: Day)
    ensures Tick(d, 1)
    ensures Tick(d, 3) <==> d.month in {1, 4, 7, 10}
    ensures Tick(d, 6) <==> d.month in {1, 7}
    ensures Tick(d, 12) <==> d.month == 1
  {
  }

  /** `date_field, frequency = date_ticks.split(":")`. */
  function DateTicks(spec: string): (r: Result<(string, string)>)
    ensures r.Err? ==> r.error == InvalidDateTicks(spec)
  {
    var parts := Split(spec, ":");
    if |parts| != 2 then Err(InvalidDateTicks(spec)) else Ok((parts[0], parts[1]))
  }

  /** A date is skipped when it is before from_date or after to_date. */
  predicate InWindow(d: Day, fromDate: Option<Day>, toDate: Option<Day>)
  {
    !(fromDate.Some? && Before(d, fromDate.value)) && !(toDate.Some? && Before(toDate.value, d))
  }

  /** `min(date, min_date)`: min keeps its first argument unless the second is smaller. */
  function Lower(acc: Option<Day>, d: Day): Day
  {
    if acc.Some? && Before(acc.value, d) then acc.value else d
  }

  /** `max(date, max_date)`. */
  function Upper(acc: Option<Day>, d: Day): Day
  {
    if acc.Some? && Before(d, acc.value) then acc.value else d
  }

  /** min_date after the loop: from_date, lowered by each kept date in turn. */
  function Least(init: Option<Day>, ds: seq<Day>): (r: Option<Day>)
    ensures ds != [] ==> r.Some?
  {
    if ds == [] then init else Some(Lower(Least(init, ds[..|ds| - 1]), ds[|ds| - 1]))
  }

  /** max_date after the loop. */
  function Greatest(init: Option<Day>, ds: seq<Day>): (r: Option<Day>)
    ensures ds != [] ==> r.Some?
  {
    if ds == [] then init else Some(Upper(Greatest(init, ds[..|ds| - 1]), ds[|ds| - 1]))
  }

  /** min_date ends as the smallest of from_date and the kept dates. */
  lemma {:induction false} LeastIsMinimum(init: Option<Day>, ds: seq<Day>)
    requires init.Some? || ds != []
    ensures var m := Least(init, ds).value;
      && (init.Some? ==> AtMost(m, init.value))
      && (forall k :: 0 <= k < |ds| ==> AtMost(m, ds[k]))
      && (Some(m) == init || m in ds)
    decreases |ds|
  {
    if ds != [] {
      var n := |ds| - 1;
      if init.Some? || n > 0 {
        LeastIsMinimum(init, ds[..n]);
      }
      assert forall k :: 0 <= k < n ==> ds[..n][k] == ds[k];
    }
  }

  /** max_date ends as the largest of to_date and the kept dates. */
  lemma {:induction false} GreatestIsMaximum(init: Option<Day>, ds: seq<Day>)
    requires init.Some? || ds != []
    ensures var m := Greatest(init, ds).value;
      && (init.Some? ==> AtMost(init.value, m))
      && (forall k :: 0 <= k < |ds| ==> AtMost(ds[k], m))
      && (Some(m) == init || m in ds)
    decreases |ds|
  {
    if ds != [] {
      var n := |ds| - 1;
      if init.Some? || n > 0 {
        GreatestIsMaximum(init, ds[..n]);
      }
      assert forall k :: 0 <= k < n ==> ds[..n][k] == ds[k];
    }
  }

  /** What the row loop of main leaves: the rows handed to the writer (without
      their '' field) and the dates of those rows. */
  datatype Scan = Scan(written: seq<Row>, dates: seq<Day>)

  /** The date of a row: `date.fromisoformat(row[date_field])`, the parser
      being a parameter of the model. */
  function RowDate(row: Row, field: string, parse: string -> Option<Day>): Result<Day>
  {
    if field !in row then Err(MissingField(field))
    else match row[field]
      case None => Err(UnreadableDate(field))
      case Some(t) =>
        match parse(t)
        case None => Err(UnreadableDate(field))
        case Some(d) => Ok(d)
  }

  /** One row of the loop at 112-122, after the rows before it gave `s`: a
      row keeprow refuses is dropped; with date ticks, a row dated outside
      the bounds is dropped too. */
  function ScanStep(s: Scan, row: Row, filters: seq<string>, excludes: seq<string>,
                    dateField: Option<string>, fromDate: Option<Day>, toDate: Option<Day>,
                    parse: string -> Option<Day>): Result<Scan>
  {
    match KeepRowSpec(row, filters, excludes)
    case Err(e) => Err(e)
    case Ok(keep) =>
      if !keep then Ok(s)
      else if dateField.None? then Ok(Scan(s.written + [row - {""}], s.dates))
      else
        match RowDate(row, dateField.value, parse)
        case Err(e) => Err(e)
        case Ok(d) =>
          if !InWindow(d, fromDate, toDate) then Ok(s)
          else Ok(Scan(s.written + [row - {""}], s.dates + [d]))
  }

  function ScanRows(rows: seq<Row>, filters: seq<string>, excludes: seq<string>,
                    dateField: Option<string>, fromDate: Option<Day>, toDate: Option<Day>,
                    parse: string -> Option<Day>): Result<Scan>
  {
    if rows == [] then Ok(Scan([], []))
    else
      var n := |rows| - 1;
      match ScanRows(rows[..n], filters, excludes, dateField, fromDate, toDate, parse)
      case Err(e) => Err(e)
      case Ok(s) => ScanStep(s, rows[n], filters, excludes, dateField, fromDate, toDate, parse)
  }

  /** Every date the loop keeps lies within the bounds; without date ticks
      no date is kept. */
  lemma {:induction false} ScanRowsInWindow(rows: seq<Row>, filters: seq<string>, excludes: seq<string>,
                                            dateField: Option<string>, fromDate: Option<Day>, toDate: Option<Day>,
                                            parse: string -> Option<Day>)
    requires ScanRows(rows, filters, excludes, dateField, fromDate, toDate, parse).Ok?
    ensures var s := ScanRows(rows, filters, excludes, dateField, fromDate, toDate, parse).value;
      && |s.written| <= |rows|
      && (forall k :: 0 <= k < |s.dates| ==> InWindow(s.dates[k], fromDate, toDate))
      && (forall k :: 0 <= k < |s.written| ==> "" !in s.written[k])
      && (dateField.None? ==> s.dates == [])
      && (dateField.Some? ==> |s.dates| == |s.written|)
    decreases |rows|
  {
    if rows != [] {
      ScanRowsInWindow(rows[..|rows| - 1], filters, excludes, dateField, fromDate, toDate, parse);
    }
  }

  /** Without --date-ticks, the written rows are exactly what iterrows yields. */
  lemma {:induction false} ScanRowsWithoutTicks(rows: seq<Row>, filters: seq<string>, excludes: seq<string>,
                                               fromDate: Option<Day>, toDate: Option<Day>, parse: string -> Option<Day>)
    ensures var s := ScanRows(rows, filters, excludes, None, fromDate, toDate, parse);
      var it := IterRowsSpec(rows, filters, excludes);
      s.Ok? == it.Ok? && (s.Ok? ==> s.value.written == Popped(it.value))
    decreases |rows|
  {
    if rows != [] {
      var n := |rows| - 1;
      ScanRowsWithoutTicks(rows[..n], filters, excludes, fromDate, toDate, parse);
      var it := IterRowsSpec(rows[..n], filters, excludes);
      if it.Ok? {
        PoppedSnoc(it.value, rows[n]);
      }
    }
  }

  /** A row whose date reads and lies within the bounds. */
  predicate DatedInWindow(row: Row, field: string, fromDate: Option<Day>, toDate: Option<Day>,
                          parse: string -> Option<Day>)
  {
    RowDate(row, field, parse).Ok? && InWindow(RowDate(row, field, parse).value, fromDate, toDate)
  }

  /** The rows of `kept` that the date test of the loop lets through, in order. */
  function Windowed(kept: seq<Row>, field: string, fromDate: Option<Day>, toDate: Option<Day>,
                    parse: string -> Option<Day>): (r: seq<Row>)
    ensures |r| <= |kept|
  {
    if kept == [] then []
    else
      var n := |kept| - 1;
      Windowed(kept[..n], field, fromDate, toDate, parse)
        + (if DatedInWindow(kept[n], field, fromDate, toDate, parse) then [kept[n]] else [])
  }

  /** A row is let through exactly when it is one of `kept` and its date reads
      and lies within the bounds. */
  lemma {:induction false} WindowedExact(kept: seq<Row>, field: string, fromDate: Option<Day>, toDate: Option<Day>,
                                         parse: string -> Option<Day>)
    ensures forall row :: row in Windowed(kept, field, fromDate, toDate, parse)
                          <==> row in kept && DatedInWindow(row, field, fromDate, toDate, parse)
    decreases |kept|
  {
    if kept != [] {
      var n := |kept| - 1;
      WindowedExact(kept[..n], field, fromDate, toDate, parse);
      assert kept == kept[..n] + [kept[n]];
    }
  }

  /** With --date-ticks, the loop finishes exactly when iterrows finishes and
      every row it yields has a readable date; the written rows are then the
      yielded rows dated within the bounds, '' popped, and the kept dates are
      their dates, in the same order. */
  lemma {:induction false} ScanRowsWithTicks(rows: seq<Row>, filters: seq<string>, excludes: seq<string>,
                                            field: string, fromDate: Option<Day>, toDate: Option<Day>,
                                            parse: string -> Option<Day>)
    ensures var s := ScanRows(rows, filters, excludes, Some(field), fromDate, toDate, parse);
      var it := IterRowsSpec(rows, filters, excludes);
      && (s.Ok? <==> it.Ok? && AllDated(it.value, field, parse))
      && (s.Ok? ==> var w := Windowed(it.value, field, fromDate, toDate, parse);
            && s.value.written == Popped(w)
            && |s.value.dates| == |w|
            && forall k :: 0 <= k < |w| ==> RowDate(w[k], field, parse) == Ok(s.value.dates[k]))
    decreases |rows|
  {
    var s := ScanRows(rows, filters, excludes, Some(field), fromDate, toDate, parse);
    var it := IterRowsSpec(rows, filters, excludes);
    if rows == [] {
      assert Agree(s, it, field, fromDate, toDate, parse);
    } else {
      var n := |rows| - 1;
      ScanRowsWithTicks(rows[..n], filters, excludes, field, fromDate, toDate, parse);
      var sp := ScanRows(rows[..n], filters, excludes, Some(field), fromDate, toDate, parse);
      var itp := IterRowsSpec(rows[..n], filters, excludes);
      assert s == ScanAfter(sp, rows[n], filters, excludes, Some(field), fromDate, toDate, parse);
      assert it == IterAfter(itp, rows[n], filters, excludes);
      AgreeStep(sp, itp, rows[n], filters, excludes, field, fromDate, toDate, parse);
    }
  }

  /** The loop result after one more row. */
  function ScanAfter(sp: Result<Scan>, row: Row, filters: seq<string>, excludes: seq<string>,
                     dateField: Option<string>, fromDate: Option<Day>, toDate: Option<Day>,
                     parse: string -> Option<Day>): Result<Scan>
  {
    match sp
    case Err(e) => Err(e)
    case Ok(s) => ScanStep(s, row, filters, excludes, dateField, fromDate, toDate, parse)
  }

  /** The iterrows result after one more row. */
  function IterAfter(itp: Result<seq<Row>>, row: Row, filters: seq<string>, excludes: seq<string>): Result<seq<Row>>
  {
    match itp
    case Err(e) => Err(e)
    case Ok(kept) =>
      match KeepRowSpec(row, filters, excludes)
      case Err(e) => Err(e)
      case Ok(keep) => Ok(kept + (if keep then [row] else []))
  }

  /** The ensures of ScanRowsWithTicks, for one loop result and one iterrows result. */
  predicate Agree(s: Result<Scan>, it: Result<seq<Row>>, field: string, fromDate: Option<Day>, toDate: Option<Day>,
                  parse: string -> Option<Day>)
  {
    && (s.Ok? <==> it.Ok? && AllDated(it.value, field, parse))
    && (s.Ok? ==> var w := Windowed(it.value, field, fromDate, toDate, parse);
          && s.value.written == Popped(w)
          && |s.value.dates| == |w|
          && forall k :: 0 <= k < |w| ==> RowDate(w[k], field, parse) == Ok(s.value.dates[k]))
  }

  /** One more row keeps the loop and iterrows in agreement. */
  lemma AgreeStep(sp: Result<Scan>, itp: Result<seq<Row>>, row: Row, filters: seq<string>, excludes: seq<string>,
                  field: string, fromDate: Option<Day>, toDate: Option<Day>, parse: string -> Option<Day>)
    requires Agree(sp, itp, field, fromDate, toDate, parse)
    ensures Agree(ScanAfter(sp, row, filters, excludes, Some(field), fromDate, toDate, parse),
                  IterAfter(itp, row, filters, excludes), field, fromDate, toDate, parse)
  {
    var keep := KeepRowSpec(row, filters, excludes);
    if itp.Ok? && keep == Ok(true) {
      if sp.Ok? && RowDate(row, field, parse).Ok? {
        AgreeDated(sp.value, itp.value, row, field, fromDate, toDate, parse);
      } else {
        AgreeUndated(sp, itp.value, row, field, fromDate, toDate, parse);
      }
    } else if itp.Ok? && keep == Ok(false) {
      assert itp.value + [] == itp.value;
    }
  }

  /** A yielded row with a readable date is written with that date when it is
      within the bounds, and skipped otherwise. */
  lemma AgreeDated(sp: Scan, kept: seq<Row>, row: Row, field: string, fromDate: Option<Day>, toDate: Option<Day>,
                   parse: string -> Option<Day>)
    requires Agree(Ok(sp), Ok(kept), field, fromDate, toDate, parse)
    requires RowDate(row, field, parse).Ok?
    ensures var d := RowDate(row, field, parse).value;
      Agree(Ok(if InWindow(d, fromDate, toDate) then Scan(sp.written + [row - {""}], sp.dates + [d]) else sp),
            Ok(kept + [row]), field, fromDate, toDate, parse)
  {
    AllDatedSnoc(kept, [row], field, parse);
    WindowedSnoc(kept, row, field, fromDate, toDate, parse);
    var d := RowDate(row, field, parse).value;
    if InWindow(d, fromDate, toDate) {
      AgreeWritten(sp, kept, row, d, field, fromDate, toDate, parse);
    } else {
      assert Windowed(kept + [row], field, fromDate, toDate, parse) == Windowed(kept, field, fromDate, toDate, parse) + [];
    }
  }

  /** The in-window case of AgreeDated, over the windowed rows alone. */
  lemma AgreeWritten(sp: Scan, kept: seq<Row>, row: Row, d: Day, field: string, fromDate: Option<Day>,
                     toDate: Option<Day>, parse: string -> Option<Day>)
    requires Agree(Ok(sp), Ok(kept), field, fromDate, toDate, parse)
    requires RowDate(row, field, parse) == Ok(d)
    requires Windowed(kept + [row], field, fromDate, toDate, parse) == Windowed(kept, field, fromDate, toDate, parse) + [row]
    requires AllDated(kept + [row], field, parse)
    ensures Agree(Ok(Scan(sp.written + [row - {""}], sp.dates + [d])), Ok(kept + [row]), field, fromDate, toDate, parse)
  {
    var w := Windowed(kept, field, fromDate, toDate, parse);
    PoppedSnoc(w, row);
    DatesSnoc(w, sp.dates, row, d, field, parse);
  }

  /** A yielded row whose date does not read, or that follows a failure, leaves
      the loop failed. */
  lemma AgreeUndated(sp: Result<Scan>, kept: seq<Row>, row: Row, field: string, fromDate: Option<Day>,
                     toDate: Option<Day>, parse: string -> Option<Day>)
    requires Agree(sp, Ok(kept), field, fromDate, toDate, parse)
    requires sp.Err? || RowDate(row, field, parse).Err?
    ensures !AllDated(kept + [row], field, parse)
  {
    AllDatedSnoc(kept, [row], field, parse);
  }

  /** Every row of `kept` has a readable date. */
  predicate AllDated(kept: seq<Row>, field: string, parse: string -> Option<Day>)
  {
    forall k :: 0 <= k < |kept| ==> RowDate(kept[k], field, parse).Ok?
  }

  lemma AllDatedSnoc(kept: seq<Row>, tail: seq<Row>, field: string, parse: string -> Option<Day>)
    requires |tail| <= 1
    ensures AllDated(kept + tail, field, parse)
            <==> AllDated(kept, field, parse) && (tail != [] ==> RowDate(tail[0], field, parse).Ok?)
  {
    var xs := kept + tail;
    if AllDated(kept, field, parse) && (tail != [] ==> RowDate(tail[0], field, parse).Ok?) {
      forall k | 0 <= k < |xs|
        ensures RowDate(xs[k], field, parse).Ok?
      {
        if k < |kept| {
          assert xs[k] == kept[k];
        } else {
          assert xs[k] == tail[0];
        }
      }
    }
    if AllDated(xs, field, parse) {
      forall k | 0 <= k < |kept|
        ensures RowDate(kept[k], field, parse).Ok?
      {
        assert xs[k] == kept[k];
      }
      if tail != [] {
        assert xs[|kept|] == tail[0];
      }
    }
  }

  lemma WindowedSnoc(kept: seq<Row>, row: Row, field: string, fromDate: Option<Day>, toDate: Option<Day>,
                     parse: string -> Option<Day>)
    ensures Windowed(kept + [row], field, fromDate, toDate, parse)
         == Windowed(kept, field, fromDate, toDate, parse)
            + (if DatedInWindow(row, field, fromDate, toDate, parse) then [row] else [])
  {
    assert (kept + [row])[..|kept|] == kept;
  }

  lemma DatesSnoc(w: seq<Row>, dates: seq<Day>, row: Row, d: Day, field: string, parse: string -> Option<Day>)
    requires |dates| == |w| && RowDate(row, field, parse) == Ok(d)
    requires forall k :: 0 <= k < |w| ==> RowDate(w[k], field, parse) == Ok(dates[k])
    ensures var w', dates' := w + [row], dates + [d];
      forall k :: 0 <= k < |w'| ==> RowDate(w'[k], field, parse) == Ok(dates'[k])
  {
  }

  /** Each written row carries the date kept for it: popping '' leaves a date
      field of another name in place. */
  lemma ScanRowsWrittenDates(rows: seq<Row>, filters: seq<string>, excludes: seq<string>,
                             field: string, fromDate: Option<Day>, toDate: Option<Day>,
                             parse: string -> Option<Day>)
    requires field != ""
    requires ScanRows(rows, filters, excludes, Some(field), fromDate, toDate, parse).Ok?
    ensures var s := ScanRows(rows, filters, excludes, Some(field), fromDate, toDate, parse).value;
      && |s.written| == |s.dates|
      && forall k :: 0 <= k < |s.written| ==> RowDate(s.written[k], field, parse) == Ok(s.dates[k])
  {
    ScanRowsWithTicks(rows, filters, excludes, field, fromDate, toDate, parse);
    var s := ScanRows(rows, filters, excludes, Some(field), fromDate, toDate, parse).value;
    var w := Windowed(IterRowsSpec(rows, filters, excludes).value, field, fromDate, toDate, parse);
    forall k | 0 <= k < |s.written|
      ensures RowDate(s.written[k], field, parse) == Ok(s.dates[k])
    {
      assert s.written[k] == w[k] - {""};
      assert RowDate(w[k], field, parse) == Ok(s.dates[k]);
    }
  }

  /** The rows with their '' field popped. */
  function Popped(rows: seq<Row>): seq<Row>
  {
    seq(|rows|, k requires 0 <= k < |rows| => rows[k] - {""})
  }

  lemma PoppedSnoc(rows: seq<Row>, row: Row)
    ensures Popped(rows + [row]) == Popped(rows) + [row - {""}]
    ensures Popped(rows + []) == Popped(rows)
  {
    assert rows + [] == rows;
  }

  /** The loop of main at 112-122, with min_date and max_date updated step by step. */
  method ScanLoop(rows: seq<Row>, filters: seq<string>, excludes: seq<string>,
                  dateField: Option<string>, fromDate: Option<Day>, toDate: Option<Day>,
                  parse: string -> Option<Day>)
    returns (r: Result<Scan>, minDate: Option<Day>, maxDate: Option<Day>)
    ensures r == ScanRows(rows, filters, excludes, dateField, fromDate, toDate, parse)
    ensures r.Ok? ==> minDate == Least(fromDate, r.value.dates) && maxDate == Greatest(toDate, r.value.dates)
  {
    var written: seq<Row> := [];
    var dates: seq<Day> := [];
    minDate, maxDate := fromDate, toDate;
    var i := 0;
    while i < |rows|
      invariant 0 <= i <= |rows|
      invariant ScanRows(rows[..i], filters, excludes, dateField, fromDate, toDate, parse) == Ok(Scan(written, dates))
      invariant minDate == Least(fromDate, dates) && maxDate == Greatest(toDate, dates)
    {
      var row := rows[i];
      assert rows[..i + 1][..i] == rows[..i] && rows[..i + 1][i] == row;
      assert ScanRows(rows[..i + 1], filters, excludes, dateField, fromDate, toDate, parse)
        == ScanStep(Scan(written, dates), row, filters, excludes, dateField, fromDate, toDate, parse);
      var next;
      next, minDate, maxDate := ScanOne(Scan(written, dates), minDate, maxDate, row, filters, excludes,
                                        dateField, fromDate, toDate, parse);
      if next.Err? {
        ScanErrorStays(rows, filters, excludes, dateField, fromDate, toDate, parse, i + 1);
        return next, minDate, maxDate;
      }
      written, dates := next.value.written, next.value.dates;
      i := i + 1;
    }
    assert rows[..i] == rows;
    return Ok(Scan(written, dates)), minDate, maxDate;
  }

  /** The body of the loop for one row: min_date and max_date are lowered and
      raised by a date the row keeps. */
  method ScanOne(s: Scan, minDate: Option<Day>, maxDate: Option<Day>, row: Row,
                 filters: seq<string>, excludes: seq<string>,
                 dateField: Option<string>, fromDate: Option<Day>, toDate: Option<Day>,
                 parse: string -> Option<Day>)
    returns (r: Result<Scan>, minDate': Option<Day>, maxDate': Option<Day>)
    requires minDate == Least(fromDate, s.dates) && maxDate == Greatest(toDate, s.dates)
    ensures r == ScanStep(s, row, filters, excludes, dateField, fromDate, toDate, parse)
    ensures r.Ok? ==> minDate' == Least(fromDate, r.value.dates) && maxDate' == Greatest(toDate, r.value.dates)
  {
    minDate', maxDate' := minDate, maxDate;
    var keep := KeepRow(row, filters, excludes);
    if keep.Err? {
      return Err(keep.error), minDate', maxDate';
    }
    if !keep.value {
      return Ok(s), minDate', maxDate';
    }
    if dateField.None? {
      return Ok(Scan(s.written + [row - {""}], s.dates)), minDate', maxDate';
    }
    var d := RowDate(row, dateField.value, parse);
    if d.Err? {
      return Err(d.error), minDate', maxDate';
    }
    var date := d.value;
    if !InWindow(date, fromDate, toDate) {
      return Ok(s), minDate', maxDate';
    }
    minDate' := Some(if minDate.None? then date else Lower(minDate, date));
    maxDate' := Some(if maxDate.None? then date else Upper(maxDate, date));
    assert (s.dates + [date])[..|s.dates|] == s.dates;
    r := Ok(Scan(s.written + [row - {""}], s.dates + [date]));
  }

  lemma {:induction false} ScanErrorStays(rows: seq<Row>, filters: seq<string>, excludes: seq<string>,
                                         dateField: Option<string>, fromDate: Option<Day>, toDate: Option<Day>,
                                         parse: string -> Option<Day>, n: nat)
    requires n <= |rows| && ScanRows(rows[..n], filters, excludes, dateField, fromDate, toDate, parse).Err?
    ensures ScanRows(rows, filters, excludes, dateField, fromDate, toDate, parse)
         == ScanRows(rows[..n], filters, excludes, dateField, fromDate, toDate, parse)
    decreases |rows| - n
  {
    if n < |rows| {
      assert rows[..n + 1][..n] == rows[..n];
      ScanErrorStays(rows, filters, excludes, dateField, fromDate, toDate, parse, n + 1);
    } else {
      assert rows[..n] == rows;
    }
  }

  /** `[datefmt(d) for d in itermonths(min_date, max_date, frequency)]`.
      itermonths takes next_month(min_date) before it looks at max_date, and
      a missing bound is a None that next_month cannot take.  A frequency
      name that is not mapped stays a string, which `%` refuses at the first
      date the loop tests. */
  function TicksSpec(minDate: Option<Day>, maxDate: Option<Day>, name: string): Result<seq<Day>>
  {
    if minDate.None? then Err(NoDates)
    else if NextMonth(minDate.value).Err? then Err(NextMonth(minDate.value).error)
    else if maxDate.None? then Err(NoDates)
    else
      match FrequencyOf(name)
      case Ok(f) => ItermonthsSpec(minDate.value, maxDate.value, f)
      case Err(e) => UnmappedSpec(minDate.value, maxDate.value, e)
  }

  /** itermonths with a frequency that `%` refuses: it fails where a zero
      frequency fails, with the error e in place of the zero division. */
  function UnmappedSpec(fromDate: Day, toDate: Day, e: Error): Result<seq<Day>>
  {
    var z := ItermonthsSpec(fromDate, toDate, 0);
    if z == Err(ZeroFrequency) then Err(e) else z
  }

  /** What main leaves besides its printing: the rows it writes and, with
      --date-ticks, the tick dates. */
  datatype Prepared = Prepared(written: seq<Row>, ticks: Option<seq<Day>>)

  /** An option main tests for truth: absent, or the empty text, is false. */
  predicate Given(option: Option<string>)
  {
    option.Some? && option.value != ""
  }

  /** `datetime.date.fromisoformat` on --from-date or --until-date, when given. */
  function ParseDateOption(option: Option<string>, parse: string -> Option<Day>): (r: Result<Option<Day>>)
    ensures r.Ok? ==> (r.value.Some? <==> Given(option))
    ensures r.Err? ==> Given(option) && r.error == UnreadableBound(option.value)
  {
    if !Given(option) then Ok(None)
    else match parse(option.value)
      case None => Err(UnreadableBound(option.value))
      case Some(d) => Ok(Some(d))
  }

  /** main from line 86 on.  Absent options are None; an empty option counts
      as absent, as Python tests it for truth. */
  function PrepareSpec(rows: seq<Row>, filters: seq<string>, excludes: seq<string>,
                       dateTicks: Option<string>, fromText: Option<string>, toText: Option<string>,
                       parse: string -> Option<Day>): Result<Prepared>
  {
    var ticksOn := Given(dateTicks);
    var spec := if ticksOn then DateTicks(dateTicks.value) else Ok(("", ""));
    if spec.Err? then Err(spec.error)
    else if (Given(fromText) || Given(toText)) && !ticksOn then Err(BoundsWithoutTicks)
    else
      match ParseDateOption(fromText, parse)
      case Err(e) => Err(e)
      case Ok(fromDate) =>
        match ParseDateOption(toText, parse)
        case Err(e) => Err(e)
        case Ok(toDate) =>
          var field := if ticksOn then Some(spec.value.0) else None;
          match ScanRows(rows, filters, excludes, field, fromDate, toDate, parse)
          case Err(e) => Err(e)
          case Ok(s) =>
            if !ticksOn then Ok(Prepared(s.written, None))
            else
              match TicksSpec(Least(fromDate, s.dates), Greatest(toDate, s.dates), spec.value.1)
              case Err(e) => Err(e)
              case Ok(ts) => Ok(Prepared(s.written, Some(ts)))
  }

  /** main: the date-ticks spec, the bounds, the row loop, the ticks. */
  method Prepare(rows: seq<Row>, filters: seq<string>, excludes: seq<string>,
                 dateTicks: Option<string>, fromText: Option<string>, toText: Option<string>,
                 parse: string -> Option<Day>) returns (r: Result<Prepared>)
    ensures r == PrepareSpec(rows, filters, excludes, dateTicks, fromText, toText, parse)
  {
    var ticksOn := Given(dateTicks);
    var field: Option<string> := None;
    var name := "";
    if ticksOn {
      var spec := DateTicks(dateTicks.value);
      if spec.Err? {
        return Err(spec.error);
      }
      field, name := Some(spec.value.0), spec.value.1;
    }
    if (Given(fromText) || Given(toText)) && !ticksOn {
      return Err(BoundsWithoutTicks);
    }
    var fromDate := ParseDateOption(fromText, parse);
    if fromDate.Err? {
      return Err(fromDate.error);
    }
    var toDate := ParseDateOption(toText, parse);
    if toDate.Err? {
      return Err(toDate.error);
    }
    var scan, minDate, maxDate := ScanLoop(rows, filters, excludes, field, fromDate.value, toDate.value, parse);
    if scan.Err? {
      return Err(scan.error);
    }
    if !ticksOn {
      return Ok(Prepared(scan.value.written, None));
    }
    // itermonths starts with next_month(min_date), before max_date is used.
    if minDate.None? {
      return Err(NoDates);
    }
    var first := NextMonth(minDate.value);
    if first.Err? {
      return Err(first.error);
    }
    if maxDate.None? {
      return Err(NoDates);
    }
    var frequency := FrequencyOf(name);
    var ticks: Result<seq<Day>>;
    if frequency.Ok? {
      ticks := Itermonths(minDate.value, maxDate.value, frequency.value);
    } else {
      ticks := UnmappedTicks(minDate.value, maxDate.value, frequency.error);
    }
    if ticks.Err? {
      return Err(ticks.error);
    }
    return Ok(Prepared(scan.value.written, Some(ticks.value)));
  }

  /** itermonths run with a frequency that is not a number: next_month of both
      bounds, then the first `%` raises.  It yields nothing at all, and it
      fails exactly where a zero frequency would. */
  method UnmappedTicks(fromDate: Day, toDate: Day, e: Error) returns (r: Result<seq<Day>>)
    ensures r == UnmappedSpec(fromDate, toDate, e)
    ensures r.Ok? ==> r.value == []
  {
    var first := NextMonth(fromDate);
    if first.Err? {
      return Err(first.error);
    }
    var last := NextMonth(toDate);
    if last.Err? {
      return Err(last.error);
    }
    if AtMost(first.value, last.value) {
      return Err(e);
    }
    return Ok([]);
  }

  /** An empty --from-date or --until-date is the same as none. */
  lemma PrepareEmptyBounds(rows: seq<Row>, filters: seq<string>, excludes: seq<string>,
                           dateTicks: Option<string>, fromText: Option<string>, toText: Option<string>,
                           parse: string -> Option<Day>)
    ensures PrepareSpec(rows, filters, excludes, dateTicks, Some(""), toText, parse)
         == PrepareSpec(rows, filters, excludes, dateTicks, None, toText, parse)
    ensures PrepareSpec(rows, filters, excludes, dateTicks, fromText, Some(""), parse)
         == PrepareSpec(rows, filters, excludes, dateTicks, fromText, None, parse)
  {
    assert !Given(Some("")) && !Given(None);
  }

  /** A --from-date that fromisoformat refuses fails the run before any row
      is read, whatever the rows are. */
  lemma PrepareUnreadableFrom(rows: seq<Row>, filters: seq<string>, excludes: seq<string>,
                              dateTicks: Option<string>, fromText: Option<string>, toText: Option<string>,
                              parse: string -> Option<Day>)
    requires Given(dateTicks) && DateTicks(dateTicks.value).Ok?
    requires Given(fromText) && parse(fromText.value).None?
    ensures PrepareSpec(rows, filters, excludes, dateTicks, fromText, toText, parse)
         == Err(UnreadableBound(fromText.value))
  {
  }

  /** With --from-date in December 9999 the run fails on the year range:
      every kept date is on or after that bound, so min_date is the bound, and
      next_month(min_date) is taken before anything else about the ticks. */
  lemma PrepareFromLastMonth(rows: seq<Row>, filters: seq<string>, excludes: seq<string>,
                             dateTicks: Option<string>, fromText: Option<string>, toText: Option<string>,
                             parse: string -> Option<Day>)
    requires Given(dateTicks) && DateTicks(dateTicks.value).Ok?
    requires Given(fromText) && parse(fromText.value).Some?
    requires parse(fromText.value).value.year == 9999 && parse(fromText.value).value.month == 12
    ensures ParseDateOption(toText, parse).Ok? ==>
      var field := Some(DateTicks(dateTicks.value).value.0);
      var fromDate := ParseDateOption(fromText, parse).value;
      var toDate := ParseDateOption(toText, parse).value;
      ScanRows(rows, filters, excludes, field, fromDate, toDate, parse).Ok? ==>
        PrepareSpec(rows, filters, excludes, dateTicks, fromText, toText, parse) == Err(YearOutOfRange)
  {
    if ParseDateOption(toText, parse).Ok? {
      var field := Some(DateTicks(dateTicks.value).value.0);
      var fromDate := ParseDateOption(fromText, parse).value;
      var toDate := ParseDateOption(toText, parse).value;
      if ScanRows(rows, filters, excludes, field, fromDate, toDate, parse).Ok? {
        var s := ScanRows(rows, filters, excludes, field, fromDate, toDate, parse).value;
        ScanRowsInWindow(rows, filters, excludes, field, fromDate, toDate, parse);
        LeastIsMinimum(fromDate, s.dates);
        assert Least(fromDate, s.dates) == fromDate;
      }
    }
  }

  /** The ticks main computes span the dates it saw: with --date-ticks and a
      known frequency, every tick lies from the month after the earliest
      bound or kept date to the month after the latest, and every
      first-of-month date there on the frequency is a tick. */
  lemma PreparedTicks(rows: seq<Row>, filters: seq<string>, excludes: seq<string>,
                      spec: string, fromText: Option<string>, toText: Option<string>, parse: string -> Option<Day>)
    requires PrepareSpec(rows, filters, excludes, Some(spec), fromText, toText, parse).Ok?
    requires spec != ""
    ensures DateTicks(spec).Ok? && FrequencyOf(DateTicks(spec).value.1).Ok? ==>
      var fromDate, toDate := ParseDateOption(fromText, parse).value, ParseDateOption(toText, parse).value;
      var s := ScanRows(rows, filters, excludes, Some(DateTicks(spec).value.0), fromDate, toDate, parse).value;
      var lo, hi := Least(fromDate, s.dates).value, Greatest(toDate, s.dates).value;
      var f := FrequencyOf(DateTicks(spec).value.1).value;
      var ts := PrepareSpec(rows, filters, excludes, Some(spec), fromText, toText, parse).value.ticks;
      && ItermonthsSpec(lo, hi, f).Ok?
      && ts == Some(ItermonthsSpec(lo, hi, f).value)
      && (forall e: Day :: e.day == 1 && AtMost(NextMonth(lo).value, e) && AtMost(e, NextMonth(hi).value) && Tick(e, f) ==> e in ts.value)
      && (forall k :: 0 <= k < |ts.value| ==> AtMost(NextMonth(lo).value, ts.value[k]) && AtMost(ts.value[k], NextMonth(hi).value))
  {
    if DateTicks(spec).Ok? && FrequencyOf(DateTicks(spec).value.1).Ok? {
      var fromDate, toDate := ParseDateOption(fromText, parse).value, ParseDateOption(toText, parse).value;
      var s := ScanRows(rows, filters, excludes, Some(DateTicks(spec).value.0), fromDate, toDate, parse).value;
      var lo, hi := Least(fromDate, s.dates).value, Greatest(toDate, s.dates).value;
      ItermonthsExact(lo, hi, FrequencyOf(DateTicks(spec).value.1).value);
    }
  }
}
