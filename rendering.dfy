/** print_row, simple_row, print_table and the pipeline of main in
    render-table.py, over an in-memory table. */
module Rendering {
  import opened Wrappers
  import opened Text
  import opened Spans
  import opened Quoting
  import opened Modifiers
  import opened Ordering

  // ---------------------------------------------------------------- cells

  /** A row as csv.DictReader gives it: field name to text, with None (the
      reader's restval) for a field the line was too short to fill. */
  type Record = map<string, Option<string>>

  /** The row template: the Jinja template, or simple_row by default. */
  type Template = (seq<string>, bool) -> string

  /** quote on a field value; quote(None) is "" as for "". */
  function QuoteCell(v: Option<string>): string
  {
    match v
    case None => ""
    case Some(t) => Quote(t)
  }

  /** `for wrapper in wrappers: cell = wrapper.wrap((row, col), cell)`; the
      first apply that raises ends the row. */
  function FoldCell(ws: seq<Modifier>, cell: Coord, value: string): Result<string>
  {
    if ws == [] then Ok(value)
    else
      match Wrap(ws[0], cell, value)
      case Err(e) => Err(e)
      case Ok(v) => FoldCell(ws[1..], cell, v)
  }

  /** `for wrapper in wrappers: value = wrapper.wrap_row(row, value)`. */
  function FoldRow(ws: seq<Modifier>, row: int, value: string): string
  {
    if ws == [] then value else FoldRow(ws[1..], row, WrapRow(ws[0], row, value))
  }

  /** `[data[k] for k in cols]`, one lookup per column. */
  function LookupEach(rec: Record, cols: seq<string>): (r: seq<Result<Option<string>>>)
    ensures |r| == |cols|
    ensures forall k :: 0 <= k < |cols| ==>
      r[k] == if cols[k] in rec then Ok(rec[cols[k]]) else Err(MissingField(cols[k]))
  {
    seq(|cols|, k requires 0 <= k < |cols| =>
      if cols[k] in rec then Ok(rec[cols[k]]) else Err(MissingField(cols[k])))
  }

  /** The cells of row `row`: quoted, then threaded through the wrappers. */
  function CellEach(ws: seq<Modifier>, row: int, cells: seq<Option<string>>): (r: seq<Result<string>>)
    ensures |r| == |cells|
    ensures forall k :: 0 <= k < |cells| ==> r[k] == FoldCell(ws, Coord(Some(row), Some(k)), QuoteCell(cells[k]))
  {
    seq(|cells|, k requires 0 <= k < |cells| => FoldCell(ws, Coord(Some(row), Some(k)), QuoteCell(cells[k])))
  }

  /** has_value: some quoted cell is non-empty. */
  predicate HasValue(cells: seq<Option<string>>)
  {
    SomeQuoted(cells, |cells|)
  }

  /** One of the first n cells quotes to a non-empty text. */
  predicate SomeQuoted(cells: seq<Option<string>>, n: nat)
    requires n <= |cells|
  {
    exists k :: 0 <= k < n && QuoteCell(cells[k]) != ""
  }

  lemma SomeQuotedStep(cells: seq<Option<string>>, n: nat)
    requires n < |cells|
    ensures SomeQuoted(cells, n + 1) <==> SomeQuoted(cells, n) || QuoteCell(cells[n]) != ""
  {
    if QuoteCell(cells[n]) != "" {
      assert 0 <= n < n + 1 && QuoteCell(cells[n]) != "";
    }
  }

  /** What print_row prints for one record, or the exception it raises. */
  function RowSpec(row: int, rec: Record, cols: seq<string>, ws: seq<Modifier>, template: Template): Result<string>
  {
    match Sequence(LookupEach(rec, cols))
    case Err(e) => Err(e)
    case Ok(cells) =>
      match Sequence(CellEach(ws, row, cells))
      case Err(e) => Err(e)
      case Ok(values) => Ok(FoldRow(ws, row, template(values, HasValue(cells))))
  }

  /** print_row: the lookups, then per column the quoting, the has_value flag
      and the pass through every wrapper, then the template and the row hooks. */
  method PrintRow(row: int, rec: Record, cols: seq<string>, ws: seq<Modifier>, template: Template)
    returns (r: Result<string>)
    ensures r == RowSpec(row, rec, cols, ws, template)
  {
    var data := LookupCells(rec, cols);
    if data.Err? {
      return Err(data.error);
    }
    var values, hasValue := WrapCells(ws, row, data.value);
    if values.Err? {
      return Err(values.error);
    }
    var value := template(values.value, hasValue);
    value := WrapWholeRow(ws, row, value);
    return Ok(value);
  }

  /** `data = [data[k] for k in cols]`: the first missing column raises. */
  method LookupCells(rec: Record, cols: seq<string>) returns (r: Result<seq<Option<string>>>)
    ensures r == Sequence(LookupEach(rec, cols))
  {
    ghost var lookups := LookupEach(rec, cols);
    var data: seq<Option<string>> := [];
    var i := 0;
    while i < |cols|
      invariant 0 <= i <= |cols|
      invariant Sequence(lookups[..i]) == Ok(data)
    {
      SequenceStep(lookups, i);
      if cols[i] !in rec {
        SequenceStopsAtError(lookups, i + 1);
        return Err(MissingField(cols[i]));
      }
      data := data + [rec[cols[i]]];
      i := i + 1;
    }
    assert lookups[..i] == lookups;
    return Ok(data);
  }

  /** The column loop of print_row: quote, note a non-empty cell, wrap. */
  method WrapCells(ws: seq<Modifier>, row: int, data: seq<Option<string>>)
    returns (r: Result<seq<string>>, hasValue: bool)
    ensures r == Sequence(CellEach(ws, row, data))
    ensures r.Ok? ==> hasValue == HasValue(data)
  {
    ghost var results := CellEach(ws, row, data);
    var values: seq<string> := [];
    hasValue := false;
    var col := 0;
    while col < |data|
      invariant 0 <= col <= |data|
      invariant Sequence(results[..col]) == Ok(values)
      invariant hasValue == SomeQuoted(data, col)
    {
      var nonEmpty, wrapped := WrapColumn(ws, row, data, col);
      hasValue := hasValue || nonEmpty;
      SequenceStep(results, col);
      if wrapped.Err? {
        SequenceStopsAtError(results, col + 1);
        return Err(wrapped.error), hasValue;
      }
      values := values + [wrapped.value];
      col := col + 1;
    }
    assert results[..col] == results;
    return Ok(values), hasValue;
  }

  /** One pass of the column loop: quote the cell, then wrap it. */
  method WrapColumn(ws: seq<Modifier>, row: int, data: seq<Option<string>>, col: nat)
    returns (nonEmpty: bool, wrapped: Result<string>)
    requires col < |data|
    ensures SomeQuoted(data, col + 1) <==> SomeQuoted(data, col) || nonEmpty
    ensures wrapped == CellEach(ws, row, data)[col]
  {
    var cell := QuoteCell(data[col]);
    SomeQuotedStep(data, col);
    nonEmpty := cell != "";
    wrapped := WrapCell(ws, Coord(Some(row), Some(col)), cell);
  }

  /** `for wrapper in wrappers: cell = wrapper.wrap((row, col), cell)`. */
  method WrapCell(ws: seq<Modifier>, coord: Coord, value: string) returns (r: Result<string>)
    ensures r == FoldCell(ws, coord, value)
  {
    var cell := value;
    var j := 0;
    while j < |ws|
      invariant 0 <= j <= |ws|
      invariant FoldCell(ws, coord, value) == FoldCell(ws[j..], coord, cell)
    {
      assert ws[j..][1..] == ws[j + 1..];
      var w := Wrap(ws[j], coord, cell);
      if w.Err? {
        return Err(w.error);
      }
      cell := w.value;
      j := j + 1;
    }
    return Ok(cell);
  }

  /** `for wrapper in wrappers: value = wrapper.wrap_row(row, value)`. */
  method WrapWholeRow(ws: seq<Modifier>, row: int, value: string) returns (r: string)
    ensures r == FoldRow(ws, row, value)
  {
    r := value;
    var j := 0;
    while j < |ws|
      invariant 0 <= j <= |ws|
      invariant FoldRow(ws, row, value) == FoldRow(ws[j..], row, r)
    {
      assert ws[j..][1..] == ws[j + 1..];
      r := WrapRow(ws[j], row, r);
      j := j + 1;
    }
  }

  // ---------------------------------------------------------------- simple_row

  /** simple_row, the default template. */
  function SimpleRow(values: seq<string>, hasValue: bool): string
  {
    if hasValue then Join(values, " & ") else ""
  }

  /** A row without a value is printed empty; a row with one is the cells
      joined by " & ", and that join splits back into the cells when no cell
      holds a space. */
  lemma SimpleRowJoins(values: seq<string>, hasValue: bool)
    ensures !hasValue ==> SimpleRow(values, hasValue) == ""
    ensures hasValue ==> SimpleRow(values, hasValue) == Join(values, " & ")
    ensures hasValue && |values| >= 1 && (forall k :: 0 <= k < |values| ==> ' ' !in values[k]) ==>
      Split(SimpleRow(values, hasValue), " & ") == values
  {
    if hasValue && |values| >= 1 && (forall k :: 0 <= k < |values| ==> ' ' !in values[k]) {
      SplitJoin(values, " & ");
    }
  }

  // ---------------------------------------------------------------- properties of a row

  /** The members whose domain holds the cell, in list order. */
  function ActiveAt(ws: seq<Modifier>, cell: Coord): (r: seq<Modifier>)
    ensures forall k :: 0 <= k < |r| ==> InDomain(r[k].domain, cell)
  {
    if ws == [] then []
    else (if InDomain(ws[0].domain, cell) then [ws[0]] else []) + ActiveAt(ws[1..], cell)
  }

  /** A cell is changed only by the wrappers whose domain holds it, in the
      order of the list. */
  lemma {:induction false} FoldCellActive(ws: seq<Modifier>, cell: Coord, value: string)
    ensures FoldCell(ws, cell, value) == FoldCell(ActiveAt(ws, cell), cell, value)
    decreases |ws|
  {
    if ws != [] {
      var a := ActiveAt(ws, cell);
      var rest := ActiveAt(ws[1..], cell);
      if InDomain(ws[0].domain, cell) {
        assert a == [ws[0]] + rest;
        assert a[0] == ws[0] && a[1..] == rest;
        var w := Wrap(ws[0], cell, value);
        if w.Ok? {
          FoldCellActive(ws[1..], cell, w.value);
        }
      } else {
        assert a == rest;
        assert Wrap(ws[0], cell, value) == Ok(value);
        FoldCellActive(ws[1..], cell, value);
      }
    }
  }

  /** With no wrapper whose domain holds it, a cell comes out as it went in. */
  lemma FoldCellUntouched(ws: seq<Modifier>, cell: Coord, value: string)
    requires forall k :: 0 <= k < |ws| ==> !InDomain(ws[k].domain, cell)
    ensures FoldCell(ws, cell, value) == Ok(value)
    decreases |ws|
  {
    if ws != [] {
      assert Wrap(ws[0], cell, value) == Ok(value);
      FoldCellUntouched(ws[1..], cell, value);
    }
  }

  /** Only numeric modifiers raise, and only on text Decimal refuses. */
  lemma FoldCellFailure(ws: seq<Modifier>, cell: Coord, value: string)
    requires FoldCell(ws, cell, value).Err?
    ensures FoldCell(ws, cell, value).error.InvalidDecimal?
    decreases |ws|
  {
    var r := Wrap(ws[0], cell, value);
    if r.Ok? {
      FoldCellFailure(ws[1..], cell, r.value);
    }
  }

  predicate IsRowHook(m: Modifier)
  {
    m.RowBorderWrapper? || m.RowWrapper?
  }

  /** The members of the two row classes, in list order. */
  function RowHooks(ws: seq<Modifier>): (r: seq<Modifier>)
    ensures forall k :: 0 <= k < |r| ==> IsRowHook(r[k])
  {
    if ws == [] then []
    else (if IsRowHook(ws[0]) then [ws[0]] else []) + RowHooks(ws[1..])
  }

  /** The joined row is changed only by the members of the two row classes. */
  lemma {:induction false} FoldRowHooks(ws: seq<Modifier>, row: int, value: string)
    ensures FoldRow(ws, row, value) == FoldRow(RowHooks(ws), row, value)
    decreases |ws|
  {
    if ws != [] {
      if IsRowHook(ws[0]) {
        var h := RowHooks(ws);
        assert h[0] == ws[0] && h[1..] == RowHooks(ws[1..]);
        FoldRowHooks(ws[1..], row, WrapRow(ws[0], row, value));
      } else {
        assert RowHooks(ws) == RowHooks(ws[1..]);
        RowHookOnlyForRowClasses(ws[0], row, value);
        FoldRowHooks(ws[1..], row, value);
      }
    }
  }

  /** Priorities below 10 belong to the two row classes and no other. */
  lemma RowHookPriority(m: Modifier)
    ensures IsRowHook(m) <==> Priority(m) <= 1
    ensures m.RowBorderWrapper? <==> Priority(m) == 0
    ensures m.RowWrapper? <==> Priority(m) == 1
  {
  }

  /** In a sorted list the row hooks are the priority-1 members followed by the
      priority-0 members. */
  lemma {:induction false} SortedRowHooks(ws: seq<Modifier>)
    requires SortedByPriority(ws)
    ensures RowHooks(ws) == WithPriority(ws, 1) + WithPriority(ws, 0)
    decreases |ws|
  {
    if ws != [] {
      var rest := ws[1..];
      assert SortedByPriority(rest) by {
        forall i, j | 0 <= i < j < |rest| ensures Priority(rest[i]) >= Priority(rest[j]) {
          assert rest[i] == ws[i + 1] && rest[j] == ws[j + 1];
        }
      }
      SortedRowHooks(rest);
      RowHookPriority(ws[0]);
      if Priority(ws[0]) == 0 {
        assert forall k :: 0 <= k < |rest| ==> Priority(rest[k]) != 1 by {
          forall k | 0 <= k < |rest| ensures Priority(rest[k]) != 1 {
            assert rest[k] == ws[k + 1];
          }
        }
        WithPriorityNone(rest, 1);
      }
    }
  }

  /** The two row wrappers main installs are the only members of priorities
      1 and 0. */
  lemma InitialPriorities(init: seq<Modifier>, parsed: seq<Modifier>)
    requires |init| == 2 && init[0].RowBorderWrapper? && init[1].RowWrapper?
    requires forall k :: 0 <= k < |parsed| ==> !IsRowHook(parsed[k])
    ensures WithPriority(init + parsed, 1) == [init[1]]
    ensures WithPriority(init + parsed, 0) == [init[0]]
  {
    assert forall k :: 0 <= k < |parsed| ==> Priority(parsed[k]) > 1 by {
      forall k | 0 <= k < |parsed| ensures Priority(parsed[k]) > 1 {
        RowHookPriority(parsed[k]);
      }
    }
    ParsedAddNothing(init, parsed, 1);
    ParsedAddNothing(init, parsed, 0);
    PairPriorities(init[0], init[1]);
    assert init == [init[0], init[1]];
  }

  lemma ParsedAddNothing(init: seq<Modifier>, parsed: seq<Modifier>, p: nat)
    requires forall k :: 0 <= k < |parsed| ==> Priority(parsed[k]) > 1
    requires p <= 1
    ensures WithPriority(init + parsed, p) == WithPriority(init, p)
  {
    WithPriorityNone(parsed, p);
    WithPriorityConcat(init, parsed, p);
  }

  lemma PairPriorities(a: Modifier, b: Modifier)
    requires a.RowBorderWrapper? && b.RowWrapper?
    ensures WithPriority([a, b], 1) == [b] && WithPriority([a, b], 0) == [a]
  {
    assert [a, b][1..] == [b];
  }

  /** The sorted wrapper list reaches a joined row through RowWrapper first and
      the RowBorderWrapper last. */
  lemma WrapperListRowHooks(borderTop: Option<string>, borderMid: bool, borderMidCmd: string,
                            rowModifiers: seq<string>, colModifiers: seq<string>)
    requires WrapperList(borderTop, borderMid, borderMidCmd, rowModifiers, colModifiers).Ok?
    ensures var init := InitialWrappers(borderTop, borderMid, borderMidCmd).value;
      RowHooks(WrapperList(borderTop, borderMid, borderMidCmd, rowModifiers, colModifiers).value) == [init[1], init[0]]
  {
    var init := InitialWrappers(borderTop, borderMid, borderMidCmd).value;
    var rws := ParseAll(rowModifiers, RowAxis).value;
    var cws := ParseAll(colModifiers, ColAxis).value;
    ParsedAreCellModifiers(rowModifiers, RowAxis);
    ParsedAreCellModifiers(colModifiers, ColAxis);
    SortedHooksOf(init, rws, cws);
  }

  lemma SortedHooksOf(init: seq<Modifier>, rws: seq<Modifier>, cws: seq<Modifier>)
    requires |init| == 2 && init[0].RowBorderWrapper? && init[1].RowWrapper?
    requires forall k :: 0 <= k < |rws| ==> !rws[k].RowBorderWrapper? && !rws[k].RowWrapper?
    requires forall k :: 0 <= k < |cws| ==> !cws[k].RowBorderWrapper? && !cws[k].RowWrapper?
    ensures RowHooks(SortSpec(init + rws + cws)) == [init[1], init[0]]
  {
    var parsed := rws + cws;
    assert forall k :: 0 <= k < |parsed| ==> !IsRowHook(parsed[k]) by {
      forall k | 0 <= k < |parsed| ensures !IsRowHook(parsed[k]) {
        if k < |rws| { assert parsed[k] == rws[k]; } else { assert parsed[k] == cws[k - |rws|]; }
      }
    }
    assert init + rws + cws == init + parsed;
    InitialPriorities(init, parsed);
    SortedHooksStable(init + parsed, init[1], init[0]);
  }

  lemma SortedHooksStable(all: seq<Modifier>, x: Modifier, y: Modifier)
    requires WithPriority(all, 1) == [x] && WithPriority(all, 0) == [y]
    ensures RowHooks(SortSpec(all)) == [x, y]
  {
    SortSpecStable(all);
    SortedRowHooks(SortSpec(all));
  }

  /** The text `\cmd` and a newline the border adds in front of row `row`. */
  function BorderRule(spans: seq<Span>, borderMid: bool, borderMidCmd: string, row: int): string
  {
    if borderMid && InSpans(spans, row) then "\\" + borderMidCmd + "\n" else ""
  }

  /** Every row main prints is the joined text followed by a newline, `\\` and
      a newline (only `\\` and a newline when the text is empty), preceded by
      the border rule exactly for the rows of the border spans. */
  lemma RowShape(borderTop: Option<string>, borderMid: bool, borderMidCmd: string,
                 rowModifiers: seq<string>, colModifiers: seq<string>, row: int, joined: string)
    requires WrapperList(borderTop, borderMid, borderMidCmd, rowModifiers, colModifiers).Ok?
    ensures BorderSpans(borderTop).Ok?
    ensures var ws := WrapperList(borderTop, borderMid, borderMidCmd, rowModifiers, colModifiers).value;
      FoldRow(ws, row, joined) ==
        BorderRule(BorderSpans(borderTop).value, borderMid, borderMidCmd, row)
        + (if joined != "" then joined + "\n\\\\\n" else "\\\\\n")
  {
    var ws := WrapperList(borderTop, borderMid, borderMidCmd, rowModifiers, colModifiers).value;
    var init := InitialWrappers(borderTop, borderMid, borderMidCmd).value;
    WrapperListRowHooks(borderTop, borderMid, borderMidCmd, rowModifiers, colModifiers);
    FoldRowHooks(ws, row, joined);
    TwoRowHooks(BorderSpans(borderTop).value, borderMid, borderMidCmd, row, joined);
  }

  /** The row wrapper over every row, then the border wrapper. */
  lemma TwoRowHooks(spans: seq<Span>, borderMid: bool, borderMidCmd: string, row: int, joined: string)
    ensures FoldRow([RowWrapper(Domain(RowAxis, AllSpans())), RowBorderWrapper(Domain(RowAxis, spans), borderMid, borderMidCmd)], row, joined)
      == BorderRule(spans, borderMid, borderMidCmd, row) + (if joined != "" then joined + "\n\\\\\n" else "\\\\\n")
  {
    var a, b := RowWrapper(Domain(RowAxis, AllSpans())), RowBorderWrapper(Domain(RowAxis, spans), borderMid, borderMidCmd);
    assert InDomain(a.domain, Coord(Some(row), None));
    var ended := WrapRow(a, row, joined);
    assert [a, b][1..] == [b];
    assert FoldRow([a, b], row, joined) == FoldRow([b], row, ended);
    assert FoldRow([b], row, ended) == WrapRow(b, row, ended);
  }

  // ---------------------------------------------------------------- print_table

  /** dict(zip(names, fields)), then restval None for every name the line was
      too short to fill; a repeated name keeps its last assignment. */
  function ZipRow(names: seq<string>, fields: seq<string>): (r: Record)
    ensures r.Keys == set k | k in names
  {
    if names == [] then map[]
    else
      var n := |names| - 1;
      ZipRow(names[..n], fields)[names[n] := if n < |fields| then Some(fields[n]) else None]
  }

  /** The value of a name is the field at its last position, None past the
      end of the line. */
  lemma {:induction false} ZipRowValue(names: seq<string>, fields: seq<string>, j: nat)
    requires j < |names| && forall i :: j < i < |names| ==> names[i] != names[j]
    ensures ZipRow(names, fields)[names[j]] == if j < |fields| then Some(fields[j]) else None
    decreases |names|
  {
    var n := |names| - 1;
    if j < n {
      ZipRowValue(names[..n], fields, j);
    }
  }

  /** The header row `dict(zip(cols, cols))` maps every column to its own name. */
  lemma HeaderRecordNames(cols: seq<string>)
    ensures forall c :: c in cols ==> c in ZipRow(cols, cols) && ZipRow(cols, cols)[c] == Some(c)
  {
    forall c | c in cols
      ensures c in ZipRow(cols, cols) && ZipRow(cols, cols)[c] == Some(c)
    {
      var j := LastIndex(cols, c);
      ZipRowValue(cols, cols, j);
    }
  }

  function LastIndex(xs: seq<string>, x: string): (j: nat)
    requires x in xs
    ensures j < |xs| && xs[j] == x && forall i :: j < i < |xs| ==> xs[i] != x
  {
    if xs[|xs| - 1] == x then |xs| - 1 else LastIndex(xs[..|xs| - 1], x)
  }

  /** The records DictReader yields: every non-empty line, zipped with the names. */
  function DictRows(names: seq<string>, lines: seq<seq<string>>): (r: seq<Record>)
    ensures forall k :: 0 <= k < |r| ==> r[k].Keys == set c | c in names
  {
    if lines == [] then []
    else
      var n := |lines| - 1;
      DictRows(names, lines[..n]) + (if lines[n] == [] then [] else [ZipRow(names, lines[n])])
  }

  /** SkippableDictReader: `start_at` lines are dropped first (none for a
      negative count), and running out of lines while dropping raises. */
  function SkipLines(lines: seq<seq<string>>, startAt: int): (r: Result<seq<seq<string>>>)
    ensures r.Ok? <==> startAt <= |lines|
    ensures r.Ok? ==> r.value == lines[if startAt < 0 then 0 else startAt..]
    ensures r.Err? ==> r.error == MissingRecords
  {
    var k := if startAt < 0 then 0 else startAt;
    if k > |lines| then Err(MissingRecords) else Ok(lines[k..])
  }

  /** `[c for c in cols if c not in skip_cols]`. */
  function Without(cols: seq<string>, skip: seq<string>): (r: seq<string>)
  {
    if cols == [] then []
    else
      var n := |cols| - 1;
      Without(cols[..n], skip) + (if cols[n] in skip then [] else [cols[n]])
  }

  lemma {:induction false} WithoutExact(cols: seq<string>, skip: seq<string>)
    ensures forall c :: c in Without(cols, skip) <==> c in cols && c !in skip
    ensures |Without(cols, skip)| <= |cols|
    decreases |cols|
  {
    if cols != [] {
      var n := |cols| - 1;
      WithoutExact(cols[..n], skip);
      assert cols == cols[..n] + [cols[n]];
    }
  }

  /** The columns print_table keeps: the field names whose index the column
      spans hold, minus the skipped names. */
  function SelectColumns(colSpans: seq<Span>, names: seq<string>, skipCols: seq<string>): seq<string>
  {
    Without(FilterSpec(colSpans, names), skipCols)
  }

  /** A column is printed iff some position it has among the field names is
      selected and it is not skipped. */
  lemma SelectColumnsExact(colSpans: seq<Span>, names: seq<string>, skipCols: seq<string>, c: string)
    ensures c in SelectColumns(colSpans, names, skipCols) <==>
      c !in skipCols && exists j :: 0 <= j < |names| && InSpans(colSpans, j) && names[j] == c
  {
    var f := FilterSpec(colSpans, names);
    var idx := SelectedIndices(colSpans, |names|);
    WithoutExact(f, skipCols);
    FilterSelects(colSpans, names);
    SelectedIndicesExact(colSpans, |names|);
    if c in f {
      var k :| 0 <= k < |f| && f[k] == c;
      assert idx[k] in idx;
      assert names[idx[k]] == c;
    }
    if exists j :: 0 <= j < |names| && InSpans(colSpans, j) && names[j] == c {
      var j :| 0 <= j < |names| && InSpans(colSpans, j) && names[j] == c;
      assert j in idx;
      var k :| 0 <= k < |idx| && idx[k] == j;
      assert f[k] == c;
    }
  }

  /** The records before row selection: the header row first unless headers
      are skipped, then the reader's records. */
  function TableData(names: seq<string>, lines: seq<seq<string>>, cols: seq<string>, skipHeaders: bool): seq<Record>
  {
    (if skipHeaders then [] else [ZipRow(cols, cols)]) + DictRows(names, lines)
  }

  /** What the script prints and, when it stops early, the exception that
      stopped it; rows printed before the exception stay printed. */
  datatype Output = Output(text: string, failure: Option<Error>)

  /** What print_row gives for each record of `enumerate(...)`: row k is
      numbered k. */
  function RowResults(recs: seq<Record>, cols: seq<string>, ws: seq<Modifier>, template: Template): (r: seq<Result<string>>)
    ensures |r| == |recs|
    ensures forall k :: 0 <= k < |recs| ==> r[k] == RowSpec(k, recs[k], cols, ws, template)
  {
    seq(|recs|, k requires 0 <= k < |recs| => RowSpec(k, recs[k], cols, ws, template))
  }

  /** The rows printed one after the other until the first exception. */
  function Emit(results: seq<Result<string>>): Output
    decreases |results|
  {
    if results == [] then Output("", None)
    else
      match results[0]
      case Err(e) => Output("", Some(e))
      case Ok(t) =>
        var rest := Emit(results[1..]);
        Output(t + rest.text, rest.failure)
  }

  /** The exception that stops the printing is one of the rows' own. */
  lemma {:induction false} EmitFailure(results: seq<Result<string>>)
    requires forall k :: 0 <= k < |results| && results[k].Err? ==> results[k].error.InvalidDecimal?
    requires Emit(results).failure.Some?
    ensures Emit(results).failure.value.InvalidDecimal?
    decreases |results|
  {
    if results[0].Ok? {
      var tail := results[1..];
      forall k | 0 <= k < |tail| && tail[k].Err? ensures tail[k].error.InvalidDecimal? {
        assert tail[k] == results[k + 1];
      }
      EmitFailure(tail);
    }
  }

  /** The columns print_table keeps and the records it passes to print_row,
      or the exception the reader raises first. */
  function TableInput(lines: seq<seq<string>>, startAt: int, rowSpans: seq<Span>, colSpans: seq<Span>,
                      skipHeaders: bool, skipCols: seq<string>): Result<(seq<string>, seq<Record>)>
  {
    match SkipLines(lines, startAt)
    case Err(e) => Err(e)
    case Ok(rest) =>
      if rest == [] then Err(MissingHeader)
      else
        var cols := SelectColumns(colSpans, rest[0], skipCols);
        Ok((cols, FilterSpec(rowSpans, TableData(rest[0], rest[1..], cols, skipHeaders))))
  }

  /** print_table over the lines of the input file. */
  function TableSpec(lines: seq<seq<string>>, startAt: int, rowSpans: seq<Span>, colSpans: seq<Span>,
                     skipHeaders: bool, skipCols: seq<string>, ws: seq<Modifier>, template: Template): Output
  {
    match TableInput(lines, startAt, rowSpans, colSpans, skipHeaders, skipCols)
    case Err(e) => Output("", Some(e))
    case Ok((cols, selected)) => Emit(RowResults(selected, cols, ws, template))
  }

  /** print_table. */
  method PrintTable(lines: seq<seq<string>>, startAt: int, rowSpans: seq<Span>, colSpans: seq<Span>,
                    skipHeaders: bool, skipCols: seq<string>, ws: seq<Modifier>, template: Template)
    returns (out: Output)
    ensures out == TableSpec(lines, startAt, rowSpans, colSpans, skipHeaders, skipCols, ws, template)
  {
    var input := ReadTable(lines, startAt, rowSpans, colSpans, skipHeaders, skipCols);
    if input.Err? {
      return Output("", Some(input.error));
    }
    var (cols, selected) := input.value;
    out := PrintRows(selected, cols, ws, template);
  }

  /** The first half of print_table: the reader skips start_at lines and reads
      the names, the column list is filtered and pruned, the header row is put
      in front, and the rows are filtered. */
  method ReadTable(lines: seq<seq<string>>, startAt: int, rowSpans: seq<Span>, colSpans: seq<Span>,
                   skipHeaders: bool, skipCols: seq<string>) returns (r: Result<(seq<string>, seq<Record>)>)
    ensures r == TableInput(lines, startAt, rowSpans, colSpans, skipHeaders, skipCols)
  {
    var skip := if startAt < 0 then 0 else startAt;
    if skip > |lines| {
      return Err(MissingRecords);
    }
    var rest := lines[skip..];
    if rest == [] {
      return Err(MissingHeader);
    }
    var names := rest[0];
    var cols := Filter(colSpans, names);
    if skipCols != [] {
      cols := RemoveSkipped(cols, skipCols);
    } else {
      WithoutNothing(cols);
    }
    assert cols == SelectColumns(colSpans, names, skipCols);
    var data := DictRecords(names, rest[1..]);
    if !skipHeaders {
      data := [ZipRow(cols, cols)] + data;
    }
    assert data == TableData(names, rest[1..], cols, skipHeaders);
    var selected := Filter(rowSpans, data);
    return Ok((cols, selected));
  }

  /** `for row, data in enumerate(rows): print_row(row, data, ...)`; output
      already printed stays when a row raises. */
  method PrintRows(selected: seq<Record>, cols: seq<string>, ws: seq<Modifier>, template: Template)
    returns (out: Output)
    ensures out == Emit(RowResults(selected, cols, ws, template))
  {
    ghost var results := RowResults(selected, cols, ws, template);
    var text := "";
    var row := 0;
    while row < |selected|
      invariant 0 <= row <= |selected|
      invariant var tail := Emit(results[row..]);
        Emit(results) == Output(text + tail.text, tail.failure)
    {
      assert results[row..][0] == results[row] && results[row..][1..] == results[row + 1..];
      var printed := PrintRow(row, selected[row], cols, ws, template);
      if printed.Err? {
        return Output(text, Some(printed.error));
      }
      text := text + printed.value;
      row := row + 1;
    }
    assert results[..] == results;
    return Output(text, None);
  }

  lemma {:induction false} WithoutNothing(cols: seq<string>)
    ensures Without(cols, []) == cols
    decreases |cols|
  {
    if cols != [] {
      WithoutNothing(cols[..|cols| - 1]);
    }
  }

  /** The list comprehension over skip_cols. */
  method RemoveSkipped(cols: seq<string>, skip: seq<string>) returns (r: seq<string>)
    ensures r == Without(cols, skip)
  {
    r := [];
    var i := 0;
    while i < |cols|
      invariant 0 <= i <= |cols|
      invariant r == Without(cols[..i], skip)
    {
      assert cols[..i + 1][..i] == cols[..i];
      if cols[i] !in skip {
        r := r + [cols[i]];
      }
      i := i + 1;
    }
    assert cols[..i] == cols;
  }

  /** DictReader's iteration: blank lines are skipped, the others zipped. */
  method DictRecords(names: seq<string>, lines: seq<seq<string>>) returns (r: seq<Record>)
    ensures r == DictRows(names, lines)
  {
    r := [];
    var i := 0;
    while i < |lines|
      invariant 0 <= i <= |lines|
      invariant r == DictRows(names, lines[..i])
    {
      assert lines[..i + 1][..i] == lines[..i];
      if lines[i] != [] {
        r := r + [ZipRow(names, lines[i])];
      }
      i := i + 1;
    }
    assert lines[..i] == lines;
  }

  // ---------------------------------------------------------------- properties of the table

  /** With every column present in the record, print_row can only fail on a
      numeric cell whose text Decimal refuses. */
  lemma RowSpecFailure(row: int, rec: Record, cols: seq<string>, ws: seq<Modifier>, template: Template)
    requires forall c :: c in cols ==> c in rec
    requires RowSpec(row, rec, cols, ws, template).Err?
    ensures RowSpec(row, rec, cols, ws, template).error.InvalidDecimal?
  {
    var lookups := LookupEach(rec, cols);
    assert Sequence(lookups).Ok?;
    var cells := CellEach(ws, row, Sequence(lookups).value);
    var k :| 0 <= k < |cells| && cells[k] == Err(Sequence(cells).error);
    FoldCellFailure(ws, Coord(Some(row), Some(k)), QuoteCell(Sequence(lookups).value[k]));
  }

  /** Every exception print_row raises on complete records is a refused decimal. */
  lemma RowsFailure(recs: seq<Record>, cols: seq<string>, ws: seq<Modifier>, template: Template)
    requires forall k, c :: 0 <= k < |recs| && c in cols ==> c in recs[k]
    requires Emit(RowResults(recs, cols, ws, template)).failure.Some?
    ensures Emit(RowResults(recs, cols, ws, template)).failure.value.InvalidDecimal?
  {
    var results := RowResults(recs, cols, ws, template);
    forall k | 0 <= k < |results| && results[k].Err? ensures results[k].error.InvalidDecimal? {
      RowSpecFailure(k, recs[k], cols, ws, template);
    }
    EmitFailure(results);
  }

  /** Every record print_table hands to print_row holds every kept column:
      the header row by construction, the reader's rows because the kept
      columns are field names. */
  lemma TableRecordsComplete(lines: seq<seq<string>>, startAt: int, rowSpans: seq<Span>, colSpans: seq<Span>,
                             skipHeaders: bool, skipCols: seq<string>)
    requires TableInput(lines, startAt, rowSpans, colSpans, skipHeaders, skipCols).Ok?
    ensures var (cols, selected) := TableInput(lines, startAt, rowSpans, colSpans, skipHeaders, skipCols).value;
      forall k, c :: 0 <= k < |selected| && c in cols ==> c in selected[k]
  {
    var rest := lines[if startAt < 0 then 0 else startAt..];
    var names := rest[0];
    var cols := SelectColumns(colSpans, names, skipCols);
    var data := TableData(names, rest[1..], cols, skipHeaders);
    var selected := FilterSpec(rowSpans, data);
    assert forall c :: c in cols ==> c in names by {
      forall c | c in cols ensures c in names {
        SelectColumnsExact(colSpans, names, skipCols, c);
      }
    }
    assert forall j :: 0 <= j < |data| ==> forall c :: c in cols ==> c in data[j];
    FilterSelects(rowSpans, data);
    SelectedIndicesExact(rowSpans, |data|);
    forall k, c | 0 <= k < |selected| && c in cols ensures c in selected[k] {
      var idx := SelectedIndices(rowSpans, |data|);
      assert selected[k] == data[idx[k]];
    }
  }

  /** print_table never raises a missing-column error: it stops only when the
      input runs out before the header, or on a numeric cell Decimal refuses. */
  lemma TableFailure(lines: seq<seq<string>>, startAt: int, rowSpans: seq<Span>, colSpans: seq<Span>,
                     skipHeaders: bool, skipCols: seq<string>, ws: seq<Modifier>, template: Template)
    requires TableSpec(lines, startAt, rowSpans, colSpans, skipHeaders, skipCols, ws, template).failure.Some?
    ensures var e := TableSpec(lines, startAt, rowSpans, colSpans, skipHeaders, skipCols, ws, template).failure.value;
      e == MissingRecords || e == MissingHeader || e.InvalidDecimal?
  {
    var input := TableInput(lines, startAt, rowSpans, colSpans, skipHeaders, skipCols);
    if input.Ok? {
      TableRecordsComplete(lines, startAt, rowSpans, colSpans, skipHeaders, skipCols);
      RowsFailure(input.value.1, input.value.0, ws, template);
    }
  }

  /** Without --skip-headers, a row selection holding row 0 prints the header
      row first, every kept column showing its own name. */
  lemma TableHeaderFirst(lines: seq<seq<string>>, startAt: int, rowSpans: seq<Span>, colSpans: seq<Span>,
                         skipCols: seq<string>)
    requires TableInput(lines, startAt, rowSpans, colSpans, false, skipCols).Ok?
    requires InSpans(rowSpans, 0)
    ensures var (cols, selected) := TableInput(lines, startAt, rowSpans, colSpans, false, skipCols).value;
      |selected| >= 1 && selected[0] == ZipRow(cols, cols)
      && forall c :: c in cols ==> c in selected[0] && selected[0][c] == Some(c)
  {
    var rest := lines[if startAt < 0 then 0 else startAt..];
    var cols := SelectColumns(colSpans, rest[0], skipCols);
    var data := TableData(rest[0], rest[1..], cols, false);
    var idx := SelectedIndices(rowSpans, |data|);
    FilterSelects(rowSpans, data);
    SelectedIndicesExact(rowSpans, |data|);
    assert 0 in idx;
    assert idx[0] == 0;
    HeaderRecordNames(cols);
  }

  // ---------------------------------------------------------------- main

  /** The command-line options of main that reach the model; absent options
      are None. */
  datatype Options = Options(
    rows: Option<string>, cols: Option<string>, startAt: int, skipCols: Option<string>,
    rowModifiers: seq<string>, colModifiers: seq<string>,
    borderTop: Option<string>, borderMid: bool, borderMidCmd: string,
    borderBottom: bool, skipHeaders: bool)

  /** The defaults click gives the options. */
  function DefaultOptions(): Options
  {
    Options(None, None, 0, None, [], [], None, true, "midrule", true, true)
  }

  /** `Spans.parse(v) if v else Spans.all()`. */
  function SpansOption(v: Option<string>): (r: Result<seq<Span>>)
    ensures (v.None? || v.value == "") ==> r == Ok(AllSpans())
  {
    if v.None? || v.value == "" then Ok(AllSpans()) else ParseSpans(v.value)
  }

  /** `skip_cols.split(",") if skip_cols else []`. */
  function SkipList(v: Option<string>): seq<string>
  {
    if v.None? || v.value == "" then [] else Split(v.value, ",")
  }

  /** What main prints: the table, then `\midrule` and a newline when
      --border-bottom is on and nothing raised. */
  function RenderSpec(lines: seq<seq<string>>, o: Options, template: Template): Output
  {
    match SpansOption(o.rows)
    case Err(e) => Output("", Some(e))
    case Ok(rowSpans) =>
      match SpansOption(o.cols)
      case Err(e) => Output("", Some(e))
      case Ok(colSpans) =>
        match WrapperList(o.borderTop, o.borderMid, o.borderMidCmd, o.rowModifiers, o.colModifiers)
        case Err(e) => Output("", Some(e))
        case Ok(ws) =>
          var t := TableSpec(lines, o.startAt, rowSpans, colSpans, o.skipHeaders, SkipList(o.skipCols), ws, template);
          if t.failure.None? && o.borderBottom then Output(t.text + "\\midrule\n", None) else t
  }

  /** main: the row and column spans, the skipped names, the wrapper list,
      the table and the bottom rule. */
  method RenderTable(lines: seq<seq<string>>, o: Options, template: Template) returns (out: Output)
    ensures out == RenderSpec(lines, o, template)
  {
    var rowSpans := SpansOption(o.rows);
    if rowSpans.Err? {
      return Output("", Some(rowSpans.error));
    }
    var colSpans := SpansOption(o.cols);
    if colSpans.Err? {
      return Output("", Some(colSpans.error));
    }
    var skipCols := SkipList(o.skipCols);
    var ws := BuildWrappers(o.borderTop, o.borderMid, o.borderMidCmd, o.rowModifiers, o.colModifiers);
    if ws.Err? {
      return Output("", Some(ws.error));
    }
    out := PrintTable(lines, o.startAt, rowSpans.value, colSpans.value, o.skipHeaders, skipCols, ws.value, template);
    if out.failure.None? && o.borderBottom {
      out := Output(out.text + "\\midrule\n", None);
    }
  }

  /** Each row main prints is the template's text for its cells, ended by a
      newline, `\\` and a newline, with the border rule in front for the
      rows of the border spans. */
  lemma PrintedRowShape(o: Options, row: int, rec: Record, cols: seq<string>, template: Template)
    requires WrapperList(o.borderTop, o.borderMid, o.borderMidCmd, o.rowModifiers, o.colModifiers).Ok?
    requires RowSpec(row, rec, cols, WrapperList(o.borderTop, o.borderMid, o.borderMidCmd, o.rowModifiers, o.colModifiers).value, template).Ok?
    ensures BorderSpans(o.borderTop).Ok?
    ensures var ws := WrapperList(o.borderTop, o.borderMid, o.borderMidCmd, o.rowModifiers, o.colModifiers).value;
      var cells := Sequence(LookupEach(rec, cols)).value;
      var joined := template(Sequence(CellEach(ws, row, cells)).value, HasValue(cells));
      RowSpec(row, rec, cols, ws, template).value
        == BorderRule(BorderSpans(o.borderTop).value, o.borderMid, o.borderMidCmd, row)
           + (if joined != "" then joined + "\n\\\\\n" else "\\\\\n")
  {
    var ws := WrapperList(o.borderTop, o.borderMid, o.borderMidCmd, o.rowModifiers, o.colModifiers).value;
    var cells := Sequence(LookupEach(rec, cols)).value;
    var joined := template(Sequence(CellEach(ws, row, cells)).value, HasValue(cells));
    RowShape(o.borderTop, o.borderMid, o.borderMidCmd, o.rowModifiers, o.colModifiers, row, joined);
  }

  /** A run that raises nothing ends with the bottom rule when --border-bottom
      is on; the table alone is printed otherwise. */
  lemma RenderBottomRule(lines: seq<seq<string>>, o: Options, template: Template)
    requires RenderSpec(lines, o, template).failure.None?
    ensures var r := RenderSpec(lines, o, template);
      o.borderBottom ==> |r.text| >= 9 && r.text[|r.text| - 9..] == "\\midrule\n"
  {
    var r := RenderSpec(lines, o, template);
    if o.borderBottom {
      assert r.text[|r.text| - 9..] == "\\midrule\n";
    }
  }
}
