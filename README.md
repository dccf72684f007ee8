# Table rendering and plot-data preparation, modelled in Dafny

This project models the two scripts that turn delimited data into LaTeX for a
report.

`scripts/render-table.py` renders a table. It covers:

- row and column addresses (`Span`, `Spans`, `RowSpans`, `ColSpans`);
- cell escaping (`quote`);
- the cell and row modifiers (`wrap`, `bold`, `italic`, `bg`, `fg`, `dot`,
  `cmark-if`, `xmark-if`, `list`, `round`, `percent`, and the two row
  wrappers that are always installed);
- the `MODIFIERS` registry and `parse_modifier`;
- the wrapper list that `main` builds and sorts by descending priority;
- `print_row`, `simple_row` and `print_table`, run over an in-memory table.

`scripts/prepare-data.py` prepares plot data. It covers:

- header and value quoting;
- the `keeprow`/`iterrows` row filter;
- the month arithmetic behind the date ticks (`next_month`, `itermonths`);
- the date bookkeeping of its `main`.

Modules, leaf first:

- `Wrappers`: `Option`, `Result` and one `Error` constructor for each exception
  the scripts can raise.
- `Text`: the Python string operations the scripts use (`strip`, `int`,
  `partition`, `split`, `join`, `replace`), with their Python semantics.
- `Decimals`: exact fixed-point decimals. `quantize` is written as an integer
  division with round-half-even or round-down.
- `Spans`, `Quoting`, `Modifiers`, `Ordering` (the wrapper list and its sort)
  and `Rendering` (`print_row`, `print_table`, `main`).
- `PrepareData`.

Where the script changes state step by step, the model is a method with a
loop. Each such method is proved equal to a specification function, and the
properties are proved about that function as lemmas. This applies to the
`Spans.__contains__` scan, `filter`, the loops of `print_row`, the list
building and sort in `main`, `print_table`, `keeprow`, `iterrows`, the
`itermonths` loop and the `min_date`/`max_date` loop.

Behaviour of the scripts worth knowing, which the model follows:

- `"-b"` parses to a span with no lower bound, so it also holds negative
  indices (render-table.py:62).
- `round` with negative decimals divides by `10^-decimals` and never scales
  back (render-table.py:341-343). So `round(-2)` turns `1534` into `15`.
- `Spans.filter` yields the elements only, not index/element pairs
  (render-table.py:98-101).
- `RowWrapper` ends a row with a newline, `\\` and a newline
  (render-table.py:405-408), so `\\` stands on its own line.
- By default every row from 1 on gets a `\midrule` line in front
  (render-table.py:502, 504).
- A column modifier with span `0` touches column 0 only. A parenthesised value
  in another column stays as it is.
- `Wrapper.apply` maps a whitespace-only value to `""`; it does not pass it
  through unchanged (render-table.py:208-210).

## Model

| member | source | states |
|---|---|---|
| Spans.ParseSpan | scripts/render-table.py:59-67 | empty text is refused with `EmptySpan` |
| Spans.ParseBound | scripts/render-table.py:62-63 | an empty piece is an absent bound; a non-empty piece that parses is a present bound |
| Spans.ParseSpanSingle | scripts/render-table.py:59-76 | `"n"` holds exactly `n` |
| Spans.ParseSpanRange | scripts/render-table.py:59-76 | `"a-b"` holds exactly `a..b`, both ends included |
| Spans.ParseSpanFrom | scripts/render-table.py:59-76 | `"a-"` holds every `i >= a` |
| Spans.ParseSpanUpTo | scripts/render-table.py:59-76 | `"-b"` holds every `i <= b`, negative indices included |
| Spans.ParseSpanDash | scripts/render-table.py:59-76 | a lone `"-"` has neither bound and holds every integer |
| Spans.Contains | scripts/render-table.py:92-96 | the early-return scan answers true iff some member span holds `i` |
| Spans.AllSpans | scripts/render-table.py:83-85 | `Spans.all()` holds every integer |
| Spans.NoSpansHoldNothing | scripts/render-table.py:81 | `Spans([])` holds nothing |
| Spans.ParseSpanList | scripts/render-table.py:89 | every piece is parsed in order, and the first failure aborts |
| Spans.ParseSpansSkipsEmptyPieces | scripts/render-table.py:87-90 | an empty comma-separated piece is ignored |
| Spans.ParseSpansEmpty | scripts/render-table.py:87-90 | empty text parses to the empty set |
| Spans.SelectedIndicesExact | scripts/render-table.py:98-101 | the selected indices increase strictly and are exactly the indices the set holds |
| Spans.FilterSelects | scripts/render-table.py:98-101 | element `k` of the filtered sequence is the input element at the `k`-th held index |
| Spans.FilterAll | scripts/render-table.py:83-85 | filtering with `Spans.all()` keeps every element |
| Spans.FilterNone | scripts/render-table.py:98-101 | filtering with the empty set keeps nothing |
| Spans.Filter | scripts/render-table.py:98-101 | the enumerate loop yields the filtered sequence |
| Spans.DomainAxes | scripts/render-table.py:104-117 | `RowSpans` never holds a coordinate without a row, `ColSpans` never one without a column, and each ignores the other component |
| Spans.DomainContains | scripts/render-table.py:104-117 | the axis test followed by the scan decides membership of a coordinate |
| Quoting.QuoteBlank | scripts/render-table.py:139-153 | empty or whitespace-only text quotes to `""`, and only such text does |
| Quoting.QuoteChainEscapes | scripts/render-table.py:143-150 | the chain of seven replaces escapes each of `% # & $ _ { }` exactly once |
| Quoting.DoublingSkipsEscaped | scripts/render-table.py:151 | for backslash-free text, the final doubling of `\\` pairs changes nothing |
| Quoting.QuoteWithoutBackslash | scripts/render-table.py:139-153 | without a backslash, quoting puts a backslash before each special character of the stripped text |
| Quoting.QuotePlain | scripts/render-table.py:139-153 | a stripped text with no special character and no backslash comes back as it is |
| Quoting.QuoteMarksSpecials | scripts/render-table.py:139-153 | for every text, each special character of the output follows a backslash |
| Quoting.DoublingKeepsMarks | scripts/render-table.py:151 | doubling the `\\` pairs never separates a special character from the backslash before it |
| Quoting.QuoteBackslashesMark | scripts/render-table.py:139-153 | for input without a backslash, every backslash of the output starts the escape of a special character |
| Quoting.QuoteConcat | scripts/render-table.py:139-153 | for pieces without a backslash, quoting distributes over concatenation when stripping does (with backslashes the doubling can pair characters across the seam) |
| Modifiers.WrapOutside | scripts/render-table.py:125-133 | outside its domain a modifier changes neither a cell nor a row |
| Modifiers.ColumnModifierSkipsRows | scripts/render-table.py:130-133 | a column-scoped modifier never runs its row hook |
| Modifiers.RowHookOnlyForRowClasses | scripts/render-table.py:135-136 | every class except the two row wrappers keeps the row, through the default `apply_row` |
| Modifiers.Apply | scripts/render-table.py:207-408 | only `round` and `percent` can raise |
| Modifiers.WrapperBlank | scripts/render-table.py:207-210 | `Wrapper.apply` gives `""` iff the value is blank |
| Modifiers.WrapperEncloses | scripts/render-table.py:211-212 | with `wrap_value`, the result is `\d{v}` for the stripped `v`, and `v` can be read back from between the braces |
| Modifiers.WrapperPrefixes | scripts/render-table.py:213-215 | without `wrap_value`, the result is `\d v`, or `\dv` when `v` starts with a backslash |
| Modifiers.MarkersReplaceOrKeep | scripts/render-table.py:258-292 | `dot`, `cmark-if` and `xmark-if` either put their marker in place of the value or return it unchanged; a missing `cmark-if` argument never matches |
| Modifiers.ListShape | scripts/render-table.py:303-307 | a blank value gives `""`; any other value gives `\begin{tabitemize}`, one `\item` line per piece, and `\end{tabitemize}` |
| Modifiers.ListSingleItem | scripts/render-table.py:303-307 | a single bullet `- t` becomes one item holding `t` |
| Modifiers.ListEndsWithClosingTag | scripts/render-table.py:307 | a non-blank value's list ends with `\end{tabitemize}` |
| Modifiers.Quantize | scripts/render-table.py:345-347 | the quantized value has the requested fraction digits and is the input rounded half-even or toward zero |
| Modifiers.RoundParens | scripts/render-table.py:336-337 | `(x)` is read as `-x` before anything else |
| Modifiers.RoundNumeric | scripts/render-table.py:338-348 | a numeric value is printed with exactly `decimals` fraction digits, rounded by the chosen mode |
| Modifiers.RoundNegativeDecimals | scripts/render-table.py:341-343 | for `decimals < 0` the printed integer is the value divided by `10^-decimals`, rounded half-even whatever the second argument says |
| Modifiers.RoundOther | scripts/render-table.py:349-352 | any other value is wrapped in braces, and `...` becomes `{\dots}` |
| Modifiers.PercentNumeric | scripts/render-table.py:365-369 | a numeric value becomes `\pct{p}`, where `p` is 100 times the value rounded half-even to `decimals` places, negative `decimals` acting as 0 |
| Modifiers.PercentOther | scripts/render-table.py:365-370 | a non-numeric value passes through unchanged |
| Modifiers.RowBorderPrepends | scripts/render-table.py:384-390 | the border wrapper puts `\cmd` and a newline in front of the row iff `border_top` is set, and keeps cells |
| Modifiers.RowWrapperEnds | scripts/render-table.py:401-408 | the row wrapper never returns `""`: it gives `v` plus newline, `\\`, newline, or just `\\` and a newline for an empty row |
| Modifiers.ParseKind | scripts/render-table.py:217-363 | each class's `parse` keeps the domain, never builds a row wrapper, and fails only on an unexpected argument, a missing one or a bad integer |
| Modifiers.ParseParts | scripts/render-table.py:436-438 | a successful parse has parsed spans on the given axis and a registered key |
| Modifiers.ParseModifier | scripts/render-table.py:426-438 | a spec without a colon is refused; the result lives on the requested axis |
| Modifiers.ParseModifierWithArgs | scripts/render-table.py:427-429 | only the first two colons cut, so the arguments may hold colons |
| Modifiers.ParseModifierWithoutArgs | scripts/render-table.py:430-432 | two parts give `args = None` |
| Modifiers.UnknownKeyRefused | scripts/render-table.py:437 | an unregistered key is an error |
| Modifiers.FlagsRefuseArguments | scripts/render-table.py:224-256 | `bold`, `italic` and `dot` refuse any argument and accept none |
| Modifiers.RegistryKeys | scripts/render-table.py:411-423 | the eleven registry keys and the classes they name |
| Modifiers.RoundPieces | scripts/render-table.py:330-333 | `round` reads the decimals from the first comma piece and rounds down iff the second piece is `down`; no argument raises |
| Modifiers.RoundArguments | scripts/render-table.py:330-333 | `"n"` and `"n,down"` give half-even and round-down with `n` decimals |
| Modifiers.Priorities | scripts/render-table.py:122-395 | the priority of each class: 200, 100, 10, 1 and 0 |
| Ordering.SortSpecStable | scripts/render-table.py:516 | the sort orders by non-increasing priority, keeps every member, and keeps the insertion order within each priority |
| Ordering.SortByPriority | scripts/render-table.py:516 | the in-place sort gives the stable descending order |
| Ordering.InitialWrappers | scripts/render-table.py:499-509 | the list starts with the border wrapper and a row wrapper over all rows |
| Ordering.AppendParsed | scripts/render-table.py:511-514 | each spec is parsed in order and appended after the wrappers so far; the first spec that fails aborts with its error |
| Ordering.BuildWrappers | scripts/render-table.py:495-516 | the loops append every row modifier and then every column modifier, stop at the first spec that fails, and sort |
| Ordering.WrapperListOrdered | scripts/render-table.py:499-516 | the built list is sorted, holds `2 + rows + cols` members, and is a stable permutation of the appended ones |
| Ordering.BorderWrapperLast | scripts/render-table.py:499-516 | the border wrapper ends the sorted list, so its rule is the outermost addition to a row |
| Rendering.PrintRow | scripts/render-table.py:185-199 | the row loop's lookups, quoting, wrapper passes, template and row hooks give the row specification |
| Rendering.LookupCells | scripts/render-table.py:188 | the first missing column raises `KeyError` |
| Rendering.WrapCells | scripts/render-table.py:189-195 | each quoted cell goes through the wrappers in order, and `has_value` holds iff some quoted cell is non-empty |
| Rendering.WrapColumn | scripts/render-table.py:190-195 | one column: the wrapped cell is that column's entry of the per-cell fold, and the cell counts toward `has_value` exactly when it quotes to a non-empty text |
| Rendering.WrapCell | scripts/render-table.py:193-194 | the loop threads a cell through every wrapper in list order |
| Rendering.WrapWholeRow | scripts/render-table.py:197-198 | the loop threads the joined row through every row hook in list order |
| Rendering.SimpleRowJoins | scripts/render-table.py:441-442 | `simple_row` is `""` without a value and the `" & "` join with one; the join splits back into the cells |
| Rendering.FoldCellActive | scripts/render-table.py:193-194 | a cell is changed only by the wrappers whose domain holds it, in list order |
| Rendering.FoldCellUntouched | scripts/render-table.py:193-194 | a cell no domain holds comes out as it went in |
| Rendering.FoldCellFailure | scripts/render-table.py:193-194 | the cell pass raises only on a numeric text that `Decimal` refuses |
| Rendering.FoldRowHooks | scripts/render-table.py:197-198 | the joined row is changed only by the two row wrappers |
| Rendering.WrapperListRowHooks | scripts/render-table.py:499-516 | a row goes through the row wrapper first and the border wrapper last |
| Rendering.RowShape | scripts/render-table.py:196-198 | every printed row is the template text plus the row ending, with the border rule in front exactly for the border rows |
| Rendering.ZipRowValue | scripts/render-table.py:179 | a name maps to the field at its last position, or to `None` past the end of the line |
| Rendering.HeaderRecordNames | scripts/render-table.py:178-179 | the synthetic header row maps every column to its own name |
| Rendering.SkipLines | scripts/render-table.py:160-164 | `start_at` leading records are dropped, and running out while dropping raises |
| Rendering.WithoutExact | scripts/render-table.py:175-176 | the skip list removes exactly the skipped names |
| Rendering.SelectColumnsExact | scripts/render-table.py:174-176 | a column is kept iff the column spans hold some position of it and it is not skipped |
| Rendering.ReadTable | scripts/render-table.py:170-181 | the column and row selection of `print_table` |
| Rendering.PrintRows | scripts/render-table.py:181-182 | rows are numbered by their position after filtering, and rows printed before an exception stay printed |
| Rendering.PrintTable | scripts/render-table.py:167-182 | `print_table` gives the table specification |
| Rendering.RemoveSkipped | scripts/render-table.py:176 | the list comprehension over `skip_cols` |
| Rendering.DictRecords | scripts/render-table.py:173 | the reader skips blank lines and zips the others with the names |
| Rendering.TableRecordsComplete | scripts/render-table.py:174-181 | every record handed to `print_row` holds every kept column |
| Rendering.TableFailure | scripts/render-table.py:167-182 | `print_table` stops only when the input ends before the header, or on a numeric text `Decimal` refuses |
| Rendering.TableHeaderFirst | scripts/render-table.py:178-182 | without `--skip-headers`, a selection holding row 0 prints the header row first |
| Rendering.SpansOption | scripts/render-table.py:495-496 | an absent or empty option selects everything |
| Rendering.RenderTable | scripts/render-table.py:495-546 | `main`: spans, skip list, wrapper list, table and bottom rule |
| Rendering.PrintedRowShape | scripts/render-table.py:185-199 | each printed row of `main` is the template text, the row ending and the border rule where due |
| Rendering.RenderBottomRule | scripts/render-table.py:545-546 | a run that raises nothing ends with `\midrule` when `--border-bottom` is on |
| PrepareData.QuoteHeaderRemoves | scripts/prepare-data.py:9-10 | `quote_header` removes every space and underscore, keeps the other characters in order, and is idempotent |
| PrepareData.QuoteValueEscapes | scripts/prepare-data.py:13-15 | `quote_value` strips and puts a backslash before each `%`, `#` and `&`; dropping those backslashes gives the stripped text back |
| PrepareData.QuoteValuePlain | scripts/prepare-data.py:13-15 | a stripped value without those characters is written as it is |
| PrepareData.FieldEquals | scripts/prepare-data.py:28-34 | a spec fails only as malformed or as a missing field |
| PrepareData.FieldEqualsSpec | scripts/prepare-data.py:28-34 | `key:value` compares the field named `key` with `value` |
| PrepareData.FieldEqualsRefuses | scripts/prepare-data.py:28 | a spec that does not split into exactly two parts is an error |
| PrepareData.KeepRowIff | scripts/prepare-data.py:26-35 | a row is kept iff every filter holds and no exclude does |
| PrepareData.KeepRowTotal | scripts/prepare-data.py:26-35 | well-formed specs over present fields never raise |
| PrepareData.KeepRow | scripts/prepare-data.py:26-35 | the two early-return loops compute `keeprow` |
| PrepareData.IterRowsSelects | scripts/prepare-data.py:38-41 | `iterrows` yields, in order and once each, exactly the rows `keeprow` accepts: element k is the row at the k-th accepted position, the positions increase strictly and are exactly the accepted ones, and a finished iteration saw no `keeprow` raise |
| PrepareData.AcceptedIndicesExact | scripts/prepare-data.py:38-41 | the accepted positions increase strictly and are exactly those of the rows `keeprow` accepts |
| PrepareData.IterRowsPositions | scripts/prepare-data.py:38-41 | element k of the yielded rows is the row at the k-th accepted position |
| PrepareData.IterRows | scripts/prepare-data.py:38-41 | the generator, consumed in order, yields the kept rows |
| PrepareData.NextMonth | scripts/prepare-data.py:44-51 | gives day 1 of the following month, fails only after December 9999 |
| PrepareData.NextMonthLeast | scripts/prepare-data.py:44-51 | the next month is strictly later, and is the earliest first-of-month date that is |
| PrepareData.NextMonthDecember | scripts/prepare-data.py:46-48 | December rolls over to January of the next year |
| PrepareData.Itermonths | scripts/prepare-data.py:54-60 | the `while` loop yields the `itermonths` sequence |
| PrepareData.ItermonthsExact | scripts/prepare-data.py:54-60 | the ticks are exactly the first-of-month dates from `next_month(from)` to `next_month(to)` with `(month-1) % frequency == 0`, strictly increasing |
| PrepareData.ItermonthsEmpty | scripts/prepare-data.py:55-57 | nothing is yielded when `next_month(from) > next_month(to)` |
| PrepareData.ItermonthsZeroFrequency | scripts/prepare-data.py:58 | a zero frequency raises as soon as the loop body runs |
| PrepareData.FrequencyOf | scripts/prepare-data.py:88-99 | the frequency names map to 1, 3, 6 and 12 |
| PrepareData.TickMonths | scripts/prepare-data.py:58 | quarterly ticks fall in January, April, July and October; yearly ones in January |
| PrepareData.DateTicks | scripts/prepare-data.py:87 | a date-ticks spec must split into exactly two parts |
| PrepareData.LeastIsMinimum | scripts/prepare-data.py:105-119 | `min_date` ends as the smallest of `from_date` and the kept dates, and is one of them |
| PrepareData.GreatestIsMaximum | scripts/prepare-data.py:108-120 | `max_date` ends as the largest of `to_date` and the kept dates, and is one of them |
| PrepareData.ScanRowsInWindow | scripts/prepare-data.py:112-122 | every kept date lies within `[from_date, to_date]`, and written rows lose their `''` field |
| PrepareData.ScanRowsWithoutTicks | scripts/prepare-data.py:112-122 | without date ticks the written rows are exactly what `iterrows` yields |
| PrepareData.ScanOne | scripts/prepare-data.py:113-122 | one pass of the loop body equals the specified step for that row, and keeps `min_date`/`max_date` equal to the least and greatest of the bounds and the kept dates |
| PrepareData.ScanRowsWithTicks | scripts/prepare-data.py:112-122 | with date ticks the loop finishes exactly when `iterrows` does and every yielded row's date reads; the written rows are then the yielded rows dated within the bounds, in order, with `''` popped, and the kept dates are those rows' dates |
| PrepareData.WindowedExact | scripts/prepare-data.py:113-118 | a yielded row passes the date test exactly when its date reads and is neither before `from_date` nor after `to_date` |
| PrepareData.ScanRowsWrittenDates | scripts/prepare-data.py:114-122 | for a date field other than `''`, written row k still reads as date k of the kept dates |
| PrepareData.ScanLoop | scripts/prepare-data.py:112-122 | the loop updates `min_date`/`max_date` to the fold of the kept dates |
| PrepareData.Prepare | scripts/prepare-data.py:86-127 | `main` from the date-ticks spec to the tick list: the bounds are read after the `assert date_ticks` check, and `next_month(min_date)` is taken before `max_date` is used |
| PrepareData.ParseDateOption | scripts/prepare-data.py:102-110 | an absent or empty bound is absent; a given bound is the parsed date, or fails with the text `fromisoformat` refused |
| PrepareData.PrepareEmptyBounds | scripts/prepare-data.py:102-110 | an empty `--from-date` or `--until-date` behaves as an absent one |
| PrepareData.PrepareUnreadableFrom | scripts/prepare-data.py:102-107 | an unreadable `--from-date` fails the run before any row is read, whatever the rows |
| PrepareData.PrepareFromLastMonth | scripts/prepare-data.py:51-56 | with `--from-date` in December 9999, a run whose bounds and rows read fails on the year range, since every kept date is on or after the bound |
| PrepareData.UnmappedTicks | scripts/prepare-data.py:54-60 | with a frequency `%` refuses, `itermonths` fails exactly where it fails with a zero frequency, with the frequency's own error in place of the zero division, and otherwise yields nothing |
| PrepareData.PreparedTicks | scripts/prepare-data.py:112-127 | the ticks are exactly the first-of-month dates on the frequency from the month after the earliest date to the month after the latest |

## Left out

- CSV parsing and writing are left out. This covers `csv.DictReader`,
  `csv.reader`, `LaTeXDictWriter` and the `.tsv` delimiter test
  (render-table.py:170-172). Input is a sequence of already-split records
  (`[]` for a blank line). Rows are maps from field name to `Option<string>`,
  where `None` is the reader's `restval`. Extra fields under `restkey` are
  not modelled.
- `print` output is modelled as the text `main` would write, with the first
  exception as a failure value. The header and footer lines that
  prepare-data.py prints are not modelled.
- The Jinja2 template (render-table.py:518-538) is a function parameter of
  the model, with `simple_row` as the concrete default. The template filters
  are left out: `stripnl`, `replacerefs` and `replaceglossary`
  (render-table.py:15-45, 156-157). They depend on regular expressions,
  `natsort`, `slugify` and reading the glossary file.
- The click option handling is left out. Options arrive as an `Options`
  value, with an absent option as `None`.
- `datetime.date.fromisoformat` is a parameter `parse` of the model, applied
  to the row dates and to `--from-date` and `--until-date`. Dates
  are `(year, month, day)` triples restricted to valid calendar days.
  `datefmt` (`str`) is not applied: the ticks are dates, not strings.
- The writer's failures on a row are not modelled, for example
  `quote_value(None)` for a short row, or an extra `restkey` field.
- Modifiers.RoundNumeric: covers plain fixed-point results only. Some
  `Decimal` behaviour is not modelled: scientific notation from `str()` for
  very small quantized values, 28-digit precision in the division at
  render-table.py:342, and `InvalidOperation` when a quantized coefficient
  exceeds that precision.
- Modifiers.PercentNumeric: covers plain fixed-point results only, for the
  same reasons as `round`.
- Text.ParseInt: Python `int()` also accepts underscores between digits and
  non-ASCII decimal digits. The model accepts an optional sign and ASCII
  digits, with surrounding whitespace.
- `Ref` (render-table.py:48-50) and the `border_bottom` field of
  `RowBorderWrapper` (render-table.py:377) are unused and not modelled.
- scripts/include-content.py and scripts/cache-exec.py are not part of this
  model. They are directory listing, hashing, a file cache and subprocess
  plumbing.
