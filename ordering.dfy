/** The wrapper list of render-table.py's main: the two row wrappers it always
    installs, the parsed row and column modifiers after them, and the stable
    sort by descending priority. */
module Ordering {
  import opened Wrappers
  import opened Spans
  import opened Modifiers

  // ---------------------------------------------------------------- the sort

  predicate SortedByPriority(ws: seq<Modifier>)
  {
    forall i, j :: 0 <= i < j < |ws| ==> Priority(ws[i]) >= Priority(ws[j])
  }

  /** The members of ws with priority p, in their order in ws. */
  function WithPriority(ws: seq<Modifier>, p: nat): (r: seq<Modifier>)
    ensures |r| <= |ws|
    ensures forall k :: 0 <= k < |r| ==> Priority(r[k]) == p
  {
    if ws == [] then []
    else (if Priority(ws[0]) == p then [ws[0]] else []) + WithPriority(ws[1..], p)
  }

  lemma {:induction false} WithPriorityConcat(a: seq<Modifier>, b: seq<Modifier>, p: nat)
    ensures WithPriority(a + b, p) == WithPriority(a, p) + WithPriority(b, p)
    decreases |a|
  {
    if a == [] {
      assert a + b == b;
    } else {
      assert (a + b)[0] == a[0] && (a + b)[1..] == a[1..] + b;
      WithPriorityConcat(a[1..], b, p);
    }
  }

  /** No member of priority p, nothing selected. */
  lemma {:induction false} WithPriorityNone(ws: seq<Modifier>, p: nat)
    requires forall k :: 0 <= k < |ws| ==> Priority(ws[k]) != p
    ensures WithPriority(ws, p) == []
    decreases |ws|
  {
    if ws != [] {
      WithPriorityNone(ws[1..], p);
    }
  }

  /** Two members of the same priority are both selected. */
  lemma {:induction false} WithPriorityTwo(ws: seq<Modifier>, p: nat, i: nat, j: nat)
    requires i < j < |ws| && Priority(ws[i]) == p && Priority(ws[j]) == p
    ensures |WithPriority(ws, p)| >= 2
    decreases |ws|
  {
    if i > 0 {
      WithPriorityTwo(ws[1..], p, i - 1, j - 1);
    } else {
      WithPriorityOne(ws[1..], p, j - 1);
    }
  }

  lemma {:induction false} WithPriorityOne(ws: seq<Modifier>, p: nat, j: nat)
    requires j < |ws| && Priority(ws[j]) == p
    ensures |WithPriority(ws, p)| >= 1
    decreases |ws|
  {
    if j > 0 {
      WithPriorityOne(ws[1..], p, j - 1);
    }
  }

  /** Puts w after every member whose priority is at least its own. */
  function Insert(r: seq<Modifier>, w: Modifier): (out: seq<Modifier>)
    ensures |out| == |r| + 1
  {
    if r == [] then [w]
    else if Priority(r[0]) >= Priority(w) then [r[0]] + Insert(r[1..], w)
    else [w] + r
  }

  /** list.sort(key=priority, reverse=True), which is stable, as the insertion
      of each member in turn. */
  function SortSpec(ws: seq<Modifier>): (r: seq<Modifier>)
    ensures |r| == |ws|
  {
    if ws == [] then [] else Insert(SortSpec(ws[..|ws| - 1]), ws[|ws| - 1])
  }

  lemma {:induction false} InsertPermutes(r: seq<Modifier>, w: Modifier)
    ensures multiset(Insert(r, w)) == multiset(r) + multiset{w}
    decreases |r|
  {
    if r != [] && Priority(r[0]) >= Priority(w) {
      InsertPermutes(r[1..], w);
      assert r == [r[0]] + r[1..];
    }
  }

  lemma {:induction false} InsertSorted(r: seq<Modifier>, w: Modifier)
    requires SortedByPriority(r)
    ensures SortedByPriority(Insert(r, w))
    decreases |r|
  {
    if r == [] {
      assert Insert(r, w) == [w];
    } else if Priority(r[0]) >= Priority(w) {
      var tail := r[1..];
      SortedTail(r);
      InsertSorted(tail, w);
      forall k | 0 <= k < |tail| ensures Priority(tail[k]) <= Priority(r[0]) {
        assert tail[k] == r[k + 1];
      }
      InsertBelow(tail, w, Priority(r[0]));
      ConsSorted(r[0], Insert(tail, w));
      assert Insert(r, w) == [r[0]] + Insert(tail, w);
    } else {
      forall k | 0 <= k < |r| ensures Priority(r[k]) <= Priority(w) {
        if k > 0 {
          assert Priority(r[0]) >= Priority(r[k]);
        }
      }
      ConsSorted(w, r);
      assert Insert(r, w) == [w] + r;
    }
  }

  /** Insertion keeps every member at or below a bound both sides respect. */
  lemma {:induction false} InsertBelow(r: seq<Modifier>, w: Modifier, b: nat)
    requires forall k :: 0 <= k < |r| ==> Priority(r[k]) <= b
    requires Priority(w) <= b
    ensures forall k :: 0 <= k < |Insert(r, w)| ==> Priority(Insert(r, w)[k]) <= b
    decreases |r|
  {
    if r != [] && Priority(r[0]) >= Priority(w) {
      var tail := r[1..];
      forall k | 0 <= k < |tail| ensures Priority(tail[k]) <= b {
        assert tail[k] == r[k + 1];
      }
      InsertBelow(tail, w, b);
      assert Insert(r, w) == [r[0]] + Insert(tail, w);
    }
  }

  /** A member at or above everything in a sorted list can go in front. */
  lemma ConsSorted(x: Modifier, rest: seq<Modifier>)
    requires SortedByPriority(rest)
    requires forall k :: 0 <= k < |rest| ==> Priority(rest[k]) <= Priority(x)
    ensures SortedByPriority([x] + rest)
  {
    var out := [x] + rest;
    forall i, j | 0 <= i < j < |out| ensures Priority(out[i]) >= Priority(out[j]) {
      assert out[j] == rest[j - 1];
      if i > 0 {
        assert out[i] == rest[i - 1];
      }
    }
  }

  lemma SortedTail(r: seq<Modifier>)
    requires r != [] && SortedByPriority(r)
    ensures SortedByPriority(r[1..])
  {
    var tail := r[1..];
    forall i, j | 0 <= i < j < |tail| ensures Priority(tail[i]) >= Priority(tail[j]) {
      assert tail[i] == r[i + 1] && tail[j] == r[j + 1];
    }
  }

  /** w goes in front of a list whose members all have lower priority. */
  lemma InsertFront(r: seq<Modifier>, w: Modifier, p: nat)
    requires r != [] && SortedByPriority(r) && Priority(r[0]) < Priority(w)
    ensures WithPriority(Insert(r, w), p) == WithPriority(r, p) + WithPriority([w], p)
  {
    assert Insert(r, w) == [w] + r;
    WithPriorityConcat([w], r, p);
    if Priority(w) == p {
      forall k | 0 <= k < |r| ensures Priority(r[k]) != p {
        if k > 0 {
          assert Priority(r[0]) >= Priority(r[k]);
        }
      }
      WithPriorityNone(r, p);
    } else {
      assert WithPriority([w], p) == [];
    }
  }

  /** Inserting w adds it at the end of its own priority class and leaves every
      other class as it was. */
  lemma {:induction false} InsertWithPriority(r: seq<Modifier>, w: Modifier, p: nat)
    requires SortedByPriority(r)
    ensures WithPriority(Insert(r, w), p) == WithPriority(r, p) + WithPriority([w], p)
    decreases |r|
  {
    if r == [] {
    } else if Priority(r[0]) >= Priority(w) {
      var tail := r[1..];
      SortedTail(r);
      assert r == [r[0]] + tail;
      calc {
        WithPriority(Insert(r, w), p);
        WithPriority([r[0]] + Insert(tail, w), p);
        { WithPriorityConcat([r[0]], Insert(tail, w), p); }
        WithPriority([r[0]], p) + WithPriority(Insert(tail, w), p);
        { InsertWithPriority(tail, w, p); }
        WithPriority([r[0]], p) + (WithPriority(tail, p) + WithPriority([w], p));
        (WithPriority([r[0]], p) + WithPriority(tail, p)) + WithPriority([w], p);
        { WithPriorityConcat([r[0]], tail, p); }
        WithPriority(r, p) + WithPriority([w], p);
      }
    } else {
      InsertFront(r, w, p);
    }
  }

  /** The sort orders by descending priority, keeps every member, and keeps the
      insertion order within each priority. */
  lemma {:induction false} SortSpecStable(ws: seq<Modifier>)
    ensures SortedByPriority(SortSpec(ws))
    ensures multiset(SortSpec(ws)) == multiset(ws)
    ensures forall p: nat :: WithPriority(SortSpec(ws), p) == WithPriority(ws, p)
    decreases |ws|
  {
    if ws != [] {
      var init, last := ws[..|ws| - 1], ws[|ws| - 1];
      assert ws == init + [last];
      SortSpecStable(init);
      InsertSorted(SortSpec(init), last);
      InsertPermutes(SortSpec(init), last);
      forall p: nat
        ensures WithPriority(SortSpec(ws), p) == WithPriority(ws, p)
      {
        InsertWithPriority(SortSpec(init), last, p);
        WithPriorityConcat(init, [last], p);
      }
    }
  }

  /** wrappers.sort(key=lambda w: w.priority, reverse=True). */
  method SortByPriority(ws: seq<Modifier>) returns (r: seq<Modifier>)
    ensures r == SortSpec(ws)
    ensures SortedByPriority(r) && multiset(r) == multiset(ws)
    ensures forall p: nat :: WithPriority(r, p) == WithPriority(ws, p)
  {
    r := [];
    var i := 0;
    while i < |ws|
      invariant 0 <= i <= |ws|
      invariant r == SortSpec(ws[..i])
    {
      assert ws[..i + 1][..i] == ws[..i];
      r := Insert(r, ws[i]);
      i := i + 1;
    }
    assert ws[..|ws|] == ws;
    SortSpecStable(ws);
  }

  // ---------------------------------------------------------------- the list of main

  /** The spans of the border wrapper: --border-top parsed, or rows 1 onwards
      when the option is absent or empty. */
  function BorderSpans(borderTop: Option<string>): Result<seq<Span>>
  {
    if borderTop.None? || borderTop.value == "" then Ok([Span(Some(1), None)])
    else ParseSpans(borderTop.value)
  }

  /** The RowBorderWrapper and the RowWrapper main always installs. */
  function InitialWrappers(borderTop: Option<string>, borderMid: bool, borderMidCmd: string): (r: Result<seq<Modifier>>)
    ensures r.Ok? ==> |r.value| == 2 && r.value[0].RowBorderWrapper? && r.value[1] == RowWrapper(Domain(RowAxis, AllSpans()))
  {
    match BorderSpans(borderTop)
    case Err(e) => Err(e)
    case Ok(spans) =>
      Ok([RowBorderWrapper(Domain(RowAxis, spans), borderMid, borderMidCmd),
          RowWrapper(Domain(RowAxis, AllSpans()))])
  }

  /** parse_modifier applied to each spec. */
  function ParseEach(ms: seq<string>, axis: Axis): (r: seq<Result<Modifier>>)
    ensures |r| == |ms| && forall k :: 0 <= k < |ms| ==> r[k] == ParseModifier(ms[k], axis)
  {
    seq(|ms|, k requires 0 <= k < |ms| => ParseModifier(ms[k], axis))
  }

  /** parse_modifier over the given specs in order; the first failure aborts. */
  function ParseAll(ms: seq<string>, axis: Axis): Result<seq<Modifier>>
  {
    Sequence(ParseEach(ms, axis))
  }

  /** The list main builds at 499-514 and sorts at 516. */
  function WrapperList(borderTop: Option<string>, borderMid: bool, borderMidCmd: string,
                       rowModifiers: seq<string>, colModifiers: seq<string>): Result<seq<Modifier>>
  {
    match InitialWrappers(borderTop, borderMid, borderMidCmd)
    case Err(e) => Err(e)
    case Ok(init) =>
      match ParseAll(rowModifiers, RowAxis)
      case Err(e) => Err(e)
      case Ok(rws) =>
        match ParseAll(colModifiers, ColAxis)
        case Err(e) => Err(e)
        case Ok(cws) => Ok(SortSpec(init + rws + cws))
  }

  /** One of main's append loops, for a given parser: each spec parsed and
      appended in order; the first spec that fails aborts. */
  method AppendEach(wrappers: seq<Modifier>, ms: seq<string>, parse: string -> Result<Modifier>)
    returns (r: Result<seq<Modifier>>)
    ensures r == match Sequence(seq(|ms|, k requires 0 <= k < |ms| => parse(ms[k])))
                 case Err(e) => Err(e)
                 case Ok(parsed) => Ok(wrappers + parsed)
  {
    ghost var results := seq(|ms|, k requires 0 <= k < |ms| => parse(ms[k]));
    var acc := wrappers;
    var i := 0;
    while i < |ms|
      invariant 0 <= i <= |ms|
      invariant Sequence(results[..i]).Ok?
      invariant acc == wrappers + Sequence(results[..i]).value
    {
      var m := parse(ms[i]);
      SequenceStep(results, i);
      if m.Err? {
        SequenceStopsAtError(results, i + 1);
        return Err(m.error);
      }
      acc := acc + [m.value];
      i := i + 1;
    }
    assert results[..i] == results;
    return Ok(acc);
  }

  /** The loops of main over --row-modifier and --col-modifier:
      parse_modifier on each spec, appended in order. */
  method AppendParsed(wrappers: seq<Modifier>, ms: seq<string>, axis: Axis) returns (r: Result<seq<Modifier>>)
    ensures r == match ParseAll(ms, axis)
                 case Err(e) => Err(e)
                 case Ok(parsed) => Ok(wrappers + parsed)
  {
    var parse := m => ParseModifier(m, axis);
    r := AppendEach(wrappers, ms, parse);
    assert seq(|ms|, k requires 0 <= k < |ms| => parse(ms[k])) == ParseEach(ms, axis);
  }

  /** main's construction: the two fixed wrappers, each row modifier, each
      column modifier, then the sort. */
  method BuildWrappers(borderTop: Option<string>, borderMid: bool, borderMidCmd: string,
                       rowModifiers: seq<string>, colModifiers: seq<string>) returns (r: Result<seq<Modifier>>)
    ensures r == WrapperList(borderTop, borderMid, borderMidCmd, rowModifiers, colModifiers)
  {
    var init := InitialWrappers(borderTop, borderMid, borderMidCmd);
    if init.Err? {
      return Err(init.error);
    }
    var withRows := AppendParsed(init.value, rowModifiers, RowAxis);
    if withRows.Err? {
      return Err(withRows.error);
    }
    var withCols := AppendParsed(withRows.value, colModifiers, ColAxis);
    if withCols.Err? {
      return Err(withCols.error);
    }
    var sorted := SortByPriority(withCols.value);
    return Ok(sorted);
  }

  // ---------------------------------------------------------------- properties of the list

  /** parse_modifier never builds one of the two row classes. */
  lemma ParsedAreCellModifiers(ms: seq<string>, axis: Axis)
    requires ParseAll(ms, axis).Ok?
    ensures forall k :: 0 <= k < |ms| ==>
      !ParseAll(ms, axis).value[k].RowBorderWrapper? && !ParseAll(ms, axis).value[k].RowWrapper?
  {
    var rs := ParseEach(ms, axis);
    forall k | 0 <= k < |ms|
      ensures !ParseAll(ms, axis).value[k].RowBorderWrapper? && !ParseAll(ms, axis).value[k].RowWrapper?
    {
      assert rs[k] == ParseModifier(ms[k], axis);
    }
  }

  /** The built list is sorted by descending priority and holds the two fixed
      wrappers, every row modifier and every column modifier, each once; equal
      priorities keep the order in which main appended them. */
  lemma WrapperListOrdered(borderTop: Option<string>, borderMid: bool, borderMidCmd: string,
                           rowModifiers: seq<string>, colModifiers: seq<string>)
    requires WrapperList(borderTop, borderMid, borderMidCmd, rowModifiers, colModifiers).Ok?
    ensures var ws := WrapperList(borderTop, borderMid, borderMidCmd, rowModifiers, colModifiers).value;
      var all := InitialWrappers(borderTop, borderMid, borderMidCmd).value
                 + ParseAll(rowModifiers, RowAxis).value + ParseAll(colModifiers, ColAxis).value;
      && |ws| == 2 + |rowModifiers| + |colModifiers|
      && SortedByPriority(ws)
      && multiset(ws) == multiset(all)
      && (forall p: nat :: WithPriority(ws, p) == WithPriority(all, p))
  {
    var all := InitialWrappers(borderTop, borderMid, borderMidCmd).value
               + ParseAll(rowModifiers, RowAxis).value + ParseAll(colModifiers, ColAxis).value;
    SortSpecStable(all);
  }

  /** The border wrapper, the only member of priority 0, ends the sorted list,
      so its rule is the outermost addition to a row. */
  lemma BorderWrapperLast(borderTop: Option<string>, borderMid: bool, borderMidCmd: string,
                          rowModifiers: seq<string>, colModifiers: seq<string>)
    requires WrapperList(borderTop, borderMid, borderMidCmd, rowModifiers, colModifiers).Ok?
    ensures var ws := WrapperList(borderTop, borderMid, borderMidCmd, rowModifiers, colModifiers).value;
      |ws| >= 2 && ws[|ws| - 1] == InitialWrappers(borderTop, borderMid, borderMidCmd).value[0]
  {
    var init := InitialWrappers(borderTop, borderMid, borderMidCmd).value;
    var rws := ParseAll(rowModifiers, RowAxis).value;
    var cws := ParseAll(colModifiers, ColAxis).value;
    ParsedAreCellModifiers(rowModifiers, RowAxis);
    ParsedAreCellModifiers(colModifiers, ColAxis);
    SortedBorderLast(init, rws, cws);
  }

  lemma SortedBorderLast(init: seq<Modifier>, rws: seq<Modifier>, cws: seq<Modifier>)
    requires |init| == 2 && init[0].RowBorderWrapper? && init[1].RowWrapper?
    requires forall k :: 0 <= k < |rws| ==> !rws[k].RowBorderWrapper? && !rws[k].RowWrapper?
    requires forall k :: 0 <= k < |cws| ==> !cws[k].RowBorderWrapper? && !cws[k].RowWrapper?
    ensures var ws := SortSpec(init + rws + cws); |ws| >= 2 && ws[|ws| - 1] == init[0]
  {
    var parsed := rws + cws;
    assert forall k :: 0 <= k < |parsed| ==> !parsed[k].RowBorderWrapper? && !parsed[k].RowWrapper? by {
      forall k | 0 <= k < |parsed| ensures !parsed[k].RowBorderWrapper? && !parsed[k].RowWrapper? {
        if k < |rws| { assert parsed[k] == rws[k]; } else { assert parsed[k] == cws[k - |rws|]; }
      }
    }
    OnlyBorderAtZero(init, parsed);
    assert init + rws + cws == init + parsed;
    SortedSoleMinimumLast(init + parsed, init[0]);
  }

  /** Sorting a list whose only member of priority 0 is x puts x last. */
  lemma SortedSoleMinimumLast(all: seq<Modifier>, x: Modifier)
    requires WithPriority(all, 0) == [x]
    ensures |SortSpec(all)| >= 1 && SortSpec(all)[|SortSpec(all)| - 1] == x
  {
    SortSpecStable(all);
    SoleMinimumLast(SortSpec(all), x);
  }

  /** Behind the RowBorderWrapper only members of priority at least 1 follow. */
  lemma OnlyBorderAtZero(init: seq<Modifier>, parsed: seq<Modifier>)
    requires |init| == 2 && init[0].RowBorderWrapper? && init[1].RowWrapper?
    requires forall k :: 0 <= k < |parsed| ==> !parsed[k].RowBorderWrapper? && !parsed[k].RowWrapper?
    ensures WithPriority(init + parsed, 0) == [init[0]]
  {
    var tail := [init[1]] + parsed;
    forall k | 0 <= k < |tail| ensures Priority(tail[k]) != 0 {
      if k > 0 {
        assert tail[k] == parsed[k - 1];
      }
    }
    WithPriorityNone(tail, 0);
    SplitFirst(init, parsed);
    WithPriorityConcat([init[0]], tail, 0);
    assert WithPriority([init[0]], 0) == [init[0]];
  }

  lemma SplitFirst<T>(init: seq<T>, parsed: seq<T>)
    requires |init| == 2
    ensures init + parsed == [init[0]] + ([init[1]] + parsed)
  {
    assert init == [init[0]] + [init[1]];
  }

  /** In a sorted list the only member of priority 0 comes last. */
  lemma SoleMinimumLast(ws: seq<Modifier>, x: Modifier)
    requires SortedByPriority(ws) && WithPriority(ws, 0) == [x]
    ensures |ws| >= 1 && ws[|ws| - 1] == x
  {
    assert x in WithPriority(ws, 0);
    MemberWithPriority(ws, 0, x);
    var b :| 0 <= b < |ws| && ws[b] == x;
    var n := |ws| - 1;
    if b < n {
      SortedPair(ws, b, n);
      WithPriorityTwo(ws, 0, b, n);
      assert false;
    }
    assert b == n;
  }

  lemma SortedPair(ws: seq<Modifier>, i: nat, j: nat)
    requires SortedByPriority(ws) && i < j < |ws|
    ensures Priority(ws[i]) >= Priority(ws[j])
  {
  }

  lemma {:induction false} MemberWithPriority(ws: seq<Modifier>, p: nat, x: Modifier)
    requires x in WithPriority(ws, p)
    ensures Priority(x) == p && exists b :: 0 <= b < |ws| && ws[b] == x
    decreases |ws|
  {
    var head := if Priority(ws[0]) == p then [ws[0]] else [];
    if x in head {
      assert ws[0] == x;
    } else {
      MemberWithPriority(ws[1..], p, x);
      var b :| 0 <= b < |ws[1..]| && ws[1..][b] == x;
      assert ws[b + 1] == x;
    }
  }
}
