/** Optional values, results and the error conditions of the table tools.
    Every Python exception the modelled code can raise becomes an `Err`. */
module Wrappers {

  datatype Option<+T> = None | Some(value: T)

  /** Why a run aborts.  Each constructor names the Python failure it stands for. */
  datatype Error =
    | EmptySpan                        // `assert s` in Span.parse
    | InvalidInteger(text: string)     // ValueError from int()
    | InvalidModifierSpec(spec: string) // ValueError in parse_modifier
    | UnknownModifier(key: string)     // KeyError on the MODIFIERS registry
    | UnexpectedArgument(key: string)  // `assert args is None` in bold/italic/dot
    | MissingArgument(key: string)     // a None argument where a string is needed
    | InvalidDecimal(text: string)     // decimal.InvalidOperation
    | MissingRecords                   // StopIteration while skipping leading records
    | MissingHeader                    // no header record left (fieldnames is None)
    | InvalidFilterSpec(spec: string)  // a filter that does not unpack into key, value
    | MissingField(key: string)        // KeyError on a row
    | YearOutOfRange                   // datetime.date beyond year 9999
    | ZeroFrequency                    // modulo by a zero frequency
    | UnknownFrequency(name: string)   // a frequency name that is not mapped
    | InvalidDateTicks(spec: string)   // a date-ticks spec that does not unpack
    | BoundsWithoutTicks               // `assert date_ticks`
    | NoDates                          // next_month(None)
    | UnreadableDate(field: string)    // date.fromisoformat refusing a row's field
    | UnreadableBound(text: string)    // date.fromisoformat refusing --from-date or --until-date

  datatype Result<+T> = Ok(value: T) | Err(error: Error)

  /** Runs the steps in order and stops at the first error, as a Python loop
      stops at the first exception. */
  function Sequence<T>(rs: seq<Result<T>>): (r: Result<seq<T>>)
    ensures r.Ok? ==> |r.value| == |rs| && forall k :: 0 <= k < |rs| ==> rs[k] == Ok(r.value[k])
    ensures r.Err? ==> exists k :: 0 <= k < |rs| && rs[k] == Err(r.error) && forall j :: 0 <= j < k ==> rs[j].Ok?
  {
    if rs == [] then Ok([])
    else
      var init := rs[..|rs| - 1];
      match Sequence(init)
      case Err(e) =>
        var k :| 0 <= k < |init| && init[k] == Err(e) && forall j :: 0 <= j < k ==> init[j].Ok?;
        assert rs[k] == init[k] && forall j :: 0 <= j < k ==> rs[j] == init[j];
        Err(e)
      case Ok(vs) =>
        match rs[|rs| - 1]
        case Err(e) =>
          assert forall j :: 0 <= j < |init| ==> rs[j] == init[j];
          Err(e)
        case Ok(v) =>
          assert forall j :: 0 <= j < |init| ==> rs[j] == init[j];
          Ok(vs + [v])
  }

  /** Once a prefix has failed, the rest is never run. */
  lemma {:induction false} SequenceStopsAtError<T>(rs: seq<Result<T>>, n: nat)
    requires n <= |rs| && Sequence(rs[..n]).Err?
    ensures Sequence(rs) == Sequence(rs[..n])
    decreases |rs| - n
  {
    if n < |rs| {
      assert rs[..n + 1][..n] == rs[..n];
      SequenceStopsAtError(rs, n + 1);
    } else {
      assert rs[..n] == rs;
    }
  }

  /** One more successful step appends its value. */
  lemma SequenceStep<T>(rs: seq<Result<T>>, n: nat)
    requires n < |rs| && Sequence(rs[..n]).Ok?
    ensures rs[n].Ok? ==> Sequence(rs[..n + 1]) == Ok(Sequence(rs[..n]).value + [rs[n].value])
    ensures rs[n].Err? ==> Sequence(rs[..n + 1]) == Err(rs[n].error)
  {
    assert rs[..n + 1][..n] == rs[..n];
  }
}
