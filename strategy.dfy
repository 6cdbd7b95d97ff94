/** How the field index picks a sort algorithm: the tuned decision tables of
    `sort_forward` and `sort_reverse`, the dispatch on the sort-type name, and the
    errors raised along the way. */
module Strategy {
  import opened Wrappers

  /** The sort-type names callers may force. */
  const FWSCAN := "fwscan"
  const NBEST := "nbest"
  const TIMSORT := "timsort"

  /** The three algorithms: forward scan, n-best selection, full (tim)sort. */
  datatype Algorithm = FwScan | NBest | TimSort

  /** The exceptions raised by the sort engine. */
  datatype Failure =
    | LimitTooSmall                              // ValueError('limit must be 1 or greater')
    | UnknownSortType(sortType: Option<string>)  // ValueError('Unknown sort type %s')
    | NBestWithoutLimit                          // RuntimeError('n-best used without limit') from nbest_ascending,
                                                 // RuntimeError('N-Best used without limit') from nbest_descending
    | LimitNotANumber                            // TypeError from float(None)
    | ZeroDivision                               // ZeroDivisionError in a ratio
    | NegativeSliceStop                          // ValueError from islice() with a negative stop

  function Name(a: Algorithm): string {
    match a
    case FwScan => FWSCAN
    case NBest => NBEST
    case TimSort => TIMSORT
  }

  /** `a / float(b)`, exactly. */
  function Ratio(a: int, b: int): real
    requires b != 0
  {
    a as real / b as real
  }

  /** The docratio bands of the ascending table that can select a forward scan.
      The first band written in the source, `.0313 >= docratio > .051625`, is
      empty and is not listed: ForwardChoice's contract shows it never fires. */
  predicate LiveBand(docratio: real, limitratio: real) {
    || (0.0313 < docratio <= 0.0625 && limitratio < 0.001)
    || (0.0625 < docratio <= 0.125 && limitratio < 0.008)
    || (0.125 < docratio <= 0.25 && limitratio < 0.0625)
  }

  /** The ascending decision table of `sort_forward`, run when no sort type is
      forced. Both ratios are computed before any test, so a missing limit fails
      with a TypeError, and a candidate set in the middle docratio band that meets
      no limitratio threshold leaves the sort type unset (`None`). */
  function ForwardChoice(rlen: nat, numdocs: int, limit: Option<int>): (r: Result<Option<string>, Failure>)
    ensures numdocs == 0 ==> r == Err(ZeroDivision)
    ensures numdocs != 0 && limit.None? ==> r == Err(LimitNotANumber)
    ensures numdocs != 0 && limit == Some(0) ==> r == Err(ZeroDivision)
    ensures numdocs != 0 && limit.Some? && limit.value != 0 && limit.value < 300 ==> r == Ok(Some(NBEST))
    ensures numdocs != 0 && limit.Some? && limit.value >= 300 ==>
      r == Ok(if Ratio(rlen, numdocs) > 0.25 then Some(FWSCAN)
              else if Ratio(rlen, numdocs) <= 0.015625 then Some(TIMSORT)
              else if LiveBand(Ratio(rlen, numdocs), Ratio(rlen, limit.value)) then Some(FWSCAN)
              else None)
  {
    if numdocs == 0 then Err(ZeroDivision)
    else if limit.None? then Err(LimitNotANumber)
    else if limit.value == 0 then Err(ZeroDivision)
    else
      var docratio := Ratio(rlen, numdocs);
      var limitratio := Ratio(rlen, limit.value);
      if limit.value < 300 then Ok(Some(NBEST))
      // `not limit` cannot hold here: a zero limit already failed above
      else if docratio > 0.25 then Ok(Some(FWSCAN))
      else if docratio > 0.015625 then
        if 0.0313 >= docratio > 0.051625 && limitratio < 0.0025 then Ok(Some(FWSCAN))
        else if 0.0625 >= docratio > 0.0313 && limitratio < 0.001 then Ok(Some(FWSCAN))
        else if 0.125 >= docratio > 0.0625 && limitratio < 0.008 then Ok(Some(FWSCAN))
        else if 0.25 >= docratio > 0.125 && limitratio < 0.0625 then Ok(Some(FWSCAN))
        else Ok(None)
      else Ok(Some(TIMSORT))
  }

  /** The descending decision table of `sort_reverse`, run when no sort type is
      forced. It never picks a forward scan, and it only divides by the candidate
      count when the limit is at least 300. */
  function ReverseChoice(rlen: nat, limit: Option<int>): (r: Result<string, Failure>)
    ensures limit.None? || limit == Some(0) ==> r == Ok(TIMSORT)
    ensures limit.Some? && limit.value != 0 && limit.value < 300 ==> r == Ok(NBEST)
    ensures limit.Some? && limit.value >= 300 && rlen == 0 ==> r == Err(ZeroDivision)
    ensures limit.Some? && limit.value >= 300 && rlen > 0 ==>
      r == Ok(if limit.value as real > 0.09 * rlen as real then NBEST else TIMSORT)
  {
    if limit.None? || limit.value == 0 then Ok(TIMSORT)
    else if limit.value < 300 then Ok(NBEST)
    else if rlen == 0 then Err(ZeroDivision)
    else if Ratio(limit.value, rlen) > 0.09 then Ok(NBEST)
    else Ok(TIMSORT)
  }

  /** The `if sort_type == ...` chain at the end of `sort_forward` (all three
      names) and of `sort_reverse` (no forward scan). */
  function Dispatch(sortType: Option<string>, reverse: bool): (r: Result<Algorithm, Failure>)
    ensures r.Ok? ==> sortType == Some(Name(r.value)) && !(reverse && r.value == FwScan)
    ensures r.Err? ==> r.error == UnknownSortType(sortType)
  {
    if sortType == Some(FWSCAN) && !reverse then Ok(FwScan)
    else if sortType == Some(NBEST) then Ok(NBest)
    else if sortType == Some(TIMSORT) then Ok(TimSort)
    else Err(UnknownSortType(sortType))
  }

  /** Dispatch undoes Name: every algorithm is reached by its own name, except a
      forward scan in descending order. */
  lemma DispatchByName(a: Algorithm, reverse: bool)
    ensures Dispatch(Some(Name(a)), reverse) == if reverse && a == FwScan then Err(UnknownSortType(Some(FWSCAN))) else Ok(a)
  {
  }

  /** The algorithm `sort_forward` or `sort_reverse` runs, or the error it raises
      before running one. */
  function Plan(reverse: bool, rlen: nat, numdocs: int, limit: Option<int>, sortType: Option<string>): (r: Result<Algorithm, Failure>)
    ensures sortType.Some? ==> r == Dispatch(sortType, reverse)
    ensures reverse && r.Ok? ==> r.value != FwScan
    ensures sortType.None? && r == Ok(NBest) ==> limit.Some?
    ensures sortType.None? && reverse && rlen > 0 ==> r.Ok?
    ensures sortType.None? && !reverse && numdocs != 0 && limit.None? ==> r == Err(LimitNotANumber)
  {
    if sortType.Some? then Dispatch(sortType, reverse)
    else if reverse then
      match ReverseChoice(rlen, limit)
      case Err(e) => Err(e)
      case Ok(name) => Dispatch(Some(name), true)
    else
      match ForwardChoice(rlen, numdocs, limit)
      case Err(e) => Err(e)
      case Ok(name) => Dispatch(name, false)
  }
}
