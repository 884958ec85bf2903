/** Membership of an integer in an open interval or a closed segment
  * (Markdown/IntExtensions.cs). Both operations throw ArgumentException
  * when the bounds are reversed; here that is a Failure. */
module IntExtensions {
  import opened Wrappers

  datatype ArgumentError = ArgumentException

  /** `number` lies strictly between `a` and `b`. */
  function BelongsToInterval(number: int, a: int, b: int): (r: Result<bool, ArgumentError>)
    ensures r.Failure? <==> a > b
    ensures r.Success? ==> (r.value <==> a < number < b)
  {
    if a > b then Failure(ArgumentException)
    else Success(number > a && number < b)
  }

  /** `number` lies in the closed segment from `a` to `b`: inside the
    * interval or on one of its two ends. */
  function BelongsToSegment(number: int, a: int, b: int): (r: Result<bool, ArgumentError>)
    ensures r.Failure? <==> a > b
    ensures r.Success? ==> (r.value <==> a <= number <= b)
  {
    if a > b then Failure(ArgumentException)
    else Success(BelongsToInterval(number, a, b).value || number == a || number == b)
  }

  /** Every point of the interval is a point of the segment; the two ends
    * are in the segment and never in the interval. */
  lemma IntervalWithinSegment(number: int, a: int, b: int)
    requires a <= b
    ensures BelongsToInterval(number, a, b).value ==> BelongsToSegment(number, a, b).value
    ensures BelongsToSegment(a, a, b).value && BelongsToSegment(b, a, b).value
    ensures !BelongsToInterval(a, a, b).value && !BelongsToInterval(b, a, b).value
    ensures BelongsToSegment(number, a, b).value <==>
            BelongsToInterval(number, a, b).value || number == a || number == b
  {
  }

  /** A degenerate segment: the interval is empty and the segment holds `a` alone. */
  lemma DegenerateSegment(number: int, a: int)
    ensures !BelongsToInterval(number, a, a).value
    ensures BelongsToSegment(number, a, a).value <==> number == a
  {
  }
}
