/** The configuration idiom `parseInt(process.env.X) || fallback` used for the
    worker ceiling, the default time-to-live and the largest accepted input.
    `parseInt` itself is not modelled: its outcome arrives as `None` (NaN) or
    `Some(v)`. */
module Env {
  import opened Wrappers

  /** `parsed || fallback`: both NaN and 0 are falsy in JavaScript, so either
      one selects the fallback; any other number is kept, negatives included. */
  function IntOr(parsed: Option<int>, fallback: int): (r: int)
    ensures fallback != 0 ==> r != 0
    ensures r == fallback || parsed == Some(r)
    ensures parsed.Some? && parsed.value != 0 ==> r == parsed.value
  {
    match parsed
    case Some(v) => if v != 0 then v else fallback
    case None => fallback
  }
}
