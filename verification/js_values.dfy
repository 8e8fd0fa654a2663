/** The two shapes of JavaScript value the app keeps testing for: a field that
    may hold nothing, and a promise that has settled. */
module JsValues {

  /** A field that may hold nothing: `null`, `undefined`, or absent from the row. */
  datatype Option<T> = None | Some(value: T)

  /** `x || fallback` where the only falsy value `x` can take besides nothing
      is `fallback` itself (`''` for a string, `0` for a rating), and where `x`
      is never falsy otherwise (an array). */
  function OrElse<T>(x: Option<T>, fallback: T): (r: T)
    ensures x.None? ==> r == fallback
    ensures x.Some? ==> r == x.value
  {
    if x.Some? then x.value else fallback
  }

  /** An awaited call that has settled: it returned a value, or it threw an
      error carrying a message. */
  datatype Settled<T> = Returned(value: T) | Threw(message: string)
}
