/** Values that stand for Python's `None` and for a call that may raise. */
module Outcomes {

  /** A value that may be absent (Python's `None`). */
  datatype Option<+T> = None | Some(value: T)

  /** The outcome of a call that may raise: its value, or the text `str(e)`
      of the exception it raised. */
  datatype Outcome<+T> = Ok(value: T) | Raised(detail: string)

  /** Feeds a successful value to the next call; an exception propagates. */
  function Then<T, U>(o: Outcome<T>, f: T -> Outcome<U>): (r: Outcome<U>)
    ensures o.Raised? ==> r == Raised(o.detail)
    ensures o.Ok? ==> r == f(o.value)
  {
    match o
    case Raised(d) => Raised(d)
    case Ok(v) => f(v)
  }
}
