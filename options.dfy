/** Optional values, with the failure-compatible members that make `:-` work on them, and results. */
module Options {

  /** A value that may be absent: a regular-expression search that found nothing, a failed parse. */
  datatype Option<+T> = None | Some(value: T) {
    predicate IsFailure() { None? }

    function PropagateFailure<U>(): Option<U>
      requires None?
    {
      None
    }

    function Extract(): T
      requires Some?
    {
      value
    }
  }

  /** The result of a computation that may raise: either its value or the error it raised. */
  datatype Result<+T, +E> = Ok(value: T) | Err(error: E)
}
