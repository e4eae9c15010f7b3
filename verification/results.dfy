/** Optional values and results, standing in for Python's `None` and for the
    exceptions the email classes raise. */
module Results {

  /** A value that may be absent: `None` is Python's `None`. */
  datatype Option<+T> = None | Some(value: T)

  /** `x if x is not None else fallback`. */
  function ValueOr<T>(x: Option<T>, fallback: T): T {
    if x.Some? then x.value else fallback
  }

  /** `Ok` is a normal return, `Err` a raised exception carrying its reason. */
  datatype Result<+T, +E> = Ok(value: T) | Err(error: E)
}
