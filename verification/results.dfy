/** Failure-carrying values: Go's `(T, error)` and bare `error` returns. */
module Results {

  datatype Option<+T> = None | Some(value: T)

  /** A Go `(value, error)` pair where exactly one side is meaningful. */
  datatype Result<+T, +E> = Ok(value: T) | Err(error: E)

  /** A Go function that returns only an `error`: nil is `Pass`. */
  datatype Outcome<+E> = Pass | Fail(error: E)
}
