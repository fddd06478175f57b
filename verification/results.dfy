/** Failure-carrying result types shared by every tool model. */
module Results {

  /** A value that may be absent: a JavaScript `null`/`undefined`/`NaN` or an empty form field. */
  datatype Option<+T> = None | Some(value: T)

  /** The outcome of an operation that reports an error instead of a value. */
  datatype Result<+T, +E> = Ok(value: T) | Err(error: E)
}
