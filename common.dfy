/** Failure-carrying wrappers used throughout the model. */
module Common {

  /** An optional value: a query parameter that may be absent, a parse that may fail. */
  datatype Option<+T> = None | Some(value: T)

  /** The outcome of an operation that can raise: its value, or the error it raised. */
  datatype Result<+T, +E> = Ok(value: T) | Err(error: E)
}
