/** Failure-carrying return values shared by every module of the model: the
    Python code reports failures by raising, the model returns them. */
module Results {

  /** A value that may be absent, like Python's `Optional[T]`. */
  datatype Option<+T> = None | Some(value: T)

  /** Either a computed value or the error the source would raise. */
  datatype Result<+T, +E> = Ok(value: T) | Err(error: E)

  /** A check that either passes or fails with a reason. */
  datatype Outcome<+E> = Pass | Fail(reason: E)
}
