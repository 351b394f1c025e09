/** Failure-carrying wrappers shared by every module of the model. */
module Base {

  /** A value that may be absent: a nullable column, a missing request field. */
  datatype Option<+T> = None | Some(value: T)

  /** The outcome of an operation that either yields a value or reports why it refused. */
  datatype Result<+T, +E> = Ok(value: T) | Err(error: E)

  /** A check that either passes or names the violated rule. */
  datatype Outcome<+E> = Pass | Fail(error: E)
}
