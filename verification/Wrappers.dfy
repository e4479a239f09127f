/** Result and Option types for the tools' exceptions and `None` values. */
module Wrappers {

  datatype Option<+T> = None | Some(value: T)

  /** A value, or the exception the source raises instead of returning one. */
  datatype Result<+T, +E> = Ok(value: T) | Err(error: E)

  /** A procedure's outcome: it returned, or it raised. */
  datatype Outcome<+E> = Pass | Fail(error: E)
}
