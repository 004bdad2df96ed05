/** Failure-carrying results shared by the models. */
module Wrappers {

  /** A value that may be absent: Python's `None` or an early `return`. */
  datatype Option<+T> = None | Some(value: T)

  /** An operation that either produced a value or failed an assertion. */
  datatype Result<+T, +E> = Ok(value: T) | Err(error: E)
}
