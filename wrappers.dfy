/** Failure-carrying values used in place of the exceptions the service raises. */
module Wrappers {

  /** A value that may be absent (Python's `None`). */
  datatype Option<+T> = None | Some(value: T)

  /** Either a successful value or the error that stopped the operation. */
  datatype Result<+T, +E> = Ok(value: T) | Err(error: E)
}
