/** Option and Result: absence and failure as values. */
module Wrappers {

  /** A value that may be absent (Go's nil pointer). */
  datatype Option<+T> = None | Some(value: T)

  /** A computation that either succeeds with a value or fails with an error. */
  datatype Result<+R, +E> = Success(value: R) | Failure(error: E)
}
