/** Option and Result, the two outcomes the core's operations report. */
module Wrappers {

  /** A value that may be absent: Go's nil pointer or nil map. */
  datatype Option<+T> = None | Some(value: T)

  /** A value or an error: Go's (value, error) return pair. */
  datatype Result<+R, +E> = Success(value: R) | Failure(error: E)
}
