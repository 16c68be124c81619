/** Option and Result, the failure-carrying values used across the model. */
module Wrappers {

  /** A value that may be absent: a nil slice or a nil `*T` in Go is None. */
  datatype Option<+T> = None | Some(value: T)

  /** The (value, error) pair of a Go function: exactly one of the two is present. */
  datatype Result<+R, +E> = Success(value: R) | Failure(error: E)
}
