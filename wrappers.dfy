/** Option and Result: error returns of the Go code become values. */
module Wrappers {

  /** A value that may be absent: a fault, a failure cause, an attempted publication. */
  datatype Option<+T> = None | Some(value: T)

  /** The `(value, error)` pair of a Go call: exactly one of the two is meaningful. */
  datatype Result<+T, +E> = Success(value: T) | Failure(error: E)
}
