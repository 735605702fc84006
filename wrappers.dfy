/** The error-or-value type used for the Go `(value, error)` return pairs. */
module Wrappers {

  datatype Result<+T, +E> = Success(value: T) | Failure(error: E)
}
