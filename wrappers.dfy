/** Option and Result, used where the Go code returns a nil-able value or an
    error beside a value. */
module Wrappers {

  datatype Option<+T> = None | Some(value: T)

  datatype Result<+T, +E> = Success(value: T) | Failure(error: E)
}
