/** Option and Result, the two failure-carrying shapes the model uses for
    Go's `nil` results and `(value, error)` returns. */
module Wrappers {

  datatype Option<+T> = None | Some(value: T)

  datatype Result<+R, +E> = Success(value: R) | Failure(error: E)
}
