/** The outcome of an operation that can fail: the value it produced, or the error it raised. */
module Wrappers {

  datatype Result<+T, +E> = Success(value: T) | Failure(error: E)
}
