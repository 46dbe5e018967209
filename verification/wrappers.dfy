/** Failure-carrying datatypes used across the model: `Option` for a decode
    that may fail without a message, `Result` for Go's `(value, error)` pairs. */
module Wrappers {

  datatype Option<+T> = None | Some(value: T)

  datatype Result<+R, +E> = Success(value: R) | Failure(error: E)
}
