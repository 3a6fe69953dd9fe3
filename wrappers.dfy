/** Failure-carrying values used throughout the model: Go's `nil` results
    become `None`, and Go's `(value, error)` pairs become `Result`. */
module Wrappers {

  datatype Option<+T> = None | Some(value: T)

  datatype Result<+T, +E> = Success(value: T) | Failure(error: E)
}
