/** Failure-compatible wrappers used across the model: Python's `None`
    becomes `Option.None`, and a raised exception becomes `Result.Failure`. */
module Wrappers {

  datatype Option<+T> = None | Some(value: T)

  datatype Result<+T, +E> = Success(value: T) | Failure(error: E)
}
