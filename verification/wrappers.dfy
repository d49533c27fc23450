/** Plain `Option` and `Result` datatypes used across the model: an optional
    value, and a result that carries either a value or the exception the
    Python code would raise. */
module Wrappers {

  /** `None` plays the role of Python's `None` sentinel. */
  datatype Option<+T> = None | Some(value: T)

  datatype Result<+T, +E> = Success(value: T) | Failure(error: E)
}
