/** Optional values and results with an error, as used throughout the model. */
module Wrappers {

  /** A value that may be absent: the model's reading of pandas' NaN and of Python's None. */
  datatype Option<+T> = None | Some(value: T)

  /** The outcome of a step that either produces a value or raises an exception. */
  datatype Result<+R, +E> = Success(value: R) | Failure(error: E)
}
