/** Optional values and results with an error, used for pandas' NaN and Python's KeyError. */
module Wrappers {

  datatype Option<+T> = None | Some(value: T)

  datatype Result<+T, +E> = Success(value: T) | Failure(error: E)
}
