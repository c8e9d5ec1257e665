/** Optional values and results with an error, as returned by the operations below. */
module Wrappers {

  /** Python's `None` or a value. */
  datatype Option<+T> = None | Some(value: T)

  /** A value, or the error a Python function would raise instead of returning one. */
  datatype Result<+T, +E> = Success(value: T) | Failure(error: E)
}
