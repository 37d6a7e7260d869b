/** Optional values and error-carrying results shared by the model. */
module Wrappers {

  /** Python's `None` or a value. */
  datatype Option<+T> = None | Some(value: T)

  /** A value, or the exception a call would have raised. */
  datatype Result<+T, +E> = Success(value: T) | Failure(error: E)
}
