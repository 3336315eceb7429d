/** Optional values and success-or-failure results shared by the other modules. */
module Wrappers {

  /** A value that may be absent (Python's `None`). */
  datatype Option<+T> = None | Some(value: T)

  /** The outcome of a check: the accepted value or the reason for refusing it. */
  datatype Result<+R, +E> = Success(value: R) | Failure(error: E)
}
