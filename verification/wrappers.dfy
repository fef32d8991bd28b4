/** Python's `None` and raised errors, as values. */
module Wrappers {

  /** A value that may be absent, like a Python attribute that is `None`. */
  datatype Option<+T> = None | Some(value: T)

  /** The outcome of a step that either succeeds or raises. */
  datatype Result<+R, +E> = Success(value: R) | Failure(error: E)
}
