/** Failure-compatible wrappers used where the source returns nothing or throws. */
module Wrappers {

  datatype Option<+T> = None | Some(value: T)

  /** A value, or the error the source raises instead of producing one. */
  datatype Result<+T, +E> = Success(value: T) | Failure(error: E)
}
