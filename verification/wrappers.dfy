/** Failure-carrying values: Python's `None` and raised validation errors. */
module Wrappers {

  /** A value that may be absent (a nullable column, a dict lookup that misses). */
  datatype Option<+T> = None | Some(value: T) {
    function GetOr(default: T): T {
      match this
      case Some(v) => v
      case None => default
    }
  }

  /** The outcome of a check that either accepts a value or raises an error. */
  datatype Result<+R, +E> = Success(value: R) | Failure(error: E)
}
