/** Failure-carrying values used across the model. */
module Wrappers {

  /** A value that may be absent: a failed read, a missing attribute, a parse that failed. */
  datatype Option<+T> = None | Some(value: T) {
    function GetOr(default: T): T {
      match this
      case Some(v) => v
      case None => default
    }
  }

  /** The outcome of an operation that either produces a value or reports an error. */
  datatype Result<+T, +E> = Ok(value: T) | Err(error: E)
}
