/** Option and Result, the stock failure-carrying datatypes. */
module Wrappers {

  /** A value that may be absent: a missing dictionary key, or Python's `None`. */
  datatype Option<+T> = None | Some(value: T) {

    /** The value, or `default` when absent (Python's `dict.get(key, default)`). */
    function GetOr(default: T): T {
      match this
      case Some(v) => v
      case None => default
    }
  }

  /** The outcome of an operation that may raise an exception. */
  datatype Result<+R, +E> = Ok(value: R) | Err(error: E)
}
