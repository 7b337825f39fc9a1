/** Option and Result, for nullable fields and for operations that can fail. */
module Wrappers {

  /** A nullable value: None plays the part of SQL NULL / Python None. */
  datatype Option<+T> = None | Some(value: T) {

    /** The value when present, `default` otherwise. */
    function GetOr(default: T): T {
      match this
      case Some(v) => v
      case None => default
    }
  }

  /** The outcome of an operation that either succeeds with a value or fails with an error. */
  datatype Result<+R, +E> = Ok(value: R) | Err(error: E)
}
