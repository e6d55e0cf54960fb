/** Option and Result values standing in for JavaScript's `undefined` and for thrown exceptions. */
module Wrappers {

  /** A value that may be absent (`undefined` in the source). */
  datatype Option<+T> = None | Some(value: T) {

    /** The value, or `default` when absent. */
    function GetOr(default: T): T {
      match this
      case Some(v) => v
      case None => default
    }
  }

  /** Either a value or the error an operation raised in its place. */
  datatype Result<+T, +E> = Ok(value: T) | Err(error: E)
}
