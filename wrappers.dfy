/** Option and Result, the shapes the relational layer's nullable columns and
    the scan errors take in this model. */
module Wrappers {

  /** A nullable column: `None` is SQL NULL (a nil `*string` or `*int` after a scan). */
  datatype Option<+T> = None | Some(value: T) {

    /** The value, or `default` when the column was NULL. */
    function GetOr(default: T): T {
      match this
      case Some(v) => v
      case None => default
    }
  }

  /** A value or an error, for calls that return `(value, error)`. */
  datatype Result<+R, +E> = Success(value: R) | Failure(error: E)
}
