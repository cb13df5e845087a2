/**
 * Wrappers shared by the whole model: `Option` for values that may be
 * absent and `Result` for operations that return a Go `error`.
 */
module Wrappers {

  datatype Option<+T> = None | Some(value: T) {

    /** The wrapped value, or `default` when there is none. */
    function GetOr(default: T): T {
      match this
      case Some(v) => v
      case None => default
    }
  }

  datatype Result<+T, +E> = Success(value: T) | Failure(error: E) {

    /** The success value, or `default` on failure (Go's "ignore the error, keep the zero value"). */
    function GetOr(default: T): T {
      match this
      case Success(v) => v
      case Failure(_) => default
    }
  }
}
