/** Option and Result, the two shapes every model here uses for values that may be
    missing (JavaScript `undefined`/`null`, Python `None`) and for calls that may fail. */
module Wrappers {

  datatype Option<+T> = None | Some(value: T) {
    /** `x ?? d` / `x || d` for a value that is either present or not. */
    function GetOr(default: T): T {
      match this
      case Some(v) => v
      case None => default
    }
  }

  datatype Result<+T, +E> = Success(value: T) | Failure(error: E)
}
