/** Failure-carrying values shared by every module of the model. */
module Wrappers {

  /** A value that may be absent (JavaScript `undefined`/`null`, Python `None`). */
  datatype Option<+T> = None | Some(value: T) {
    function GetOr(default: T): T {
      match this
      case Some(v) => v
      case None => default
    }
  }

  /** Either a value or an error, as returned by a call that may throw. */
  datatype Result<+R, +E> = Success(value: R) | Failure(error: E)
}
