/** Optional values and error results, standing in for JavaScript's
    `undefined`/`null` and for thrown errors. */
module Wrappers {

  datatype Option<+T> = None | Some(value: T) {
    /** `x ?? d` and `x || d` for a value that is either present or not. */
    function GetOr(default: T): T {
      match this
      case Some(v) => v
      case None => default
    }
  }

  datatype Result<+R, +E> = Success(value: R) | Failure(error: E)
}
