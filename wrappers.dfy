/** Optional values and results with an error, as used throughout the model. */
module Wrappers {

  /** A value that may be absent: a missing dictionary key or a JSON `null`. */
  datatype Option<+T> = None | Some(value: T) {
    function GetOr(default: T): T {
      match this
      case Some(v) => v
      case None => default
    }
  }

  /** Either a value or the error that rejected the input. */
  datatype Result<+R, +E> = Success(value: R) | Failure(error: E)
}
