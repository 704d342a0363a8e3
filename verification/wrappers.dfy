/** Optional values and success/failure results shared by every module of the model. */
module Wrappers {

  /** A JSON key that may be absent (`dict.get` with a default). */
  datatype Option<+T> = None | Some(value: T) {

    /** The value if present, otherwise the caller's default. */
    function GetOr(default: T): T {
      match this
      case Some(v) => v
      case None => default
    }
  }

  /** A computation that either returns a value or raises the error `error`. */
  datatype Result<+R, +E> = Success(value: R) | Failure(error: E)
}
