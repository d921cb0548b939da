/** Optional values and error-carrying results. */
module Wrappers {

  /** A value that may be absent (Python's None). */
  datatype Option<+T> = None | Some(value: T) {
    function GetOr(default: T): T {
      match this
      case Some(v) => v
      case None => default
    }
  }

  /** The value of a computation, or the reason it stopped. */
  datatype Result<+T, +E> = Ok(value: T) | Err(error: E)
}
