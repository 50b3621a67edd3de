/** Optional values and success-or-error results shared by the whole model. */
module Wrappers {

  /** A value that may be absent: a nullable column, an optional request field, a lookup miss. */
  datatype Option<+T> = None | Some(value: T) {
    function GetOr(default: T): T {
      match this
      case Some(v) => v
      case None => default
    }
  }

  /** The outcome of a request: the response on success, the reason it was refused otherwise. */
  datatype Result<+R, +E> = Success(value: R) | Failure(error: E)
}
