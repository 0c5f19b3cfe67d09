/** Optional values and success/failure results, used in place of Python's
    `None` and of raised exceptions. */
module Wrappers {

  /** A value that may be absent. */
  datatype Option<T> = None | Some(value: T) {

    /** The wrapped value, or `default` when there is none. */
    function GetOr(default: T): T {
      match this
      case Some(v) => v
      case None => default
    }
  }

  /** Either a computed value or the error that stopped the computation. */
  datatype Result<T, E> = Success(value: T) | Failure(error: E)
}
