/** Optional values (in place of Java's null) and results (in place of thrown exceptions). */
module Wrappers {

  /** A possibly absent value: `None` stands for a Java `null`. */
  datatype Option<+T> = None | Some(value: T) {

    /** The value, or `default` when absent. */
    function GetOr(default: T): T {
      match this
      case Some(v) => v
      case None => default
    }
  }

  /** The outcome of a call that may throw: `Failure` carries the exception. */
  datatype Result<+R, +E> = Success(value: R) | Failure(error: E)
}
