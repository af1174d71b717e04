/** Option and Result: the absent value of JavaScript (`undefined`) and the
    outcome of an entry point that can throw. */
module Wrappers {

  /** A value that may be absent, like an optional parameter or property. */
  datatype Option<+T> = None | Some(value: T) {

    /** The held value, or `default` when absent (JavaScript's `??`). */
    function GetOr(default: T): T {
      match this
      case Some(v) => v
      case None => default
    }
  }

  /** The outcome of an entry point that either returns a value or throws
      an error carrying a description. */
  datatype Result<+R, +E> = Success(value: R) | Failure(error: E)
}
