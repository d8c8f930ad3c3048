/** Option and Result, used where the Ruby code returns nil or raises. */
module Wrappers {

  /** A value that may be absent; `None` plays the part of Ruby's nil. */
  datatype Option<T> = None | Some(value: T) {

    /** The wrapped value, or `default` when there is none. */
    function GetOr(default: T): T {
      match this
      case Some(v) => v
      case None => default
    }
  }

  /** The outcome of a call that can raise: a value or the exception raised. */
  datatype Result<R, E> = Success(value: R) | Failure(error: E)
}
