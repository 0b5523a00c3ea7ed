/** Option and Result values standing in for C# null references and thrown exceptions. */
module Wrappers {

  /** A value that may be absent; `None` plays the role of a C# `null`. */
  datatype Option<+T> = None | Some(value: T) {

    function GetOr(default: T): T
    {
      match this
      case Some(v) => v
      case None => default
    }
  }

  /** The outcome of an operation that may throw: a value, or the exception it raises. */
  datatype Result<+R, +E> = Success(value: R) | Failure(error: E)
}
