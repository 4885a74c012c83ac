/** Option and Result, standing for the source's nullable references and its
    thrown exceptions. */
module Wrappers {

  /** `None` plays the role of a C# `null`. */
  datatype Option<+T> = None | Some(value: T) {
    function GetOr(default: T): T {
      match this
      case Some(v) => v
      case None => default
    }
  }

  datatype Result<+R, +E> = Success(value: R) | Failure(error: E)
}
