/** Option and Result types shared by every part of the model. */
module Wrappers {

  datatype Option<+T> = None | Some(value: T) {
    function GetOr(default: T): T {
      match this
      case Some(v) => v
      case None => default
    }
  }

  /** A validator either hands back its (possibly unchanged) input or raises an error. */
  datatype Result<+R, +E> = Success(value: R) | Failure(error: E)
}
