/** Failure-compatible wrappers shared by every module: an optional value
    (a pandas missing value is `None`) and a success-or-error result (a Python
    exception is a `Failure`). */
module Wrappers {

  datatype Option<+T> = None | Some(value: T) {

    /** The wrapped value, or `default` when missing (pandas `fillna`). */
    function GetOr(default: T): T {
      match this
      case Some(v) => v
      case None => default
    }
  }

  datatype Result<+R, +E> = Success(value: R) | Failure(error: E)
}
