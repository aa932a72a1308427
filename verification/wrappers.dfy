/** Failure-compatible wrappers shared by every module of the model. Kotlin's nullable
    types (`String?`, `Double?`) become `Option`, and thrown exceptions become `Result`. */
module Wrappers {

  datatype Option<+T> = None | Some(value: T) {

    /** The value, or `default` when absent (Kotlin's elvis operator `?:`). */
    function GetOr(default: T): T {
      match this
      case Some(v) => v
      case None => default
    }
  }

  datatype Result<+R, +E> = Success(value: R) | Failure(error: E)
}
