/** Option and Result values used across the model in place of `undefined` and thrown errors. */
module Wrappers {

  datatype Option<+T> = None | Some(value: T) {
    function GetOr(default: T): T {
      match this
      case Some(v) => v
      case None => default
    }
  }

  /** A value, or the message of the `Error` that the source throws instead. */
  datatype Result<+R> = Success(value: R) | Failure(error: string)
}
