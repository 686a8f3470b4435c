/** The option, result and outcome datatypes shared by the other modules. */
module Wrappers {

  datatype Option<+T> = None | Some(value: T) {
    function GetOr(default: T): T {
      match this
      case Some(v) => v
      case None => default
    }
  }

  /** A value, or the message of the exception that replaced it. */
  datatype Result<+R, +E> = Success(value: R) | Failure(error: E)

  /** The settlement of a promise that carries no value. */
  datatype Outcome<+E> = Pass | Fail(error: E)
}
