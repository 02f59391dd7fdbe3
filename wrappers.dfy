/** Option and Result, the shapes used for JavaScript's `null`/`undefined` and for thrown errors. */
module Wrappers {

  /** `None` stands for `null` or `undefined`. */
  datatype Option<+T> = None | Some(value: T) {
    function GetOr(default: T): T {
      match this
      case Some(v) => v
      case None => default
    }
  }

  /** `Failure(message)` stands for an `Error` thrown with that message. */
  datatype Result<+R> = Success(value: R) | Failure(error: string)

  /** Completion of an operation that returns nothing: normal return or a thrown error. */
  datatype Outcome = Pass | Fail(error: string)
}
