/** Option and Outcome: absent values and calls into external services that may raise. */
module Wrappers {

  /** A value that may be absent (Python's None, JavaScript's null). */
  datatype Option<+T> = None | Some(value: T) {
    function GetOr(default: T): T {
      match this
      case Some(v) => v
      case None => default
    }
  }

  /** The result of a call into an external service: a value, or an exception that was raised. */
  datatype Outcome<+T> = Value(value: T) | Raised
}
