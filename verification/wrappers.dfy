/** Option, Result and Outcome values used in place of Python's None and exceptions. */
module Wrappers {

  datatype Option<+T> = None | Some(value: T)

  /** The value an operation computes, or the error it raises. */
  datatype Result<+T, +E> = Success(value: T) | Failure(error: E) {

    /** The computed value, or `default` when the operation raised. */
    function GetOr(default: T): T {
      match this
      case Success(v) => v
      case Failure(_) => default
    }

    /** Forgets the computed value, keeping only whether (and why) the operation raised. */
    function ToOutcome(): Outcome<E> {
      match this
      case Success(_) => Pass
      case Failure(e) => Fail(e)
    }
  }

  /** What a Python method that returns None or raises reports to its caller. */
  datatype Outcome<+E> = Pass | Fail(error: E)
}
