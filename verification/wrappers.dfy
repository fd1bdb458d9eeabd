/** Option and Result, the absence and failure values used throughout the model.
    A PHP `null` return becomes `None`; a thrown exception becomes `Failure`. */
module Wrappers {

  datatype Option<+T> = None | Some(value: T) {

    predicate IsFailure() {
      None?
    }

    function PropagateFailure<U>(): Option<U>
      requires None?
    {
      None
    }

    function Extract(): T
      requires Some?
    {
      value
    }

    function GetOr(default: T): T {
      match this
      case Some(v) => v
      case None => default
    }
  }

  datatype Result<+R, +E> = Success(value: R) | Failure(error: E) {

    predicate IsFailure() {
      Failure?
    }

    function PropagateFailure<U>(): Result<U, E>
      requires Failure?
    {
      Failure(error)
    }

    function Extract(): R
      requires Success?
    {
      value
    }
  }
}

/** The exceptions the generator raises, by PHP class. */
module Errors {

  datatype Exception =
    | LaravelSwaggerException(message: string)
    | RuntimeException(message: string)
    | InvalidArgumentException(message: string)
    /** A PHP notice, which Laravel turns into an exception. */
    | ErrorException(message: string)
    /** A PHP engine error, such as a method call on null. */
    | Error(message: string)
}
