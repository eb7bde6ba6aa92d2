/** Option, Result and Outcome: the model's stand-ins for Go's nil values
    and `error` returns. */
module Wrappers {

  datatype Option<+T> = None | Some(value: T)

  /** A value or the error that replaced it. */
  datatype Result<+T, +E> = Success(value: T) | Failure(error: E)

  /** The outcome of a check that returns only an error (or nil). */
  datatype Outcome<+E> = Pass | Fail(error: E)
}
