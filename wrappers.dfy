/** Result types shared by the upload pipeline. */
module Wrappers {

  datatype Option<+T> = None | Some(value: T)

  /** The value of a computation that may throw: `Failure` carries what the
      JavaScript code would have thrown. */
  datatype Result<+R, +E> = Success(value: R) | Failure(error: E)

  /** The outcome of an effect that returns nothing on success. */
  datatype Outcome<+E> = Pass | Fail(error: E)
}
