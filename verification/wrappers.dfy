/** The optional value and the success-or-error result used throughout the model. */
module Wrappers {

  /** A value that may be absent (a missing key, no reading this frame). */
  datatype Option<+T> = None | Some(value: T)

  /** Either a successful value or the error the operation raised. */
  datatype Result<+R, +E> = Success(value: R) | Failure(error: E)
}
