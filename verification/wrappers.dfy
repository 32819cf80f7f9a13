/** Option and Result, used for the nullable pointers and the failure paths of the model. */
module Wrappers {

  /** A value that may be absent: the model's stand-in for a null pointer. */
  datatype Option<+T> = None | Some(value: T)

  /** Either a value or the reason the source gives up (an assertion, an exception). */
  datatype Result<+R, +E> = Success(value: R) | Failure(error: E)
}
