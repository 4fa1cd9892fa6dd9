/** Failure-carrying result types shared by the modules of the model. */
module Wrappers {

  datatype Option<+T> = None | Some(value: T)

  /** Either a value or the error the source raises (an exception, an
      `exit`, or behaviour the C++ standard leaves undefined). */
  datatype Result<+T, +E> = Success(value: T) | Failure(error: E)
}
