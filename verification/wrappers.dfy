/** Small failure-carrying datatypes shared by the whole model. */
module Wrappers {

  /** A value that may be absent (Python's `None`). */
  datatype Option<+T> = None | Some(value: T)

  /** The outcome of an operation that may raise: `Failure` carries the
      message of the exception the program would raise. */
  datatype Result<+R> = Success(value: R) | Failure(error: string)
}
