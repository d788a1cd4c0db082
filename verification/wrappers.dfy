/** Failure-carrying datatypes shared by the whole model. */
module Wrappers {

  /** A value that may be absent, like Python's `None`. */
  datatype Option<+T> = None | Some(value: T)

  /** Either a value or the error that stopped the computation. */
  datatype Result<+R, +E> = Success(value: R) | Failure(error: E)
}
