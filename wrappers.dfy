/** Failure-carrying values: a Python function that raises is modelled as one that returns Failure. */
module Wrappers {
  datatype Option<+T> = None | Some(value: T)

  datatype Result<+R, +E> = Success(value: R) | Failure(error: E)
}
