/** Failure-carrying values: an absent value and a raised exception. */
module Wrappers {

  datatype Option<+T> = None | Some(value: T)

  /** `Failure` stands for an exception the Python code raises. */
  datatype Result<+R, +E> = Success(value: R) | Failure(error: E)
}
