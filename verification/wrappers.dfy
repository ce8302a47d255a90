/** Failure-carrying wrappers shared by the other modules. */
module Wrappers {

  /** An optional value: `None` stands for Python's `None`. */
  datatype Option<+T> = None | Some(value: T)

  /** The outcome of an operation that may raise: `Failure` carries what was raised. */
  datatype Result<+R, +E> = Success(value: R) | Failure(error: E)
}
