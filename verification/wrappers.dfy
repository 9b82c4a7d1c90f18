/** Failure-carrying results shared by the modules of the model. */
module Wrappers {

  /** An optional value: `None` stands for Python's `None`, NaN, or a missing row. */
  datatype Option<+T> = None | Some(value: T)

  /** The outcome of an operation that can raise: `Failure` names the exception. */
  datatype Result<+T, +E> = Success(value: T) | Failure(error: E)
}
