/** Failure-carrying wrappers shared by every module of the model. */
module Wrappers {

  /** An optional value: `None` stands for Python's `None` or an absent element. */
  datatype Option<+T> = None | Some(value: T)

  /** A value or the error that a Python call would have raised instead. */
  datatype Result<+T, +E> = Success(value: T) | Failure(error: E)
}
