/** Failure-carrying return values shared by the other modules. */
module Wrappers {

  /** A value that may be absent: a Python `None`, or a step that raised. */
  datatype Option<+T> = None | Some(value: T)

  /** A value, or the error the program would have stopped with. */
  datatype Result<+T, +E> = Success(value: T) | Failure(error: E)
}
