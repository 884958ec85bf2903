/** Option and Result, standing in for C# null references and thrown exceptions. */
module Wrappers {

  /** A value that may be absent, as a C# reference that may be null. */
  datatype Option<+T> = None | Some(value: T)

  /** The outcome of an operation that either returns a value or throws. */
  datatype Result<+R, +E> = Success(value: R) | Failure(error: E)
}
