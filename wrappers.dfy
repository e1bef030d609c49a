/** Option and Result values standing for C#'s nullable references and thrown exceptions. */
module Wrappers {

  /** A value that may be absent (a C# `null`). */
  datatype Option<+T> = None | Some(value: T)

  /** The result of an operation that either returns a value or throws. */
  datatype Result<+R, +E> = Success(value: R) | Failure(error: E)

  /** The result of an operation that returns nothing or throws. */
  datatype Outcome<+E> = Pass | Fail(error: E)
}
