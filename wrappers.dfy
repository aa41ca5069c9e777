/** Option and Result: the model's replacement for C# null references and thrown exceptions. */
module Wrappers {

  /** A value that may be absent; `None` stands for a C# `null` argument. */
  datatype Option<+T> = None | Some(value: T)

  /** Either a computed value or the exception the C# code would throw. */
  datatype Result<+R, +E> = Success(value: R) | Failure(error: E)
}
