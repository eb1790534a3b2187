/** Optional values and failure-or-value results, standing in for C#'s nullable
    references and thrown exceptions. */
module Wrappers {

  /** `None` plays the role of a C# `null` reference. */
  datatype Option<+T> = None | Some(value: T)

  /** `Failure` plays the role of an exception thrown to the caller. */
  datatype Result<+T, +E> = Success(value: T) | Failure(error: E)
}
