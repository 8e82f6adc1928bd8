/** Failure-carrying wrappers shared by the whole model: an optional value (C# `null`
    versus a reference) and the outcome of an operation that may throw. */
module Wrappers {

  /** A value that may be absent, standing for a nullable reference. */
  datatype Option<+T> = None | Some(value: T)

  /** Either the value an operation returned or the exception it threw. */
  datatype Result<+T, +E> = Success(value: T) | Failure(error: E)

  /** Whether an operation without a result completed or threw. */
  datatype Outcome<+E> = Pass | Fail(error: E)
}
