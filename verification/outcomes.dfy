/** Failure-carrying results used in place of Java's null and exceptions. */
module Outcomes {

  /** A value that may be absent (Java `null`). */
  datatype Option<+T> = None | Some(value: T)

  /** Either a value or the error that a Java method would have thrown. */
  datatype Result<+T, +E> = Ok(value: T) | Err(error: E)

  /** The unchecked Java exceptions thrown by the inference pipeline. */
  datatype Failure =
    | IllegalArgument(message: string)
    | IllegalState(message: string)
    | NullPointer(message: string)
}
