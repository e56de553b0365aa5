/** Option and Result, the model's stand-ins for Java's null returns and thrown exceptions. */
module Wrappers {

  datatype Option<+T> = None | Some(value: T)

  datatype Result<+R, +E> = Success(value: R) | Failure(error: E)

  /** Success or failure of an operation that returns nothing (a Java `void` that may throw). */
  datatype Outcome<+E> = Pass | Fail(error: E)
}
