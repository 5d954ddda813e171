/** Failure-carrying values shared by the date parser, the items and the catalog. */
module Wrappers {

  /** A value that may be absent (Java's `null` returns). */
  datatype Option<+T> = None | Some(value: T)

  /** A computed value or the error that stopped the computation (Java's checked exceptions). */
  datatype Result<+T, +E> = Ok(value: T) | Err(error: E)

  /** The outcome of an operation that returns nothing on success (a `void` method that may throw). */
  datatype Outcome<+E> = Pass | Fail(error: E)
}
