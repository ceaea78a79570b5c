/** Failure-carrying datatypes used in place of Java's null references and exceptions. */
module Outcomes {

  /** A value that may be absent: the model of a nullable Java reference or an Optional. */
  datatype Option<+T> = None | Some(value: T)

  /** Either a computed value or the exception that the Java code would have thrown. */
  datatype Result<+T, +E> = Ok(value: T) | Err(error: E)

  /** A check that either passes or fails with an error, and computes nothing. */
  datatype Outcome<+E> = Pass | Fail(error: E)
}
