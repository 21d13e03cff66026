/** Failure-compatible result types shared by the store and the ref database. */
module Wrappers {

  /** A value that may be absent; stands for a Java reference that may be null. */
  datatype Option<+T> = None | Some(value: T)

  /** A value or the exception that a call raised instead. */
  datatype Result<+T, +E> = Ok(value: T) | Err(error: E)

  /** A call with no return value that either completes or raises `error`. */
  datatype Outcome<+E> = Pass | Fail(error: E)
}
