/** Failure-carrying return values, used where the source throws or returns null. */
module Wrappers {

  /** A value that may be absent (a Java `null` or a missing map entry). */
  datatype Option<T> = None | Some(value: T)

  /** A value, or the error that a Java exception would have carried. */
  datatype Result<T, E> = Ok(value: T) | Err(error: E)

  /** Success without a value, or an error. */
  datatype Outcome<E> = Pass | Fail(error: E)
}
