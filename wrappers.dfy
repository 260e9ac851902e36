/** Failure-carrying values used for the Java exceptions and `Optional`s of the catalogue backend. */
module Wrappers {

  /** `Optional<T>` of the repositories, and a Java reference that may be `null`. */
  datatype Option<+T> = None | Some(value: T)

  /** The value of an operation that either returns or throws an exception carrying an error. */
  datatype Result<+R, +E> = Success(value: R) | Failure(error: E)

  /** A check that either passes silently or throws. */
  datatype Outcome<+E> = Pass | Fail(error: E)
}
