/** Failure-carrying values shared by the whole model: a Java method that
    either returns normally or throws becomes a function returning a Result. */
module Wrappers {

  /** Some value, or nothing (a parse that did not succeed). */
  datatype Option<+T> = None | Some(value: T)

  /** A successful value, or the error the Java code would have thrown. */
  datatype Result<+T, +E> = Success(value: T) | Failure(error: E)
}
