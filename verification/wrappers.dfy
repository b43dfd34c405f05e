/** The optional-value and success-or-error datatypes used throughout the model. */
module Wrappers {

  /** A value that may be absent (a DOM query that found nothing, a regex that did not match). */
  datatype Option<+T> = None | Some(value: T)

  /** The outcome of an operation that may fail with an error value (a rejected promise). */
  datatype Result<+R, +E> = Success(value: R) | Failure(error: E)
}
