/** Failure-carrying datatypes shared by every module of the model. */
module Wrappers {

  /** A value that may be absent: a missing dictionary key, a regex search that found nothing. */
  datatype Option<T> = None | Some(value: T)

  /** The outcome of an operation that either returns a value or raises an exception. */
  datatype Result<T, E> = Ok(value: T) | Err(error: E)
}
