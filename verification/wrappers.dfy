/** Failure-carrying values shared by every module of the model. */
module Wrappers {

  /** A value that may be absent: a JavaScript `undefined` field or a lookup that found nothing. */
  datatype Option<+T> = None | Some(value: T)

  /** The outcome of a collaborator that either yields a value or reports an error. */
  datatype Result<+T, +E> = Success(value: T) | Failure(error: E)
}
