/** Optional values and request outcomes, used throughout the model. */
module Wrappers {

  /** A value that may be absent: a JavaScript `undefined`/`null` field or return. */
  datatype Option<+T> = None | Some(value: T)

  /** The outcome of a request: a reply value or an error status. */
  datatype Result<+R, +E> = Success(value: R) | Failure(error: E)
}
