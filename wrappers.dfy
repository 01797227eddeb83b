/** Option and Result, the failure-carrying values the rest of the model returns. */
module Wrappers {

  datatype Option<+T> = None | Some(value: T)

  /** A call that either produces a value or fails with an error (a thrown exception
      or a rejected promise in the source). */
  datatype Result<+T, +E> = Ok(value: T) | Err(error: E)
}
