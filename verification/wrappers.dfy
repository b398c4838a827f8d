/** Failure-carrying datatypes shared by the webjump modules. */
module Wrappers {

  /** A JavaScript value that may be `null` or `undefined` (None) or present (Some). */
  datatype Option<+T> = None | Some(value: T)

  /** The outcome of an operation that may throw: a value or the thrown error. */
  datatype Result<+T, +E> = Ok(value: T) | Err(error: E)
}
