/** Result types shared by every module of the model. */
module Wrappers {

  /** An optional value, used where the source returns `None` or raises a `ValueError`. */
  datatype Option<+T> = None | Some(value: T)

  /** The outcome of an operation that either produces a value or fails with an error. */
  datatype Result<+T, +E> = Ok(value: T) | Err(error: E)
}
