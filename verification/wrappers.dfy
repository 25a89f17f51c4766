/** Failure-carrying values shared by the other modules. */
module Wrappers {

  /** An optional value: `None` stands for JavaScript's `undefined`. */
  datatype Option<+T> = None | Some(value: T)

  /** The outcome of an operation that can throw: `Err` carries the error kind. */
  datatype Result<+T, +E> = Ok(value: T) | Err(error: E)
}
