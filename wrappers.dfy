/** Option and Result used by the password generator model. */
module Wrappers {

  /** An optional value; `None` stands for a JavaScript value that is `undefined`. */
  datatype Option<+T> = None | Some(value: T)

  /** The outcome of an operation that may throw: `Failure` carries the kind of error thrown. */
  datatype Result<+T, +E> = Success(value: T) | Failure(error: E)
}
