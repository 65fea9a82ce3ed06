/** Failure-compatible wrappers: the model's stand-ins for Java's nullable
    references and Optional, and for the exceptions that roll a transaction back. */
module Wrappers {

  datatype Option<+T> = None | Some(value: T)

  datatype Result<+T, +E> = Ok(value: T) | Err(error: E)

  /** The result of a `void` operation that can fail. */
  datatype Outcome<+E> = Done | Failed(error: E)
}
