/** Failure-carrying datatypes shared by the rest of the model. */
module Wrappers {

  /** Rust's `Option<T>`. */
  datatype Option<+T> = None | Some(value: T)

  /** The result of a computation that may abort with a Rust `panic!`:
      either it finishes with a value or it panics with a message. */
  datatype Outcome<+T> = Done(value: T) | Panic(message: string)
}
