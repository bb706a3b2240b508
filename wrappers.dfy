/** Option and Result, the two failure-carrying types of the model. */
module Wrappers {

  /** Rust's `Option<T>`. */
  datatype Option<T> = None | Some(value: T)

  /** Rust's `Result<T, E>`; an `Err` stands for a path on which the program panics or gives up. */
  datatype Result<T, E> = Ok(value: T) | Err(error: E)
}
