/** Failure-carrying wrappers used by the whole model. */
module Wrappers {

  /** Rust's Option: an absent value or a present one. */
  datatype Option<T> = None | Some(value: T)

  /** The outcome of a step that aborts the program (a panic) on failure. */
  datatype Result<T, E> = Ok(value: T) | Err(error: E)
}
