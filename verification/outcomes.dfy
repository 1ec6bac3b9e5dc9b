/** The failure-carrying values the modelled code returns: Rust's `Option` and `Result`, Python's exceptions. */
module Outcomes {
  datatype Option<+T> = None | Some(value: T)

  datatype Result<+T, +E> = Ok(value: T) | Err(error: E)
}
