/** Shared helper datatypes. */
module Wrappers {

  /** Rust's `Option`: a value that may be absent. */
  datatype Option<+T> = None | Some(value: T)
}
