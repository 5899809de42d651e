/** Rust's `Option`, used for the optional edge indices of the arena and for the matcher's scan. */
module Wrappers {
  datatype Option<+T> = None | Some(value: T)
}
