/** Rust's `Option`, the result of every bounds-checked read in this model. */
module Wrappers {

  datatype Option<+T> = None | Some(value: T)
}
