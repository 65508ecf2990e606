/** Rust's `Option`, shared by the capture and selection modules. */
module Wrappers {
  datatype Option<+T> = None | Some(value: T)
}
