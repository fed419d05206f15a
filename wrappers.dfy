/** Rust's Option, as used by the modelled functions. */
module Wrappers {
  datatype Option<+T> = None | Some(value: T)
}
