/** The option type shared by the whole model (Rust's Option). */
module Wrappers {
  datatype Option<+T> = None | Some(value: T)
}
