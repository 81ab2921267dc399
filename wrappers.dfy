/** The optional value the rest of the model uses for Rust's `Option`. */
module Wrappers {
  datatype Option<+T> = None | Some(value: T)
}
