/** The optional value that the Rust code returns, and that the model uses for a slice that panics. */
module Wrappers {
  datatype Option<T> = None | Some(value: T)
}
