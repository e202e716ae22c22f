/** The optional value used by every fallible operation of the model. */
module Wrappers {

  /** Rust's `Option<T>`: `None` is the "no value produced" answer. */
  datatype Option<+T> = None | Some(value: T)
}
