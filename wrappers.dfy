/** Small shared value wrappers used by the other modules. */
module Wrappers {
  /** An optional value, standing in for Rust's `Option`. */
  datatype Option<T> = None | Some(value: T)
}
