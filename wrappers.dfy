/** Rust's `Option`, for the leaf future's optional connection. */
module Wrappers {

  datatype Option<T> = None | Some(value: T)
}
