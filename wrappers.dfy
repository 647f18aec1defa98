/** The optional value of Rust's standard library, used for operands and search results. */
module Wrappers {

  datatype Option<T> = None | Some(value: T)
}
