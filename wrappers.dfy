/** Option and Result values that stand for Rust's `Option` and for operations
    that panic: a panic is modelled as a `Failure` carrying what the panic reports. */
module Wrappers {

  datatype Option<+T> = None | Some(value: T)

  datatype Result<+T, +E> = Success(value: T) | Failure(error: E)
}
