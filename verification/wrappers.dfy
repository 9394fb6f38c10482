/** Option and Result, the shapes the Rust code uses for "maybe a value" and "value or error". */
module Wrappers {

  datatype Option<+T> = None | Some(value: T)

  datatype Result<+R, +E> = Success(value: R) | Failure(error: E)
}
