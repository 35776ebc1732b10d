/** Failure-carrying values shared by the other modules: a C++ `std::optional`
    becomes an `Option`, and a call that may throw becomes a `Result` whose
    `Err` carries the exception the source raises. */
module Wrappers {

  datatype Option<+T> = None | Some(value: T)

  datatype Result<+T, +E> = Ok(value: T) | Err(error: E)
}
