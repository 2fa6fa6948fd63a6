/** The outcomes of the server's fallible steps: the Rust `Option`, and
    the `unwrap`/`expect` calls that panic on bad input, which become a
    `Failure` carrying the reason. */
module Wrappers {

  datatype Option<+T> = None | Some(value: T)

  datatype Result<+R, +E> = Success(value: R) | Failure(error: E)
}
