/** Failure-carrying datatypes shared by the other modules: the Go code's
    `(value, error)` pairs become a `Result`, and an enumeration or glob
    call that may fail becomes an `Option` whose `None` is the failure. */
module Wrappers {

  datatype Option<+T> = None | Some(value: T)

  datatype Result<+R, +E> = Ok(value: R) | Err(error: E)
}
