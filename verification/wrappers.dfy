/** Failure-compatible wrappers used across the model: `Option` for Python's
    `None`-or-value results and `Result` for a read that either succeeds or
    raises an exception whose message is kept as a string. */
module Wrappers {

  datatype Option<+T> = None | Some(value: T)

  datatype Result<+R, +E> = Ok(value: R) | Err(error: E)
}
