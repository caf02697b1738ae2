/** Failure-carrying results: `None` stands for a panic, `Err` for a returned error. */
module Wrappers {

  datatype Option<+T> = None | Some(value: T)

  datatype Result<+T, +E> = Ok(value: T) | Err(error: E)
}
