// The two failure-compatible types every other module uses: an optional value
// and the outcome of an operation that may be refused.
module Wrappers {

  datatype Option<+T> = None | Some(value: T)

  datatype Result<+T, +E> = Ok(value: T) | Err(error: E)
}
