/** The error-carrying result of an operation that can raise. */
module Outcomes {

  datatype Result<T, E> = Ok(value: T) | Err(error: E)

  datatype Option<T> = None | Some(value: T)
}
