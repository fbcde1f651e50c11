/** Optional values, results that carry an error, and the result of code that may panic. */
module Outcomes {

  datatype Option<+T> = None | Some(value: T)

  datatype Result<+T, +E> = Ok(value: T) | Err(error: E)

  datatype Outcome<+T> = Return(value: T) | Panic
}
