// Optional values and error-or-value results, used wherever the modelled Python
// code returns None, a default, or raises an exception.
module Outcomes {

  datatype Option<+T> = None | Some(value: T)

  datatype Result<+T, +E> = Ok(value: T) | Err(error: E)
}
