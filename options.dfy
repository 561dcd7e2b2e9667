/** Option and Result: the value-or-nothing and value-or-error shapes used by the model. */
module Options {

  datatype Option<+T> = None | Some(value: T)

  datatype Result<+T, +E> = Ok(value: T) | Err(error: E)
}
