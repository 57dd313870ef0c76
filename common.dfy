/** Option and Result, shared by every module of the model: Go's `(T, error)` and nil-pointer
    returns become these. */
module Common {

  datatype Option<+T> = None | Some(value: T)

  datatype Result<+T, +E> = Ok(value: T) | Err(error: E)
}
