/** Failure-carrying values shared by every module: `Option` for a JavaScript
    value that may be `undefined`, `Result` for an operation that may throw. */
module Results {

  datatype Option<+T> = None | Some(value: T)

  datatype Result<+T, +E> = Ok(value: T) | Err(error: E)
}
