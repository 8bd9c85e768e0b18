// Failure-carrying results: every exception the tools raise on purpose becomes an `Err`.
module Results {

  datatype Option<+T> = None | Some(value: T)

  datatype Result<+T, +E> = Ok(value: T) | Err(error: E)
}
