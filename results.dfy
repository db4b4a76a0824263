/** The outcome of an operation that the source can abort with an exception. */
module Results {

  datatype Result<+T, +E> = Ok(value: T) | Err(error: E)
}
