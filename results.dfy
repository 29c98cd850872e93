/** The outcome of an operation that raises in the Python program. */
module Results {

  datatype Result<T, E> = Ok(value: T) | Err(error: E)
}
