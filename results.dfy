/** The outcome of an operation that Python would end with an exception. */
module Results {

  datatype Result<T, E> = Ok(value: T) | Err(error: E)
}
