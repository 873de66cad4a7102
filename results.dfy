/** The outcome of a run that either produces a value or stops with an error
    before writing anything. */
module Results {
  datatype Result<T, E> = Ok(value: T) | Err(error: E)
}
