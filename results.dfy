/** Optional values and error-carrying results, standing in for `std::optional` and exceptions. */
module Results {

  /** An optional value: `None` is the source's `std::nullopt`. */
  datatype Option<T> = None | Some(value: T)

  /** The outcome of an operation that either yields a value or fails with an error. */
  datatype Result<T, E> = Ok(value: T) | Err(error: E)
}
