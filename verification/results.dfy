/** The two-armed result of a fallible Rust call (`Result<T, E>`). */
module Results {

  datatype Result<+T, +E> = Ok(value: T) | Err(error: E)
}
