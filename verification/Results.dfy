/** The two result shapes the whole model shares: Go's nilable values and its (value, error) pairs. */
module Results {
  datatype Option<+T> = None | Some(value: T)

  datatype Result<+T, +E> = Ok(value: T) | Err(error: E)
}
