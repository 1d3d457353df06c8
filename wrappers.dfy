/** The optional value and the success-or-error result shared by the ranker and the tiler. */
module Wrappers {
  datatype Option<T> = None | Some(value: T)

  datatype Result<T, E> = Ok(value: T) | Err(error: E)
}
