/** Error-carrying results for the operations that raise in the sampler and the labeler. */
module Results {
  datatype Result<T, E> = Ok(value: T) | Err(error: E)

  datatype Option<T> = None | Some(value: T)
}
