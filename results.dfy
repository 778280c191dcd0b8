/** The outcomes that the engine's constructor and the pattern parser return. */
module Results {

  datatype Result<T, E> = Ok(value: T) | Err(error: E)

  datatype Option<T> = None | Some(value: T)

}
