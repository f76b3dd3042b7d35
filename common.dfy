/** Optional values and results with an error, used wherever the source
    reads `undefined` or throws. */
module Common {

  datatype Option<T> = None | Some(value: T)

  datatype Result<T, E> = Ok(value: T) | Err(error: E)
}
