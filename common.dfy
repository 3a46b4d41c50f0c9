/** Optional values and error returns shared by every module of the model.
    `None` stands for a nil pointer (Go) or for `undefined`/`null` (TypeScript). */
module Common {

  datatype Option<T> = None | Some(value: T)

  datatype Result<T, E> = Ok(value: T) | Err(error: E)
}
