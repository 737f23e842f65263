/** Optional values and the error results the backend raises as HTTP exceptions. */
module Results {

  datatype Option<T> = None | Some(value: T)

  /** An `HTTPException`: its status code and its detail text. */
  datatype HttpError = HttpError(status: int, detail: string)

  /** A value, or the error that was raised instead. */
  datatype Result<T, E> = Ok(value: T) | Err(error: E)

  /** A check that either passes or raises. */
  datatype Outcome<E> = Pass | Fail(error: E)
}
