/** The two wrapper types the routers' results are expressed in. */
module Outcomes {

  datatype Option<T> = None | Some(value: T)

  /** What a request handler produces: a value, or the status code of the
      `HTTPException` it raises. An exception that is not an `HTTPException`
      and escapes the handler is answered by the framework with 500. */
  datatype Result<T> = Ok(value: T) | Err(code: int)
}
