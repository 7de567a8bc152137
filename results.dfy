/** The failure values the laptime core produces: Python's exceptions,
    carried as data instead of raised. */
module Results {

  datatype Option<T> = None | Some(value: T)

  /** One of the two Python exception classes the core raises, with its message. */
  datatype Error = TypeError(message: string) | ValueError(message: string)

  /** The value a core function returns, or the exception it raises. */
  datatype Result<T> = Ok(value: T) | Err(error: Error)
}
