/** Values shared by every part of the client model. */
module Common {

  /** An optional value: a Go pointer or interface that may be nil. */
  datatype Option<+T> = None | Some(value: T)

  /** A Go `error` value other than nil, identified by its message. */
  datatype Error = Error(message: string)

  /** The `(value, error)` pair a Go call returns, when exactly one of the two is set. */
  datatype Outcome<+T> = Ok(value: T) | Err(error: Error)
}
