/** Failure-carrying results used across the model: Go's `(T, error)` pairs and
    `error` returns become these. Errors are the message strings Go's
    `errors.New` would carry. */
module Outcomes {

  datatype Option<T> = None | Some(value: T)

  datatype Result<T> = Ok(value: T) | Err(message: string)
}
