/** Failure-carrying wrappers shared by every module of the model. */
module Common {

  /** A value that may be missing (JavaScript's `undefined`). */
  datatype Option<+T> = None | Some(value: T)

  /** The errors a public operation of the store session can surface to its caller. */
  datatype Error =
    | NotAuthenticated   // an operation was called while the session holds no client
    | DeleteRejected     // a batch of delete requests was rejected as a whole

  /** Either the operation's value or the error it threw. */
  datatype Result<+T> = Ok(value: T) | Err(error: Error)

  function Min(a: nat, b: nat): nat
  {
    if a <= b then a else b
  }
}
