/** Values shared by every component: errors, optional values, the credential
    attempt and the (matched, error) pair that every backend returns. */
module AuthTypes {

  datatype Option<+T> = None | Some(value: T)

  /** Errors, tagged by the layer that raised them. The wrapping kinds carry the
      error they wrap, so a caller can branch on the kind and still reach the cause. */
  datatype Error =
    | InvalidAddress              // the mail address does not split into two parts on '@'
    | BackendError(cause: Error)  // the backend reported a failure
    | AliasError(cause: Error)    // the user map could not resolve an alias
    | External(message: string)   // an error raised by a collaborator outside the core

  /** A value or an error, as a collaborator's `(value, error)` pair. */
  datatype Result<+T> = Success(value: T) | Failure(error: Error)

  /** One authentication attempt. */
  datatype Credentials = Credentials(username: string, password: string, domain: string)

  /** What a backend answers: whether the credential matched, and an error if the
      backend itself failed (then `matched` carries no meaning but is kept as given). */
  datatype Reply = Reply(matched: bool, err: Option<Error>)

  /** The answer "no match, no failure". */
  const Denied := Reply(false, None)

  /** A reply that ends a search over several backends: a match or a failure. */
  predicate Decisive(r: Reply) {
    r.matched || r.err.Some?
  }
}
