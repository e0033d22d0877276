/** Shared vocabulary of the accounting servicer: Go's nil pointers become
    `Option`, its `error` values become `Status`, and every reply of a backend
    collaborator is a `Reply` supplied from outside the model. */
module Common {

  datatype Option<+T> = None | Some(value: T)

  /** The opaque text of a collaborator's failure. */
  type Cause = string

  /** The gRPC status codes the servicer attaches to the errors it reports. */
  datatype Code = InvalidArgument | FailedPrecondition | Internal | Unavailable | AlreadyExists

  /** An error value as a handler returns it. */
  datatype Error =
      /** A collaborator's own error, handed back without a code of ours. */
    | Backend(cause: Cause)
      /** A status built with a code; its message quotes the listed errors. */
    | Categorized(code: Code, quotes: seq<Error>)
      /** The uncategorised error of a bulk add, naming the IMSIs that failed. */
    | Unlisted(imsis: seq<string>)

  /** What a handler returns in its `error` result: nil or an error. */
  datatype Status = Ok | Err(error: Error)

  datatype Result<+T> = Success(value: T) | Failure(error: Error)

  /** A collaborator's reply to one call. */
  datatype Reply = Done | Failed(cause: Cause)

  /** True when the message of `e` quotes the collaborator failure `c`,
      directly or through a status that wraps it. */
  predicate Quotes(e: Error, c: Cause) {
    match e
    case Backend(x) => x == c
    case Categorized(_, qs) => exists q | q in qs :: Quotes(q, c)
    case Unlisted(_) => false
  }
}
