/** Optional values, results, and the client errors the relay answers with. */
module Common {

  datatype Option<+T> = None | Some(value: T)

  datatype Result<+T, +E> = Ok(value: T) | Err(error: E)

  /** The failures the HTTP handlers answer with (status 400, 404 or 500). */
  datatype Error =
    | MissingParameter  // a required query parameter or field is empty
    | InvalidInput      // the request body did not bind
    | TooFewMembers     // fewer than two members listed
    | NameRequired      // empty conversation name
    | NotFound          // no member set for the conversation
    | InfoUnavailable   // getConversationInfo failed: the conversation has no name
}
