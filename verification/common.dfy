/** Shared vocabulary of the route handlers: identifiers, the optional value a
    document lookup yields, and the result a handler produces (an updated
    document, or the error the handler answers with). */
module Common {

  /** User identifiers are compared through their string form (`toString()`),
      so the model treats them as opaque strings. */
  type UserId = string

  /** A registered user as the handlers read it: the id and the display
      name and avatar copied into posts and comments. Email and credential
      hash play no part in the modelled handlers. */
  datatype User = User(id: UserId, name: string, avatar: string)

  datatype Option<+T> = None | Some(value: T)

  /** The error responses of the handlers:
      - NotFound: 404 for a missing document or comment,
      - Unauthorized: 401 for an ownership or authorship mismatch,
      - AlreadyReacted / NotReacted: 400 for a like/love precondition,
      - EntryNotFound: 404 for a missing experience or education entry,
      - ValidationError: 400 from the request validators,
      - ServerError: 500 from the catch block, reached when a handler
        dereferences a document that the lookup did not find. */
  datatype Error =
    | NotFound
    | Unauthorized
    | AlreadyReacted
    | NotReacted
    | EntryNotFound
    | ValidationError
    | ServerError

  datatype Result<+T> = Success(value: T) | Failure(error: Error)

  /** JavaScript truthiness of an optional string field of a request body:
      `undefined` and the empty string are falsy. */
  predicate Truthy(v: Option<string>) {
    v.Some? && v.value != ""
  }
}
