/** What the mail provider answers when a call fails. */
module Provider {

  /** A rejected API call; `code` is the HTTP status the client library reports as `err.code`. */
  datatype ApiError = ApiError(code: int)

  /** The status of a create whose name is already taken. */
  const Conflict: int := 409

  /** The status of a call naming a message the mailbox does not hold. */
  const NotFound: int := 404
}
