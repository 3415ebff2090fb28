/**
  The values that cross the boundary of the two handlers: the parsed login
  body, the token record handed back on success, and the HTTP response the
  handler builds.  Both implementations share them.
 */
module Messages {
  import opened TokenStore

  /** The fixed password both login handlers compare against. */
  const Password: string := "test"

  /** The login request body, already deserialised. */
  datatype LoginData = LoginData(username: string, password: string)

  /** The issued token and the user it belongs to (Rust `Token`,
      Java `TokenModel`). */
  datatype Token = Token(token: string, user: string)

  /** The statuses the handlers can answer with. */
  datatype Status = Ok | Forbidden | NotFound | Unauthorized | InternalServerError

  /** A response body: nothing, the token record as JSON, or plain text. */
  datatype Body = Empty | Json(record: Token) | Text(text: string)

  datatype Response = Response(status: Status, body: Body)

  /** What one handler invocation produces: its response and the registry
      as it stands afterwards. */
  datatype Step = Step(response: Response, store: Store)

  /** The response with a status and no body. */
  function Bare(status: Status): Response
  {
    Response(status, Empty)
  }
}
