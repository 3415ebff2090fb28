/**
  The actix handlers `login` and `check_token` of the Rust service.
  The registry sits behind a `Mutex`; a handler either obtains the guard and
  does its whole map access under it, or finds the mutex poisoned and answers
  with an internal error.  `poisoned` stands for that second case, and the
  UUID the handler would generate is supplied as `freshToken`.
 */
module Rusty {
  import opened TokenStore
  import opened Messages

  /** `login`: the password is tested first, then the lock is taken, then the
      token is inserted and returned together with the user name. */
  function Login(m: Store, data: LoginData, freshToken: string, poisoned: bool): (r: Step)
    ensures r.response.status == Ok <==> data.password == Password && !poisoned
    ensures r.response.status == Forbidden <==> data.password != Password
    ensures r.response.status == InternalServerError <==> data.password == Password && poisoned
    ensures r.response.status != Ok ==> r.response.body == Empty && r.store == m
    ensures r.response.status == Ok ==>
      && r.response.body == Json(Token(freshToken, data.username))
      && SetsOnly(m, r.store, freshToken, data.username)
  {
    if data.password == Password then
      if !poisoned then
        Step(Response(Ok, Json(Token(freshToken, data.username))), Insert(m, freshToken, data.username))
      else
        Step(Bare(InternalServerError), m)
    else
      Step(Bare(Forbidden), m)
  }

  /** `check_token`: under the lock, answer with the stored user as plain
      text, or with an empty NotFound when the token is unknown. */
  function CheckToken(m: Store, token: string, poisoned: bool): (r: Step)
    ensures r.store == m
    ensures r.response.status == InternalServerError <==> poisoned
    ensures r.response.status == Ok <==> !poisoned && token in m
    ensures r.response.status == NotFound <==> !poisoned && token !in m
    ensures r.response.status == Ok ==> r.response.body == Text(m[token])
    ensures r.response.status != Ok ==> r.response.body == Empty
  {
    if poisoned then
      Step(Bare(InternalServerError), m)
    else
      match Lookup(m, token)
      case Some(user) => Step(Response(Ok, Text(user)), m)
      case None => Step(Bare(NotFound), m)
  }

  /** The token returned by a successful login is the key that was inserted:
      checking it straight afterwards yields the user who logged in. */
  lemma LoginThenCheck(m: Store, data: LoginData, freshToken: string)
    requires data.password == Password
    ensures Login(m, data, freshToken, false).response.body.Json?
    ensures
      var s := Login(m, data, freshToken, false);
      CheckToken(s.store, s.response.body.record.token, false).response
        == Response(Ok, Text(data.username))
  {
  }

  /** A successful login never disturbs a token that was already issued,
      as long as the new token is not one of them. */
  lemma LoginKeepsIssuedTokens(m: Store, data: LoginData, freshToken: string, poisoned: bool, token: string)
    requires freshToken !in m
    requires token in m
    ensures CheckToken(Login(m, data, freshToken, poisoned).store, token, false).response
      == Response(Ok, Text(m[token]))
  {
  }

  /** With a wrong password the state of the lock does not matter: the
      password test comes before the lock is taken. */
  lemma WrongPasswordIgnoresLock(m: Store, data: LoginData, freshToken: string, poisoned: bool)
    requires data.password != Password
    ensures Login(m, data, freshToken, poisoned) == Login(m, data, freshToken, !poisoned)
    ensures Login(m, data, freshToken, poisoned) == Step(Response(Forbidden, Empty), m)
  {
  }

  /** Checking a token changes nothing, so checking it again gives the same
      answer and the same registry. */
  lemma CheckIsIdempotent(m: Store, token: string, poisoned: bool)
    ensures
      var s := CheckToken(m, token, poisoned);
      CheckToken(s.store, token, poisoned) == s
  {
  }
}
