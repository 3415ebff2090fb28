/**
  The Quarkus resource `TokenResource` of the Java service: `login` and
  `check` over the static `db` map.  The map is a `synchronizedMap`, which
  has no poisoned state, so neither handler has an internal-error outcome;
  the UUID the handler would generate is supplied as `freshToken`.
 */
module TokenResource {
  import opened TokenStore
  import opened Messages

  /** `login`: on the right password, put `freshToken -> username` into `db`
      and answer with the `TokenModel`; otherwise FORBIDDEN. */
  function Login(db: Store, data: LoginData, freshToken: string): (r: Step)
    ensures r.response.status == Ok <==> data.password == Password
    ensures r.response.status == Forbidden <==> data.password != Password
    ensures r.response.status != Ok ==> r.response.body == Empty && r.store == db
    ensures r.response.status == Ok ==>
      && r.response.body == Json(Token(freshToken, data.username))
      && SetsOnly(db, r.store, freshToken, data.username)
  {
    if data.password == Password then
      Step(Response(Ok, Json(Token(freshToken, data.username))), Insert(db, freshToken, data.username))
    else
      Step(Bare(Forbidden), db)
  }

  /** `check`: answer with the stored user, or UNAUTHORIZED (not NOT_FOUND)
      when `db` does not contain the token. */
  function Check(db: Store, token: string): (r: Step)
    ensures r.store == db
    ensures r.response.status == Ok <==> token in db
    ensures r.response.status == Unauthorized <==> token !in db
    ensures r.response.status == Ok ==> r.response.body == Text(db[token])
    ensures r.response.status != Ok ==> r.response.body == Empty
  {
    match Lookup(db, token)
    case Some(user) => Step(Response(Ok, Text(user)), db)
    case None => Step(Bare(Unauthorized), db)
  }

  /** Logging in and then checking the returned token answers OK with the
      user who logged in. */
  lemma LoginThenCheck(db: Store, data: LoginData, freshToken: string)
    requires data.password == Password
    ensures Login(db, data, freshToken).response.body.Json?
    ensures
      var s := Login(db, data, freshToken);
      Check(s.store, s.response.body.record.token).response == Response(Ok, Text(data.username))
  {
  }

  /** A token that was never stored is refused with UNAUTHORIZED; on the
      initially empty `db` this holds for any token, e.g. "nope". */
  lemma UnknownTokenUnauthorized(db: Store, token: string)
    requires token !in db
    ensures Check(db, token).response == Response(Unauthorized, Empty)
    ensures Check(map[], "nope").response == Response(Unauthorized, Empty)
  {
  }
}
