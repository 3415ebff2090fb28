# Token issuer: a Dafny model of the login/check lifecycle

The repository implements one tiny session-token service twice: once as
actix handlers in Rust (`Rusty/src/main.rs`) and once as a Quarkus resource
in Java (`TokenResource.java`). Both keep a registry that maps token strings
to user names and offer two operations:

- **login**: if the password equals the constant `"test"`, mint a token,
  record `token -> username`, and answer OK with `{token, user}`. Otherwise
  answer Forbidden.
- **check**: look the token up. If it is present, answer OK with the stored
  user as text. If it is absent, Rust answers NotFound and Java answers
  UNAUTHORIZED.

The model has no HTTP layer. Each handler is a pure function from the
registry (a `map<string, string>`) and its inputs to a response and the new
registry. Modules:

- `TokenStore` (`token_store.dfy`) holds the registry type, `Insert` with
  `HashMap::insert` / `Map.put` overwrite semantics, `Lookup`, and the
  predicates `SetsOnly` ("exactly this entry was set") and `Extends`
  ("no entry was lost or changed").
- `Messages` (`messages.dfy`) holds the login body, the `Token` record
  (Rust `Token`, Java `TokenModel`), statuses, bodies and responses.
- `Rusty` (`rusty.dfy`) models `login` and `check_token`. The mutex is
  abstracted as one atomic step per handler plus a `poisoned` flag. A
  poisoned flag means `lock()` failed, and the handler answers
  InternalServerError.
- `TokenResource` (`token_resource.dfy`) models `login` and `check`. A
  `synchronizedMap` cannot be poisoned, so Java has no internal-error
  outcome.
- `Sessions` (`sessions.dfy`) handles sequences of requests with either
  implementation. It proves the lemmas that span several calls: keys are
  never removed, every minted token resolves, checks change nothing, and once the
  Rust lock is poisoned every request that needs it fails. When the Rust mutex is never poisoned,
  the two services differ only in the absent-token status.

The random UUID is a parameter, `freshToken`. Where a property needs tokens
to be new, this is a `FreshTokens` precondition. Without it, an insert
overwrites the old entry, as `SetsOnly` states.

The two implementations disagree on one point. For an unknown token, Rust
answers NotFound (`Rusty/src/main.rs:66`) and Java answers UNAUTHORIZED
(`TokenResource.java:46`). The Java test at `TokenResourceTests.java:90`
expects UNAUTHORIZED. The absent-token status is therefore kept per
implementation (`Sessions.AbsentStatus`). Neither implementation requires a
non-empty user name, so the model accepts any name.

## Model

| member | source | states |
|---|---|---|
| `TokenStore.Insert` | Rusty/src/main.rs:40 | inserting sets exactly `key -> value` and keeps every other entry; a new key grows the map by one; an existing key is overwritten and the size stays the same |
| `TokenStore.Lookup` | Java/src/main/java/fr/yelhouakmi/token/TokenResource.java:42-43 | a user comes back exactly when the key is present, and it is the stored user |
| `Rusty.Login` | Rusty/src/main.rs:33-51 | OK exactly when the password is "test" and the lock is free; Forbidden exactly when the password is wrong, whatever the lock; InternalServerError exactly when the password is right but the lock is poisoned; on every failure the body is empty and the map is unchanged; on OK the body is `Token(freshToken, username)` and the map gains exactly that entry |
| `Rusty.CheckToken` | Rusty/src/main.rs:54-70 | the map is never changed; InternalServerError exactly when the lock is poisoned; OK with the stored user as text exactly when the lock is free and the token is present; NotFound with an empty body exactly when the lock is free and the token is absent |
| `Rusty.LoginThenCheck` | Rusty/src/main.rs:39-64 | the token returned by a successful login is the inserted key, so checking it right away answers OK with the user's name |
| `Rusty.LoginKeepsIssuedTokens` | Rusty/src/main.rs:39-40 | a login with a new token never changes the answer for a token issued earlier |
| `Rusty.WrongPasswordIgnoresLock` | Rusty/src/main.rs:37-49 | with a wrong password the lock state makes no difference: the answer is an empty Forbidden and the map is unchanged |
| `Rusty.CheckIsIdempotent` | Rusty/src/main.rs:60-69 | checking a token twice gives the same answer and the same map |
| `TokenResource.Login` | Java/src/main/java/fr/yelhouakmi/token/TokenResource.java:27-36 | OK exactly when the password is "test", otherwise FORBIDDEN with no entity and `db` unchanged; on OK the entity is `TokenModel(freshToken, username)` and `db` gains exactly that entry |
| `TokenResource.Check` | Java/src/main/java/fr/yelhouakmi/token/TokenResource.java:40-47 | `db` is never changed; OK with the stored user exactly when the token is present; UNAUTHORIZED with no entity exactly when it is absent |
| `TokenResource.LoginThenCheck` | Java/src/test/java/token/TokenResourceTests.java:59-80 | logging in with password "test" and then checking the returned token answers OK with the user's name |
| `TokenResource.UnknownTokenUnauthorized` | Java/src/test/java/token/TokenResourceTests.java:83-90 | a token absent from `db` (for example "nope" on an empty `db`) is refused with UNAUTHORIZED, not NOT_FOUND |
| `Sessions.Handle` | Rusty/src/main.rs:33-70 | for either service, an accepted login answers OK with its token and sets exactly that entry; any other request leaves the registry alone; a login with a wrong password answers an empty Forbidden; in Rust, a check or a correct-password login under a poisoned lock answers an empty InternalServerError; a check with a free lock answers with the stored user or with that service's absent-token status |
| `Sessions.Run` | Java/src/main/java/fr/yelhouakmi/token/TokenResource.java:21-47 | over any sequence of requests, one response per request, and no key is ever removed |
| `Sessions.RunGrowth` | Java/src/main/java/fr/yelhouakmi/token/TokenResource.java:27-36 | over any run, the registry grows by at most one key per accepted login |
| `Sessions.RunKeys` | Java/src/main/java/fr/yelhouakmi/token/TokenResource.java:21-47 | after a run, the registry's keys are exactly the starting keys plus the tokens the run's accepted logins minted |
| `Sessions.NeverMintedIsAbsent` | Rusty/src/main.rs:61-66 | starting from an empty registry, a token that no login minted is absent, and a check on it answers NotFound (Rust) or UNAUTHORIZED (Java) |
| `Sessions.RunExtends` | Rusty/src/main.rs:39-40 | when minted tokens are fresh, every entry present at the start keeps its user through the whole run |
| `Sessions.MintedTokenResolves` | Rusty/src/main.rs:39-64 | when minted tokens are fresh, every accepted login in a run answered OK with its token and user, and at the end that token still resolves to that user |
| `Sessions.ChecksOnly` | Rusty/src/main.rs:60-69 | a run made only of checks leaves the registry as it was, and each check answers as it would on the original registry |
| `Sessions.HandleAgrees` | Rusty/src/main.rs:54-70 | without a poisoned lock, one request gives the same registry in both services, and the same response except Rust NotFound against Java UNAUTHORIZED |
| `Sessions.PoisonedRun` | Rusty/src/main.rs:38-69 | while the Rust lock is poisoned, the registry does not change, and every check and every correct-password login answers an empty InternalServerError |
| `Sessions.PoisonPersists` | Rusty/src/main.rs:38-69 | in a run where a poisoned lock stays poisoned, once one request finds the lock poisoned, that request and every later check or correct-password login answer an empty InternalServerError, and the registry at the end is the registry just before that request |
| `Sessions.RustAndJavaAgree` | Java/src/main/java/fr/yelhouakmi/token/TokenResource.java:27-47 | without a poisoned lock, both services reach the same registry over any run, and their responses differ only where Rust says NotFound and Java says UNAUTHORIZED |

## Left out

- HTTP server bootstrap, routing scopes, CORS rules and the `hello` endpoint (`Rusty/src/main.rs:72-130`) are framework plumbing.
- Loading `.env` and the log4rs configuration, and their panics (`Rusty/src/main.rs:132-155`), are environment I/O.
- JSON parsing of the login body is not modelled. This includes the Rust `unwrap` panic on a malformed body and the Java `NullPointerException` on a missing password. The handlers receive an already parsed `LoginData` with non-null strings.
- UUID generation is not modelled. Its result is the parameter `freshToken`, and uniqueness of UUIDs is an assumption (`FreshTokens`), not a theorem. So is the claim that two concurrent logins get distinct tokens.
- Real concurrency is not modelled. Each handler is one atomic step, and a concurrent execution is one of the sequences `Sessions.Run` covers. Java's `check` does `containsKey` and `get` as two separate synchronized calls. Nothing ever removes a key, so only an overwrite from a token collision could come between them, and that is excluded in the same way as above.
- The lock state is an input on each request, so `Sessions.Run` also accepts Rust runs where the lock recovers after being poisoned. A real `std::sync::Mutex` never recovers, because nothing in the service clears the poison. `Sessions.PoisonPersists` states what happens on the runs that can really occur, where a poisoned lock stays poisoned (`Sessions.PoisonSticks`).
- Nothing in the model poisons the lock. A panic while the guard is held would poison it. The guard is held from `Rusty/src/main.rs:38` through the response built at lines 42-45. The one panic possible there comes from foreign code (`Uuid::new_v4` panics when the OS random source fails), so it is out of scope. An allocation failure aborts the process rather than unwinding, so it cannot poison the lock.
- Logging calls (`info!`, `Log.info`) have no behavioural content.
- `GreetingResource` and its test, and the `TokenModel` getters and setters, are left out. `TokenModel` is the `Token` datatype.
- Numeric HTTP codes and content types are not modelled. Responses carry a symbolic status and a body. Rust's `body("")` and Java's entity-less response are both `Empty`.
