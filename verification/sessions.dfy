/**
  Sequences of requests handled one after another against one registry, for
  either implementation.  Each handler is one atomic step, so any interleaving
  of concurrent requests is one such sequence.
 */
module Sessions {
  import opened TokenStore
  import opened Messages
  import Rusty
  import TokenResource

  /** Which of the two services handles the requests. */
  datatype Impl = Rust | Java

  /** One request: a login with the token the service would generate, or a
      check.  `poisoned` says the Rust mutex cannot be locked; the Java
      `synchronizedMap` has no such state and ignores it. */
  datatype Request =
    | LoginRequest(data: LoginData, freshToken: string, poisoned: bool)
    | CheckRequest(token: string, poisoned: bool)

  /** The responses to a sequence of requests, in order, and the registry
      after the last one. */
  datatype Trace = Trace(responses: seq<Response>, store: Store)

  /** The status each implementation gives a token it does not know. */
  function AbsentStatus(impl: Impl): Status
  {
    match impl
    case Rust => NotFound
    case Java => Unauthorized
  }

  /** A login that the implementation accepts and that therefore mints its token. */
  predicate Granted(impl: Impl, req: Request)
  {
    && req.LoginRequest?
    && req.data.password == Password
    && (impl == Java || !req.poisoned)
  }

  /** A request whose Rust handler takes the lock: every check, and a login
      whose password passed the test. */
  predicate NeedsLock(req: Request)
  {
    req.CheckRequest? || req.data.password == Password
  }

  /** Dispatch one request to the implementation's handler. */
  function Handle(impl: Impl, m: Store, req: Request): (r: Step)
    ensures Granted(impl, req) ==>
      && r.response == Response(Ok, Json(Token(req.freshToken, req.data.username)))
      && SetsOnly(m, r.store, req.freshToken, req.data.username)
    ensures !Granted(impl, req) ==> r.store == m && !r.response.body.Json?
    ensures req.CheckRequest? && !(impl == Rust && req.poisoned) ==>
      r.response == (if req.token in m then Response(Ok, Text(m[req.token])) else Response(AbsentStatus(impl), Empty))
    ensures req.LoginRequest? && req.data.password != Password ==> r.response == Response(Forbidden, Empty)
    ensures impl == Rust && req.poisoned && NeedsLock(req) ==> r.response == Response(InternalServerError, Empty)
  {
    match impl
    case Rust =>
      (match req
       case LoginRequest(data, freshToken, poisoned) => Rusty.Login(m, data, freshToken, poisoned)
       case CheckRequest(token, poisoned) => Rusty.CheckToken(m, token, poisoned))
    case Java =>
      (match req
       case LoginRequest(data, freshToken, _) => TokenResource.Login(m, data, freshToken)
       case CheckRequest(token, _) => TokenResource.Check(m, token))
  }

  /** How many of the requests are granted logins. */
  function GrantedCount(impl: Impl, reqs: seq<Request>): nat
  {
    if reqs == [] then 0
    else (if Granted(impl, reqs[0]) then 1 else 0) + GrantedCount(impl, reqs[1..])
  }

  /** The tokens minted by the granted logins among the requests. */
  function Minted(impl: Impl, reqs: seq<Request>): set<string>
  {
    if reqs == [] then {}
    else (if Granted(impl, reqs[0]) then {reqs[0].freshToken} else {}) + Minted(impl, reqs[1..])
  }

  /** Handle the requests in order, threading the registry through. */
  function Run(impl: Impl, m: Store, reqs: seq<Request>): (r: Trace)
    ensures |r.responses| == |reqs|
    ensures m.Keys <= r.store.Keys
    decreases |reqs|
  {
    if reqs == [] then Trace([], m)
    else
      var s := Handle(impl, m, reqs[0]);
      var rest := Run(impl, s.store, reqs[1..]);
      Trace([s.response] + rest.responses, rest.store)
  }

  /** The registry grows by at most one key per granted login. */
  lemma {:induction false} RunGrowth(impl: Impl, m: Store, reqs: seq<Request>)
    ensures |Run(impl, m, reqs).store| <= |m| + GrantedCount(impl, reqs)
    decreases |reqs|
  {
    if reqs != [] {
      var s := Handle(impl, m, reqs[0]);
      RunGrowth(impl, s.store, reqs[1..]);
      if Granted(impl, reqs[0]) {
        assert s.store == Insert(m, reqs[0].freshToken, reqs[0].data.username);
      }
    }
  }

  /** Every token minted is distinct from the tokens already in `m` and from
      every other token minted in the same run (what UUID generation makes
      overwhelmingly likely). */
  predicate FreshTokens(impl: Impl, m: Store, reqs: seq<Request>)
  {
    && (forall i :: 0 <= i < |reqs| && Granted(impl, reqs[i]) ==> reqs[i].freshToken !in m)
    && (forall i, j :: 0 <= i < j < |reqs| && Granted(impl, reqs[i]) && Granted(impl, reqs[j]) ==>
          reqs[i].freshToken != reqs[j].freshToken)
  }

  /** The registry after a run holds exactly the tokens it started with and
      the tokens the run minted: no request ever removes a key. */
  lemma {:induction false} RunKeys(impl: Impl, m: Store, reqs: seq<Request>)
    ensures Run(impl, m, reqs).store.Keys == m.Keys + Minted(impl, reqs)
    decreases |reqs|
  {
    if reqs != [] {
      var s := Handle(impl, m, reqs[0]);
      RunKeys(impl, s.store, reqs[1..]);
    }
  }

  /** Starting from an empty registry, a token that no login of the run
      minted is unknown afterwards: a check on it answers with the
      implementation's absent-token status.  The proof is the appeal to
      `RunKeys`; automatic induction over `reqs` is switched off because it
      only adds an unneeded and costly proof attempt. */
  lemma {:induction false} NeverMintedIsAbsent(impl: Impl, reqs: seq<Request>, token: string)
    requires token !in Minted(impl, reqs)
    ensures token !in Run(impl, map[], reqs).store
    ensures Handle(impl, Run(impl, map[], reqs).store, CheckRequest(token, false)).response
      == Response(AbsentStatus(impl), Empty)
  {
    RunKeys(impl, map[], reqs);
  }

  /** Freshness of the remaining requests after the first one is handled. */
  lemma FreshTokensStep(impl: Impl, m: Store, reqs: seq<Request>)
    requires reqs != []
    requires FreshTokens(impl, m, reqs)
    ensures FreshTokens(impl, Handle(impl, m, reqs[0]).store, reqs[1..])
  {
    var s := Handle(impl, m, reqs[0]);
    var rest := reqs[1..];
    forall i | 0 <= i < |rest| && Granted(impl, rest[i])
      ensures rest[i].freshToken !in s.store
    {
      assert rest[i] == reqs[i + 1];
    }
    forall i, j | 0 <= i < j < |rest| && Granted(impl, rest[i]) && Granted(impl, rest[j])
      ensures rest[i].freshToken != rest[j].freshToken
    {
      assert rest[i] == reqs[i + 1] && rest[j] == reqs[j + 1];
    }
  }

  /** With fresh tokens, no entry is ever overwritten: every user a token
      was issued to stays its user for the rest of the run. */
  lemma {:induction false} RunExtends(impl: Impl, m: Store, reqs: seq<Request>)
    requires FreshTokens(impl, m, reqs)
    ensures Extends(m, Run(impl, m, reqs).store)
    decreases |reqs|
  {
    if reqs != [] {
      var s := Handle(impl, m, reqs[0]);
      if Granted(impl, reqs[0]) {
        assert reqs[0].freshToken !in m;
      }
      assert Extends(m, s.store);
      FreshTokensStep(impl, m, reqs);
      RunExtends(impl, s.store, reqs[1..]);
      ExtendsTransitive(m, s.store, Run(impl, s.store, reqs[1..]).store);
    }
  }

  /** With fresh tokens, every granted login of the run answered OK with its
      token and user, and that token still resolves to that user when the
      run is over. */
  lemma {:induction false} MintedTokenResolves(impl: Impl, m: Store, reqs: seq<Request>, i: int)
    requires FreshTokens(impl, m, reqs)
    requires 0 <= i < |reqs| && Granted(impl, reqs[i])
    ensures Run(impl, m, reqs).responses[i]
      == Response(Ok, Json(Token(reqs[i].freshToken, reqs[i].data.username)))
    ensures Handle(impl, Run(impl, m, reqs).store, CheckRequest(reqs[i].freshToken, false)).response
      == Response(Ok, Text(reqs[i].data.username))
    decreases |reqs|
  {
    var s := Handle(impl, m, reqs[0]);
    var rest := Run(impl, s.store, reqs[1..]);
    var r := Run(impl, m, reqs);
    assert r.responses == [s.response] + rest.responses && r.store == rest.store;
    FreshTokensStep(impl, m, reqs);
    if i == 0 {
      RunExtends(impl, s.store, reqs[1..]);
      assert rest.store[reqs[0].freshToken] == s.store[reqs[0].freshToken];
    } else {
      assert reqs[1..][i - 1] == reqs[i];
      MintedTokenResolves(impl, s.store, reqs[1..], i - 1);
    }
  }

  /** A run of checks alone leaves the registry as it was, and each check
      answers as it would have on the original registry: repeated checks of
      one token always give the same answer. */
  lemma {:induction false} ChecksOnly(impl: Impl, m: Store, reqs: seq<Request>)
    requires forall i :: 0 <= i < |reqs| ==> reqs[i].CheckRequest?
    ensures Run(impl, m, reqs).store == m
    ensures forall i :: 0 <= i < |reqs| ==>
      Run(impl, m, reqs).responses[i] == Handle(impl, m, reqs[i]).response
    decreases |reqs|
  {
    if reqs != [] {
      var s := Handle(impl, m, reqs[0]);
      assert s.store == m;
      ChecksOnly(impl, m, reqs[1..]);
      var r := Run(impl, m, reqs);
      forall i | 0 <= i < |reqs|
        ensures r.responses[i] == Handle(impl, m, reqs[i]).response
      {
        if i > 0 {
          assert reqs[1..][i - 1] == reqs[i];
        }
      }
    }
  }

  /** Two responses to the same request agree up to the absent-token status:
      they are equal, or Rust said NotFound where Java said UNAUTHORIZED. */
  predicate SameUpToAbsence(rust: Response, java: Response)
  {
    || rust == java
    || (rust == Response(NotFound, Empty) && java == Response(Unauthorized, Empty))
  }

  /** One request handled by both services without a poisoned mutex. */
  lemma HandleAgrees(m: Store, req: Request)
    requires !req.poisoned
    ensures Handle(Rust, m, req).store == Handle(Java, m, req).store
    ensures SameUpToAbsence(Handle(Rust, m, req).response, Handle(Java, m, req).response)
  {
    var sr := Handle(Rust, m, req);
    var sj := Handle(Java, m, req);
    if Granted(Rust, req) {
      SetsOnlyDetermines(m, sr.store, sj.store, req.freshToken, req.data.username);
    }
  }

  /** Two response sequences agree position by position up to the
      absent-token status. */
  predicate AllSameUpToAbsence(rust: seq<Response>, java: seq<Response>)
  {
    && |rust| == |java|
    && forall i :: 0 <= i < |rust| ==> SameUpToAbsence(rust[i], java[i])
  }

  lemma AllSameUpToAbsenceCons(x: Response, y: Response, rust: seq<Response>, java: seq<Response>)
    requires SameUpToAbsence(x, y) && AllSameUpToAbsence(rust, java)
    ensures AllSameUpToAbsence([x] + rust, [y] + java)
  {
    var a, b := [x] + rust, [y] + java;
    forall i | 0 <= i < |a|
      ensures SameUpToAbsence(a[i], b[i])
    {
      if i > 0 {
        assert a[i] == rust[i - 1] && b[i] == java[i - 1];
      }
    }
  }

  /** When the Rust mutex is never poisoned the two services are
      interchangeable except on one point: they build the same registry and
      answer alike, except that where Rust says NotFound Java says
      UNAUTHORIZED. */
  lemma {:induction false} RustAndJavaAgree(m: Store, reqs: seq<Request>)
    requires forall i :: 0 <= i < |reqs| ==> !reqs[i].poisoned
    ensures Run(Rust, m, reqs).store == Run(Java, m, reqs).store
    ensures AllSameUpToAbsence(Run(Rust, m, reqs).responses, Run(Java, m, reqs).responses)
    decreases |reqs|
  {
    if reqs != [] {
      var sr := Handle(Rust, m, reqs[0]);
      var sj := Handle(Java, m, reqs[0]);
      HandleAgrees(m, reqs[0]);
      var tail := reqs[1..];
      forall i | 0 <= i < |tail|
        ensures !tail[i].poisoned
      {
        assert tail[i] == reqs[i + 1];
      }
      RustAndJavaAgree(sr.store, tail);
      var tr := Run(Rust, sr.store, tail);
      var tj := Run(Java, sj.store, tail);
      AllSameUpToAbsenceCons(sr.response, sj.response, tr.responses, tj.responses);
    }
  }

  /** A `std::sync::Mutex` that is poisoned stays poisoned: nothing in the
      service clears it, so once a request finds the lock poisoned, every
      later request does too. */
  predicate PoisonSticks(reqs: seq<Request>)
  {
    forall i, j :: 0 <= i < j < |reqs| && reqs[i].poisoned ==> reqs[j].poisoned
  }

  /** While the Rust lock is poisoned, the registry is frozen and every
      request that needs the lock answers InternalServerError. */
  lemma {:induction false} PoisonedRun(m: Store, reqs: seq<Request>)
    requires forall i :: 0 <= i < |reqs| ==> reqs[i].poisoned
    ensures Run(Rust, m, reqs).store == m
    ensures forall i :: 0 <= i < |reqs| && NeedsLock(reqs[i]) ==>
      Run(Rust, m, reqs).responses[i] == Response(InternalServerError, Empty)
    decreases |reqs|
  {
    if reqs != [] {
      var s := Handle(Rust, m, reqs[0]);
      assert s.store == m;
      var tail := reqs[1..];
      forall i | 0 <= i < |tail|
        ensures tail[i].poisoned
      {
        assert tail[i] == reqs[i + 1];
      }
      PoisonedRun(m, tail);
      var r := Run(Rust, m, reqs);
      var t := Run(Rust, m, tail);
      assert r.responses == [s.response] + t.responses;
      forall i | 0 <= i < |reqs| && NeedsLock(reqs[i])
        ensures r.responses[i] == Response(InternalServerError, Empty)
      {
        if i > 0 {
          assert tail[i - 1] == reqs[i];
          assert r.responses[i] == t.responses[i - 1];
        }
      }
    }
  }

  /** Once a request finds the Rust lock poisoned, that request and every
      later one that needs the lock (a check, or a login with the right
      password) answers InternalServerError, and the registry no longer
      changes. */
  lemma {:induction false} PoisonPersists(m: Store, reqs: seq<Request>, k: int)
    requires PoisonSticks(reqs)
    requires 0 <= k < |reqs| && reqs[k].poisoned
    ensures forall j :: k <= j < |reqs| && NeedsLock(reqs[j]) ==>
      Run(Rust, m, reqs).responses[j] == Response(InternalServerError, Empty)
    ensures Run(Rust, m, reqs).store == Run(Rust, m, reqs[..k]).store
    decreases |reqs|
  {
    var s := Handle(Rust, m, reqs[0]);
    var tail := reqs[1..];
    var r := Run(Rust, m, reqs);
    var t := Run(Rust, s.store, tail);
    assert r.responses == [s.response] + t.responses;
    if k == 0 {
      forall i | 0 <= i < |reqs|
        ensures reqs[i].poisoned
      {
        if i > 0 {
          assert reqs[0].poisoned;
        }
      }
      PoisonedRun(m, reqs);
      assert reqs[..k] == [];
    } else {
      forall i, j | 0 <= i < j < |tail| && tail[i].poisoned
        ensures tail[j].poisoned
      {
        assert tail[i] == reqs[i + 1] && tail[j] == reqs[j + 1];
      }
      assert tail[k - 1] == reqs[k];
      PoisonPersists(s.store, tail, k - 1);
      forall j | k <= j < |reqs| && NeedsLock(reqs[j])
        ensures r.responses[j] == Response(InternalServerError, Empty)
      {
        assert tail[j - 1] == reqs[j];
        assert r.responses[j] == t.responses[j - 1];
      }
      var before := reqs[..k];
      assert before[0] == reqs[0];
      assert before[1..] == tail[..k - 1];
      assert Run(Rust, m, before).store == Run(Rust, s.store, tail[..k - 1]).store;
    }
  }
}
