/**
  The `/api/auth/login` route as far as the guard is concerned: field check,
  lock check, then the credential verdict, which either records a failure or
  clears the record. The user lookup and the bcrypt comparison are outside
  the model; their combined answer arrives in the request as `credentials`.
 */
module LoginRoute {
  import opened Results
  import opened Text
  import opened LoginGuard

  /** What the case-insensitive user lookup and the password comparison answer. */
  datatype CredentialCheck = NoSuchUser | WrongPassword | PasswordMatches

  datatype LoginRequest = LoginRequest(email: string, password: string, credentials: CredentialCheck, now: int)

  datatype LoginResponse =
    | MissingFields
    | TooManyAttempts
    | InvalidCredentials(attemptsRemaining: Option<nat>)
    | LoggedIn
  {
    /** The HTTP status the route sends; a success uses Express's default 200.
        Only a success is outside the 4xx client-error range. */
    function Status(): (code: nat)
      ensures code in {200, 400, 401, 429}
      ensures 400 <= code < 500 <==> !this.LoggedIn?
    {
      match this
      case MissingFields => 400
      case TooManyAttempts => 429
      case InvalidCredentials(_) => 401
      case LoggedIn => 200
    }
  }

  datatype LoginResult = LoginResult(response: LoginResponse, attempts: Attempts)

  /** Both fields are present (JavaScript treats the empty string as missing). */
  predicate HasFields(req: LoginRequest) {
    req.email != [] && req.password != []
  }

  /** The request gets past the field check and the lock check. */
  predicate Admitted(attempts: Attempts, req: LoginRequest) {
    HasFields(req) && !(req.email in attempts && LockedAt(attempts[req.email], req.now))
  }

  /** The failure count a rejected credential leaves: one more than the
      record's count, unless the record was at the threshold (and so, being
      admitted, expired) or absent, in which case counting restarts at one. */
  function CountAfterFailure(attempts: Attempts, email: string): nat {
    (if email in attempts && attempts[email].count < MaxLoginAttempts then attempts[email].count else 0) + 1
  }

  /** One login request against the guard. */
  function Login(attempts: Attempts, req: LoginRequest): (r: LoginResult)
    ensures r.response == MissingFields <==> !HasFields(req)
    ensures r.response == TooManyAttempts <==>
              HasFields(req) && req.email in attempts && LockedAt(attempts[req.email], req.now)
    ensures r.response == LoggedIn <==> Admitted(attempts, req) && req.credentials == PasswordMatches
    ensures r.response == InvalidCredentials(None) <==> Admitted(attempts, req) && req.credentials == NoSuchUser
    ensures r.response.InvalidCredentials? <==> Admitted(attempts, req) && req.credentials != PasswordMatches
    ensures !Admitted(attempts, req) ==> r.attempts == attempts
    ensures r.response == LoggedIn ==> req.email !in r.attempts
    ensures r.response.InvalidCredentials? ==>
              req.email in r.attempts
              && r.attempts[req.email] == AttemptRecord(CountAfterFailure(attempts, req.email), req.now)
    ensures r.response.InvalidCredentials? && req.credentials == WrongPassword ==>
              r.response.attemptsRemaining == Some(AttemptsRemaining(r.attempts, req.email))
    ensures OthersUnchanged(attempts, r.attempts, req.email)
  {
    if !HasFields(req) then LoginResult(MissingFields, attempts)
    else
      var check := IsAccountLocked(attempts, req.email, req.now);
      if check.locked then LoginResult(TooManyAttempts, check.attempts)
      else
        match req.credentials
        case NoSuchUser =>
          LoginResult(InvalidCredentials(None), RecordFailedLogin(check.attempts, req.email, req.now))
        case WrongPassword =>
          var after := RecordFailedLogin(check.attempts, req.email, req.now);
          LoginResult(InvalidCredentials(Some(AttemptsRemaining(after, req.email))), after)
        case PasswordMatches =>
          LoginResult(LoggedIn, ResetLoginAttempts(check.attempts, req.email))
  }

  /** A locked account is rejected before the credentials matter: the outcome
      and the map are the same whatever the lookup would have said. */
  lemma LockedIgnoresCredentials(attempts: Attempts, req: LoginRequest, other: CredentialCheck)
    requires HasFields(req) && IsAccountLocked(attempts, req.email, req.now).locked
    ensures Login(attempts, req) == Login(attempts, req.(credentials := other))
    ensures Login(attempts, req) == LoginResult(TooManyAttempts, attempts)
  {
  }

  /** Every record holds between one and five failures. */
  ghost predicate CountsBounded(attempts: Attempts) {
    forall e :: e in attempts ==> 1 <= attempts[e].count <= MaxLoginAttempts
  }

  /** One request keeps every count within bounds, whatever the clock says. */
  lemma LoginPreservesBound(attempts: Attempts, req: LoginRequest)
    requires CountsBounded(attempts)
    ensures CountsBounded(Login(attempts, req).attempts)
  {
    var after := Login(attempts, req).attempts;
    forall e | e in after
      ensures 1 <= after[e].count <= MaxLoginAttempts
    {
      if e != req.email {
        assert SameEntry(attempts, after, e);
      }
    }
  }

  /** Some request in `reqs` names `email`. */
  predicate Requested(reqs: seq<LoginRequest>, email: string) {
    exists i :: 0 <= i < |reqs| && reqs[i].email == email
  }

  lemma RequestedSnoc(reqs: seq<LoginRequest>, email: string)
    requires reqs != []
    ensures Requested(reqs, email) <==>
              Requested(reqs[..|reqs| - 1], email) || reqs[|reqs| - 1].email == email
  {
    var prefix := reqs[..|reqs| - 1];
    if Requested(prefix, email) {
      var i :| 0 <= i < |prefix| && prefix[i].email == email;
      assert reqs[i] == prefix[i];
    }
    if Requested(reqs, email) && reqs[|reqs| - 1].email != email {
      var i :| 0 <= i < |reqs| && reqs[i].email == email;
      assert prefix[i] == reqs[i];
    }
  }

  /** The map after a sequence of requests, handled one after another. Only
      e-mails that some request names can gain or lose a record. */
  function Run(attempts: Attempts, reqs: seq<LoginRequest>): (r: Attempts)
    ensures reqs == [] ==> r == attempts
    ensures forall e :: e in r && e !in attempts ==> Requested(reqs, e)
    ensures forall e :: e in attempts && e !in r ==> Requested(reqs, e)
  {
    if reqs == [] then attempts
    else
      var before := Run(attempts, reqs[..|reqs| - 1]);
      var last := reqs[|reqs| - 1];
      var after := Login(before, last).attempts;
      assert forall e :: Requested(reqs[..|reqs| - 1], e) || e == last.email ==> Requested(reqs, e) by {
        forall e | Requested(reqs[..|reqs| - 1], e) || e == last.email {
          RequestedSnoc(reqs, e);
        }
      }
      after
  }

  /** The bound holds after any sequence of requests. */
  lemma {:induction false} RunPreservesBound(attempts: Attempts, reqs: seq<LoginRequest>)
    requires CountsBounded(attempts)
    ensures CountsBounded(Run(attempts, reqs))
  {
    if reqs != [] {
      RunPreservesBound(attempts, reqs[..|reqs| - 1]);
      LoginPreservesBound(Run(attempts, reqs[..|reqs| - 1]), reqs[|reqs| - 1]);
    }
  }

  /** Requests for other e-mails never touch this e-mail's record. */
  lemma {:induction false} RunOthersUnchanged(attempts: Attempts, reqs: seq<LoginRequest>, email: string)
    requires forall i :: 0 <= i < |reqs| ==> reqs[i].email != email
    ensures SameEntry(attempts, Run(attempts, reqs), email)
  {
    if reqs != [] {
      var prefix := reqs[..|reqs| - 1];
      RunOthersUnchanged(attempts, prefix, email);
      assert SameEntry(Run(attempts, prefix), Run(attempts, reqs), email);
    }
  }

  /** Rejected credentials for the same e-mail, with no successful login between them. */
  predicate AllFailuresFor(reqs: seq<LoginRequest>, email: string) {
    forall i :: 0 <= i < |reqs| ==>
      reqs[i].email == email && reqs[i].password != [] && reqs[i].credentials != PasswordMatches
  }

  /** Up to five failures from a clean slate add up one by one, however far
      apart in time: below the threshold a record never expires. */
  lemma {:induction false} FailuresAccumulate(attempts: Attempts, email: string, reqs: seq<LoginRequest>)
    requires email !in attempts && email != []
    requires |reqs| <= MaxLoginAttempts && AllFailuresFor(reqs, email)
    ensures reqs == [] ==> email !in Run(attempts, reqs)
    ensures reqs != [] ==>
              email in Run(attempts, reqs)
              && Run(attempts, reqs)[email] == AttemptRecord(|reqs|, reqs[|reqs| - 1].now)
  {
    if reqs != [] {
      var prefix := reqs[..|reqs| - 1];
      assert AllFailuresFor(prefix, email);
      FailuresAccumulate(attempts, email, prefix);
    }
  }

  /** Fewer than five failures never lock, and the hint counts down from five. */
  lemma FewFailuresDoNotLock(attempts: Attempts, email: string, reqs: seq<LoginRequest>, now: int)
    requires email !in attempts && email != []
    requires |reqs| < MaxLoginAttempts && AllFailuresFor(reqs, email)
    ensures !IsAccountLocked(Run(attempts, reqs), email, now).locked
    ensures AttemptsRemaining(Run(attempts, reqs), email) == MaxLoginAttempts - |reqs|
  {
    FailuresAccumulate(attempts, email, reqs);
  }

  /** After five failures the account is locked until fifteen minutes have
      passed since the last of them, and unlocked from then on. */
  lemma FiveFailuresLock(attempts: Attempts, email: string, reqs: seq<LoginRequest>, now: int)
    requires email !in attempts && email != []
    requires |reqs| == MaxLoginAttempts && AllFailuresFor(reqs, email)
    ensures IsAccountLocked(Run(attempts, reqs), email, now).locked
            <==> now - reqs[|reqs| - 1].now < LockoutTime
    ensures AttemptsRemaining(Run(attempts, reqs), email) == 0
  {
    FailuresAccumulate(attempts, email, reqs);
  }

  // ---------------------------------------------------------------------
  // The lockout key is the e-mail as typed, but the user lookup ignores case.

  /** Any re-spelling of a locked e-mail's case gets its guess checked: with
      "a@x.com" locked, "A@x.com" and the right password logs in. */
  lemma LockoutBypassedByCase()
    ensures var attempts := map["a@x.com" := AttemptRecord(MaxLoginAttempts, 0)];
      && Login(attempts, LoginRequest("a@x.com", "secret", PasswordMatches, 1)).response == TooManyAttempts
      && Login(attempts, LoginRequest("A@x.com", "secret", PasswordMatches, 1)).response == LoggedIn
  {
    var attempts := map["a@x.com" := AttemptRecord(MaxLoginAttempts, 0)];
    assert "A@x.com" != "a@x.com" by {
      assert "A@x.com"[0] != "a@x.com"[0];
    }
    assert "A@x.com" !in attempts;
  }

  /** The route with the guard keyed by the lower-cased e-mail, matching the
      lookup's `LOWER(email)`. */
  function LoginCaseInsensitive(attempts: Attempts, req: LoginRequest): (r: LoginResult)
    ensures r.response == TooManyAttempts <==>
              HasFields(req) && Lower(req.email) in attempts && LockedAt(attempts[Lower(req.email)], req.now)
    ensures forall e :: e in r.attempts && e !in attempts ==> IsLowercase(e)
  {
    Login(attempts, req.(email := Lower(req.email)))
  }

  /** With the corrected key every spelling of an e-mail shares one counter,
      so re-spelling the case changes nothing. */
  lemma SpellingDoesNotMatter(attempts: Attempts, req: LoginRequest, spelling: string)
    requires Lower(spelling) == Lower(req.email)
    ensures LoginCaseInsensitive(attempts, req.(email := spelling)) == LoginCaseInsensitive(attempts, req)
  {
    assert req.(email := spelling).(email := Lower(spelling)) == req.(email := Lower(req.email));
  }

  /** The corrected route keeps the bound too. */
  lemma LoginCaseInsensitivePreservesBound(attempts: Attempts, req: LoginRequest)
    requires CountsBounded(attempts)
    ensures CountsBounded(LoginCaseInsensitive(attempts, req).attempts)
  {
    LoginPreservesBound(attempts, req.(email := Lower(req.email)));
  }
}
