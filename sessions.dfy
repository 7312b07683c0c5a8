/**
 * Properties of whole sessions: how the tokens the handlers issue fare at
 * the middleware and at the refresh endpoint over time, and how a run of
 * logins drives the lockout.
 */
module Sessions {
  import opened Wrappers
  import opened Text
  import opened Cache
  import opened Jwt
  import opened Users
  import opened Lockout
  import opened Denylist
  import opened Handlers
  import opened Middleware

  /**
   * The token of a successful login authenticates its user for one hour and
   * is refused as invalid afterwards. It carries no "iat", so this holds
   * against any later users table: a password change does not revoke it.
   */
  lemma LoginTokenLifetime(m: Entries, users: UserTable, matches: (string, string) -> bool,
                           isEmail: string -> bool, req: LoginRequest, now: int,
                           parse: string -> Decoded, token: string, later: UserTable, t: int)
    requires users.WellKeyed()
    requires LoginStep(m, users, matches, isEmail, req, now).reply.LoginOk?
    requires parse(token) == Decoded(LoginStep(m, users, matches, isEmail, req, now).reply.token, true)
    ensures var u := FindByEmail(users, ToLower(req.email));
      && u.Some?
      && (t < now + AccessLifetime ==> AuthMiddleware(BearerPrefix + token, parse, later, t) == Accept(u.value.id))
      && (t >= now + AccessLifetime ==> AuthMiddleware(BearerPrefix + token, parse, later, t) == Reject(InvalidTokenMessage))
  {
    LoginSuccess(m, users, matches, isEmail, req, now, t);
    BearerTokenExtracted(token, parse, later, t);
  }

  /**
   * After a password change the token it returns authenticates its user for
   * one hour, while any otherwise valid token of that user whose "iat" is
   * earlier than the change second is refused as stale.
   */
  lemma PasswordChangeRevokesOlderTokens(t: UserTable, id: nat, req: UpdateUserRequest, hash: string, now: int,
                                         parse: string -> Decoded, newToken: string, oldToken: string, s: int)
    requires t.Valid()
    requires UpdateUserStep(t, id, req, hash, now).reply.PasswordChanged?
    requires parse(newToken) == Decoded(UpdateUserStep(t, id, req, hash, now).reply.token, true)
    ensures var t' := UpdateUserStep(t, id, req, hash, now).users;
      && (s < now + AccessLifetime ==> AuthMiddleware(BearerPrefix + newToken, parse, t', s) == Accept(id))
      && (s >= now + AccessLifetime ==> AuthMiddleware(BearerPrefix + newToken, parse, t', s) == Reject(InvalidTokenMessage))
      && (Verified(parse(oldToken), s) && parse(oldToken).claims.userId == Some(id) &&
          parse(oldToken).claims.iat.Some? && parse(oldToken).claims.iat.value < now ==>
            AuthMiddleware(BearerPrefix + oldToken, parse, t', s) == Reject(StaleTokenMessage))
  {
    var t' := UpdateUserStep(t, id, req, hash, now).users;
    PasswordChangeStamps(t, id, req, hash, now);
    UpdateUserKeepsValid(t, id, req, hash, now);
    BearerTokenExtracted(newToken, parse, t', s);
    BearerTokenExtracted(oldToken, parse, t', s);
  }

  /**
   * Once Logout has accepted a refresh token, RefreshToken never again
   * issues an access token for it: it is denylisted until its "exp" second
   * and the parser refuses it from then on.
   */
  lemma LogoutEndsRefresh(m: Entries, parse: string -> Decoded, req: RefreshRequest, now: int, t: int)
    requires 0 <= now <= t
    requires LogoutStep(m, parse, req, now).reply.LoggedOut?
    ensures !RefreshToken(LogoutStep(m, parse, req, now).entries, parse, req, t).Refreshed?
  {
    var d := parse(req.refreshToken);
    var exp := d.claims.exp.GetOr(0);
    var m' := LogoutStep(m, parse, req, now).entries;
    BlacklistLifetime(m, req.refreshToken, exp, now, t);
    if exp > now && t >= exp {
      assert d.claims.exp == Some(exp);
      assert !Verified(d, t);
    }
  }

  /** Logout's reply does not depend on the store: an already revoked token is revoked again. */
  lemma LogoutIgnoresDenylist(m: Entries, m2: Entries, parse: string -> Decoded, req: RefreshRequest, now: int)
    requires req.refreshToken != "" && IsRefreshTokenBlacklisted(m, req.refreshToken, now)
    requires Verified(parse(req.refreshToken), now)
    ensures LogoutStep(m, parse, req, now).reply == LogoutStep(m2, parse, req, now).reply == LoggedOut
    ensures IsRefreshTokenBlacklisted(LogoutStep(m, parse, req, now).entries, req.refreshToken, now)
  {
    var exp := parse(req.refreshToken).claims.exp.GetOr(0);
    BlacklistLifetime(m, req.refreshToken, exp, now, now);
  }

  /**
   * The "type" claim is not checked: an access token that is not
   * denylisted and still valid buys a fresh access token at the refresh
   * endpoint, just as a refresh token does.
   */
  lemma RefreshAcceptsAccessToken(m: Entries, parse: string -> Decoded, token: string, userId: nat, issued: int, t: int)
    requires token != "" && parse(token) == Decoded(GenerateJwt(userId, issued), true)
    requires !IsRefreshTokenBlacklisted(m, token, t) && t < issued + AccessLifetime
    ensures RefreshToken(m, parse, RefreshRequest(token), t) == Refreshed(GenerateJwt(userId, t))
  {
  }

  /** A refresh token, not denylisted, is exchanged for an access token throughout its week. */
  lemma RefreshTokenLifetime(m: Entries, parse: string -> Decoded, token: string, userId: nat, issued: int, t: int)
    requires token != "" && parse(token) == Decoded(GenerateRefreshToken(userId, issued), true)
    requires !IsRefreshTokenBlacklisted(m, token, t)
    ensures RefreshToken(m, parse, RefreshRequest(token), t).Refreshed? <==> t < issued + RefreshLifetime
  {
  }

  /** Login reads the denylist of no token and changes none of it. */
  lemma LoginKeepsDenylist(m: Entries, users: UserTable, matches: (string, string) -> bool,
                           isEmail: string -> bool, req: LoginRequest, now: int, token: string, t: int)
    requires users.WellKeyed()
    ensures IsRefreshTokenBlacklisted(LoginStep(m, users, matches, isEmail, req, now).entries, token, t) ==
            IsRefreshTokenBlacklisted(m, token, t)
  {
    ThrottlingKeepsDenylist(m, req.email, token, now, t);
  }

  // ---------------------------------------------------------------- runs of logins

  /** One login request and the second at which it arrives. */
  datatype Attempt = Attempt(req: LoginRequest, at: int)

  /** The store after a run of login requests, each handled at its own second. */
  function Replay(m: Entries, users: UserTable, matches: (string, string) -> bool,
                  isEmail: string -> bool, run: seq<Attempt>): Entries
    requires users.WellKeyed()
    decreases |run|
  {
    if run == [] then m
    else Replay(LoginStep(m, users, matches, isEmail, run[0].req, run[0].at).entries,
                users, matches, isEmail, run[1..])
  }

  /** The requests arrive in order, none before `start`. */
  predicate Ordered(start: int, run: seq<Attempt>) {
    && (forall i :: 0 <= i < |run| ==> start <= run[i].at)
    && (forall i, j :: 0 <= i < j < |run| ==> run[i].at <= run[j].at)
  }

  /** The second of the last request of the run, or `start` for an empty run. */
  function LastSecond(start: int, run: seq<Attempt>): int {
    if run == [] then start else run[|run| - 1].at
  }

  lemma OrderedTail(start: int, run: seq<Attempt>)
    requires Ordered(start, run) && run != []
    ensures Ordered(run[0].at, run[1..])
    ensures LastSecond(run[0].at, run[1..]) == LastSecond(start, run)
    ensures start <= run[0].at <= LastSecond(start, run)
  {
    assert forall i :: 0 <= i < |run[1..]| ==> run[1..][i] == run[i + 1];
  }

  /** Replaying a run and then one more request is replaying the longer run. */
  lemma {:induction false} ReplaySnoc(m: Entries, users: UserTable, matches: (string, string) -> bool,
                                      isEmail: string -> bool, run: seq<Attempt>, a: Attempt)
    requires users.WellKeyed()
    ensures Replay(m, users, matches, isEmail, run + [a]) ==
      LoginStep(Replay(m, users, matches, isEmail, run), users, matches, isEmail, a.req, a.at).entries
    decreases |run|
  {
    if run == [] {
      assert run + [a] == [a];
    } else {
      assert (run + [a])[0] == run[0];
      assert (run + [a])[1..] == run[1..] + [a];
      var m1 := LoginStep(m, users, matches, isEmail, run[0].req, run[0].at).entries;
      ReplaySnoc(m1, users, matches, isEmail, run[1..], a);
    }
  }

  /**
   * Over any run of logins arriving in order, an email's pressure at the
   * last request exceeds its pressure at the start by at most the number of
   * requests, and its throttling invariant holds throughout.
   */
  lemma {:induction false} ReplayPressureBound(m: Entries, users: UserTable, matches: (string, string) -> bool,
                                               isEmail: string -> bool, run: seq<Attempt>, start: int, email: string)
    requires users.WellKeyed() && Invariant(m, email, start) && Ordered(start, run)
    ensures var m' := Replay(m, users, matches, isEmail, run);
      var end := LastSecond(start, run);
      Invariant(m', email, end) && Pressure(m', email, end) <= Pressure(m, email, start) + |run|
    decreases |run|
  {
    if run != [] {
      var t := run[0].at;
      OrderedTail(start, run);
      InvariantAdvances(m, email, start, t);
      PressureDecays(m, email, start, t);
      var m1 := LoginStep(m, users, matches, isEmail, run[0].req, t).entries;
      LoginKeepsInvariant(m, users, matches, isEmail, run[0].req, t, email);
      ReplayPressureBound(m1, users, matches, isEmail, run[1..], t, email);
    }
  }

  /** A request that binds, for an email equal to `email` up to case, with credentials that do not match. */
  predicate WrongCredentials(users: UserTable, matches: (string, string) -> bool, isEmail: string -> bool,
                             req: LoginRequest, email: string)
    requires users.WellKeyed()
  {
    && LoginBound(req, isEmail)
    && ToLower(req.email) == ToLower(email)
    && (FindByEmail(users, ToLower(req.email)).None? ||
        !matches(FindByEmail(users, ToLower(req.email)).value.passwordHash, req.password))
  }

  /** The live counter and the live lock of `email` at second `t` both stay live until second `close`. */
  ghost predicate LastsUntil(m: Entries, email: string, t: int, close: int) {
    && (Lookup(m, AttemptKey(email), t).Some? ==> Outlives(m[AttemptKey(email)], close))
    && (Lookup(m, LockKey(email), t).Some? ==> Outlives(m[LockKey(email)], close))
  }

  /** Entries that last until `close` read the same at every second from `t` up to `close`. */
  lemma LastingLookups(m: Entries, email: string, t: int, s: int, close: int)
    requires LastsUntil(m, email, t, close) && t <= s < close
    ensures Lookup(m, AttemptKey(email), s) == Lookup(m, AttemptKey(email), t)
    ensures Lookup(m, LockKey(email), s) == Lookup(m, LockKey(email), t)
    ensures LastsUntil(m, email, s, close)
  {
    var ck, lk := AttemptKey(email), LockKey(email);
    if ck in m && LiveAt(m[ck], s) {
      LiveEarlier(m[ck], t, s);
    }
    if lk in m && LiveAt(m[lk], s) {
      LiveEarlier(m[lk], t, s);
    }
  }

  /**
   * One wrong-credential login at second `t`, with the email's entries
   * lasting until `close` and `close` at most 15 minutes after `start`:
   * the pressure goes up by one, to at most 5, and the entries still last
   * until `close`.
   */
  lemma FailureWithinWindow(m: Entries, users: UserTable, matches: (string, string) -> bool,
                            isEmail: string -> bool, req: LoginRequest, start: int, t: int, close: int, email: string)
    requires users.WellKeyed() && Invariant(m, email, start) && LastsUntil(m, email, start, close)
    requires start <= t < close <= start + LockWindow
    requires WrongCredentials(users, matches, isEmail, req, email)
    ensures var m' := LoginStep(m, users, matches, isEmail, req, t).entries;
      var p := Pressure(m, email, start) + 1;
      && Invariant(m', email, t)
      && LastsUntil(m', email, t, close)
      && Pressure(m', email, t) == (if p < MaxAttempts then p else MaxAttempts)
      && (Pressure(m, email, start) == MaxAttempts - 1 ==>
            LockKey(email) in m' && m'[LockKey(email)] == Entry(Text("1"), Some(t + LockWindow)))
  {
    var ck, lk := AttemptKey(email), LockKey(email);
    LastingLookups(m, email, start, t, close);
    InvariantAdvances(m, email, start, t);
    AttemptsBounded(m, email, start);
    AttemptsBounded(m, email, t);
    KeysFollowLowerCase(req.email, email);
    var m' := LoginStep(m, users, matches, isEmail, req, t).entries;
    if !IsLocked(m, req.email, t) {
      assert m' == AfterFailedAttempt(m, req.email, t);
      assert AfterFailedAttempt(m, req.email, t) == AfterFailedAttempt(m, email, t) by {
        assert AttemptKey(req.email) == ck;
        assert LockKey(req.email) == lk;
      }
      FailedAttemptStep(m, email, t);
    }
  }

  /**
   * A run of wrong-credential logins for one email, in order and all before
   * `close`, which is at most 15 minutes after the run's start: each raises
   * the email's pressure by one, up to 5.
   */
  lemma {:induction false} ReplayFailures(m: Entries, users: UserTable, matches: (string, string) -> bool,
                                          isEmail: string -> bool, run: seq<Attempt>, start: int, close: int, email: string)
    requires users.WellKeyed() && Invariant(m, email, start) && LastsUntil(m, email, start, close)
    requires Ordered(start, run) && close <= start + LockWindow
    requires forall i :: 0 <= i < |run| ==> run[i].at < close
    requires forall i :: 0 <= i < |run| ==> WrongCredentials(users, matches, isEmail, run[i].req, email)
    ensures var m' := Replay(m, users, matches, isEmail, run);
      var end := LastSecond(start, run);
      var p := Pressure(m, email, start) + |run|;
      && Invariant(m', email, end)
      && LastsUntil(m', email, end, close)
      && Pressure(m', email, end) == if p < MaxAttempts then p else MaxAttempts
    decreases |run|
  {
    if run != [] {
      var t := run[0].at;
      OrderedTail(start, run);
      FailureWithinWindow(m, users, matches, isEmail, run[0].req, start, t, close, email);
      var m1 := LoginStep(m, users, matches, isEmail, run[0].req, t).entries;
      assert forall i :: 0 <= i < |run[1..]| ==> run[1..][i] == run[i + 1];
      ReplayFailures(m1, users, matches, isEmail, run[1..], t, close, email);
    }
  }

  /**
   * Five wrong-credential logins for an email with no failures counted,
   * arriving in order within 15 minutes of `start`, lock it for 15 minutes
   * from the fifth: a further login for that email in that time, whatever
   * its case and even with the right password, is refused with 403 and
   * changes nothing.
   */
  lemma FiveFailuresLock(m: Entries, users: UserTable, matches: (string, string) -> bool,
                         isEmail: string -> bool, run: seq<Attempt>, start: int, email: string, next: Attempt)
    requires users.WellKeyed() && Invariant(m, email, start) && Pressure(m, email, start) == 0
    requires |run| == MaxAttempts && Ordered(start, run)
    requires forall i :: 0 <= i < |run| ==> run[i].at < start + LockWindow
    requires forall i :: 0 <= i < |run| ==> WrongCredentials(users, matches, isEmail, run[i].req, email)
    requires LoginBound(next.req, isEmail) && ToLower(next.req.email) == ToLower(email)
    requires LastSecond(start, run) <= next.at < LastSecond(start, run) + LockWindow
    ensures var m' := Replay(m, users, matches, isEmail, run);
      LoginStep(m', users, matches, isEmail, next.req, next.at) == LoginResult(LoginRejected(403, LockedMessage), m')
  {
    var close := start + LockWindow;
    var pre, last := run[..4], run[4];
    assert run == pre + [last];
    assert forall i :: 0 <= i < |pre| ==> pre[i] == run[i];
    var m4 := Replay(m, users, matches, isEmail, pre);
    var e4 := LastSecond(start, pre);
    AttemptsBounded(m, email, start);
    ReplayFailures(m, users, matches, isEmail, pre, start, close, email);
    assert e4 == run[3].at && start <= e4;
    FailureWithinWindow(m4, users, matches, isEmail, last.req, e4, last.at, close, email);
    ReplaySnoc(m, users, matches, isEmail, pre, last);
    KeysFollowLowerCase(next.req.email, email);
    assert IsLocked(Replay(m, users, matches, isEmail, run), next.req.email, next.at);
  }
}
