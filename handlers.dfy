/**
 * The session handlers of internal/handlers/handlers.go: Register, Login,
 * UpdateUser (which doubles as the password change), Logout and
 * RefreshToken, and the duplicated medication handlers of the same file.
 * The database is the users table and the medications table; Redis is the
 * shared `Store`; bcrypt's comparison, the email-format validator and the
 * JWT parser with the configured secret are the oracles `matches`, `isEmail`
 * and `parse`; the clock is the `now` argument, in seconds.
 */
module Handlers {
  import opened Wrappers
  import opened Text
  import opened Cache
  import opened Jwt
  import opened Users
  import opened Lockout
  import opened Denylist
  import opened Medicine

  const LockedMessage: string := "Account is locked due to too many failed login attempts. Please try again later."
  const InvalidCredentialsMessage: string := "Invalid email or password"
  const InvalidRefreshMessage: string := "Invalid refresh token"
  const BlacklistedMessage: string := "Refresh token is blacklisted"
  const InvalidUserMessage: string := "Invalid user in token"

  // ---------------------------------------------------------------- Login

  datatype LoginRequest = LoginRequest(email: string, password: string)

  /** 400 for a body that does not bind, otherwise an error status and message, or 200 with a token. */
  datatype LoginReply = LoginBadRequest | LoginRejected(status: int, message: string) | LoginOk(token: Claims)

  datatype LoginResult = LoginResult(reply: LoginReply, entries: Entries)

  /** The binding rules of the login body: a well-formed email and a password. */
  predicate LoginBound(req: LoginRequest, isEmail: string -> bool) {
    req.email != "" && isEmail(req.email) && req.password != ""
  }

  /**
   * Login as a function of the Redis state: the lock is consulted first;
   * an unknown email and a wrong password are the same failure, counted once;
   * a success clears the counter and the lock and issues an access token.
   */
  function LoginStep(m: Entries, users: UserTable, matches: (string, string) -> bool,
                     isEmail: string -> bool, req: LoginRequest, now: int): LoginResult
    requires users.WellKeyed()
  {
    if !LoginBound(req, isEmail) then LoginResult(LoginBadRequest, m)
    else if IsLocked(m, req.email, now) then LoginResult(LoginRejected(403, LockedMessage), m)
    else match FindByEmail(users, ToLower(req.email))
      case None =>
        LoginResult(LoginRejected(401, InvalidCredentialsMessage), AfterFailedAttempt(m, req.email, now))
      case Some(u) =>
        if !matches(u.passwordHash, req.password) then
          LoginResult(LoginRejected(401, InvalidCredentialsMessage), AfterFailedAttempt(m, req.email, now))
        else
          LoginResult(LoginOk(GenerateJwt(u.id, now)), AfterReset(m, req.email))
  }

  /** A locked email is refused with 403 whatever the password, and nothing changes. */
  lemma LoginLockedFirst(m: Entries, users: UserTable, matches: (string, string) -> bool,
                         isEmail: string -> bool, req: LoginRequest, now: int)
    requires users.WellKeyed()
    requires LoginBound(req, isEmail) && IsLocked(m, req.email, now)
    ensures LoginStep(m, users, matches, isEmail, req, now) == LoginResult(LoginRejected(403, LockedMessage), m)
  {
  }

  /**
   * An unknown email and a wrong password give the identical 401 reply and
   * the identical effect: one more counted failure.
   */
  lemma LoginFailuresIndistinguishable(m: Entries, users: UserTable, matches: (string, string) -> bool,
                                       isEmail: string -> bool, req: LoginRequest, now: int)
    requires users.WellKeyed()
    requires LoginBound(req, isEmail) && !IsLocked(m, req.email, now)
    requires FindByEmail(users, ToLower(req.email)).None? ||
             !matches(FindByEmail(users, ToLower(req.email)).value.passwordHash, req.password)
    ensures LoginStep(m, users, matches, isEmail, req, now) ==
      LoginResult(LoginRejected(401, InvalidCredentialsMessage), AfterFailedAttempt(m, req.email, now))
  {
  }

  /**
   * A successful login issues `{user_id, exp = now + 3600}` without "iat" for
   * the user holding the lower-cased email, and leaves the email with no
   * counted failure and no lock.
   */
  lemma LoginSuccess(m: Entries, users: UserTable, matches: (string, string) -> bool,
                     isEmail: string -> bool, req: LoginRequest, now: int, t: int)
    requires users.WellKeyed()
    requires LoginStep(m, users, matches, isEmail, req, now).reply.LoginOk?
    ensures var r := LoginStep(m, users, matches, isEmail, req, now);
      && FindByEmail(users, ToLower(req.email)).Some?
      && var u := FindByEmail(users, ToLower(req.email)).value;
      && matches(u.passwordHash, req.password)
      && r.reply.token == GenerateJwt(u.id, now)
      && !IsLocked(m, req.email, now)
      && Attempts(r.entries, req.email, t) == 0
      && !IsLocked(r.entries, req.email, t)
  {
    ResetStep(m, req.email, t);
  }

  /**
   * The converse: a request that binds, for an unlocked email whose
   * lower-cased form is stored, with a password the stored hash accepts, is
   * let in with a token for that user, and its counter and lock are cleared.
   */
  lemma LoginAdmits(m: Entries, users: UserTable, matches: (string, string) -> bool,
                    isEmail: string -> bool, req: LoginRequest, now: int, k: nat)
    requires users.Valid()
    requires LoginBound(req, isEmail) && !IsLocked(m, req.email, now)
    requires k in users.rows && users.rows[k].email == ToLower(req.email)
    requires matches(users.rows[k].passwordHash, req.password)
    ensures LoginStep(m, users, matches, isEmail, req, now) ==
      LoginResult(LoginOk(GenerateJwt(k, now)), AfterReset(m, req.email))
  {
    FindByEmailUnique(users, ToLower(req.email), k);
  }

  /**
   * Login keeps the throttling invariant of every email, and moves the
   * pressure of the requesting email up by at most one (and of any other
   * email not at all).
   */
  lemma LoginKeepsInvariant(m: Entries, users: UserTable, matches: (string, string) -> bool,
                            isEmail: string -> bool, req: LoginRequest, now: int, email: string)
    requires users.WellKeyed()
    requires Invariant(m, email, now)
    ensures var m' := LoginStep(m, users, matches, isEmail, req, now).entries;
      && Invariant(m', email, now)
      && Pressure(m', email, now) <= Pressure(m, email, now) + 1
      && (ToLower(req.email) != ToLower(email) ==> Pressure(m', email, now) == Pressure(m, email, now))
  {
    var r := LoginStep(m, users, matches, isEmail, req, now);
    AttemptsBounded(m, email, now);
    if r.entries == AfterFailedAttempt(m, req.email, now) && r.entries != m {
      if ToLower(req.email) == ToLower(email) {
        KeysFollowLowerCase(req.email, email);
        assert !IsLocked(m, req.email, now);
        FailedAttemptStep(m, email, now);
        assert AfterFailedAttempt(m, req.email, now) == AfterFailedAttempt(m, email, now) by {
          assert AttemptKey(req.email) == AttemptKey(email);
          assert LockKey(req.email) == LockKey(email);
        }
      } else {
        OtherEmailUntouched(m, email, req.email, now, now);
      }
    } else if r.entries == AfterReset(m, req.email) && r.entries != m {
      if ToLower(req.email) == ToLower(email) {
        KeysFollowLowerCase(req.email, email);
        ResetStep(m, email, now);
        assert AfterReset(m, req.email) == AfterReset(m, email) by {
          assert AttemptKey(req.email) == AttemptKey(email);
          assert LockKey(req.email) == LockKey(email);
        }
      } else {
        OtherEmailUntouched(m, email, req.email, now, now);
      }
    }
  }

  // ---------------------------------------------------------------- Register

  datatype RegisterRequest = RegisterRequest(username: string, email: string, password: string)

  datatype RegisterReply = RegisterBadRequest | RegisterConflict | Registered(id: nat, username: string, email: string)

  /** The binding rules of the register body. */
  predicate RegisterBound(req: RegisterRequest, isEmail: string -> bool) {
    && 3 <= |req.username| <= 32
    && req.email != "" && isEmail(req.email)
    && 6 <= |req.password| <= 64
  }

  /** The insert would break the unique constraint on username or email. */
  predicate Conflicts(t: UserTable, username: string, email: string) {
    exists k :: k in t.rows && (t.rows[k].username == username || t.rows[k].email == email)
  }

  // ---------------------------------------------------------------- UpdateUser

  /** An empty field means "leave unchanged". */
  datatype UpdateUserRequest = UpdateUserRequest(username: string, email: string, password: string)

  datatype UpdateUserReply =
    | UserNotFound
    | UsernameTaken
    | EmailTaken
    | UserUpdated(id: nat, username: string, email: string)
    | PasswordChanged(id: nat, username: string, email: string, token: Claims)

  datatype UpdateUserResult = UpdateUserResult(reply: UpdateUserReply, users: UserTable)

  /**
   * UpdateUser as a function of the users table: a new username or email
   * that another user holds stops the request before anything is saved; a
   * non-empty password stores the new hash, stamps the change second and
   * comes back with a token whose "iat" is that second.
   */
  function UpdateUserStep(t: UserTable, id: nat, req: UpdateUserRequest, hash: string, now: int): UpdateUserResult {
    if id !in t.rows then UpdateUserResult(UserNotFound, t)
    else
      var u := t.rows[id];
      var renames := req.username != "" && req.username != u.username;
      if renames && UsernameTakenByOther(t, req.username, u.id) then UpdateUserResult(UsernameTaken, t)
      else
        var u1 := if renames then u.(username := req.username) else u;
        var moves := req.email != "" && req.email != u1.email;
        if moves && EmailTakenByOther(t, req.email, u1.id) then UpdateUserResult(EmailTaken, t)
        else
          var u2 := if moves then u1.(email := req.email) else u1;
          if req.password != "" then
            var u3 := u2.(passwordHash := hash, passwordChangedAt := Some(now));
            UpdateUserResult(PasswordChanged(u3.id, u3.username, u3.email, GenerateJwtWithIat(u3.id, now)),
                             t.(rows := t.rows[id := u3]))
          else
            UpdateUserResult(UserUpdated(u2.id, u2.username, u2.email), t.(rows := t.rows[id := u2]))
  }

  /**
   * UpdateUser keeps the table well keyed and the unique constraints intact,
   * touches at most the row `id`, and persists nothing when it refuses.
   */
  lemma UpdateUserKeepsValid(t: UserTable, id: nat, req: UpdateUserRequest, hash: string, now: int)
    requires t.Valid()
    ensures var r := UpdateUserStep(t, id, req, hash, now);
      && r.users.Valid()
      && r.users.nextId == t.nextId
      && r.users.rows.Keys == t.rows.Keys
      && (forall k :: k in t.rows && k != id ==> r.users.rows[k] == t.rows[k])
      && (r.reply.UserNotFound? || r.reply.UsernameTaken? || r.reply.EmailTaken? ==> r.users == t)
  {
    var r := UpdateUserStep(t, id, req, hash, now);
    if id in t.rows && r.users != t {
      var u := t.rows[id];
      var nu := r.users.rows[id];
      assert nu.id == id;
      forall j, k | j in r.users.rows && k in r.users.rows && j != k
        ensures r.users.rows[j].username != r.users.rows[k].username
        ensures r.users.rows[j].email != r.users.rows[k].email
      {
        if j == id {
          assert !UsernameTakenByOther(t, nu.username, id) || nu.username == u.username;
          assert !EmailTakenByOther(t, nu.email, id) || nu.email == u.email;
        } else if k == id {
          assert !UsernameTakenByOther(t, nu.username, id) || nu.username == u.username;
          assert !EmailTakenByOther(t, nu.email, id) || nu.email == u.email;
        }
      }
    }
  }

  /**
   * A request that is not refused writes the new username and email, when
   * given, to the row `id`, and keeps them otherwise; a new username or
   * email is refused exactly when another user holds it.
   */
  lemma UpdateUserApplies(t: UserTable, id: nat, req: UpdateUserRequest, hash: string, now: int)
    requires t.WellKeyed() && id in t.rows
    ensures var r := UpdateUserStep(t, id, req, hash, now);
      var u := t.rows[id];
      && (r.reply.UsernameTaken? <==>
            req.username != "" && req.username != u.username && UsernameTakenByOther(t, req.username, id))
      && (r.reply.EmailTaken? <==>
            && !r.reply.UsernameTaken?
            && req.email != "" && req.email != u.email && EmailTakenByOther(t, req.email, id))
      && (!r.reply.UsernameTaken? && !r.reply.EmailTaken? ==>
            && (r.reply.UserUpdated? || r.reply.PasswordChanged?)
            && r.users.rows[id].id == id
            && r.users.rows[id].username == (if req.username != "" then req.username else u.username)
            && r.users.rows[id].email == (if req.email != "" then req.email else u.email)
            && r.reply.username == r.users.rows[id].username
            && r.reply.email == r.users.rows[id].email)
  {
  }

  /**
   * A non-empty password stamps `passwordChangedAt = now`, stores the new
   * hash and returns a token with iat = now and exp = now + 3600; an empty
   * password returns no token and leaves hash and stamp as they were.
   */
  lemma PasswordChangeStamps(t: UserTable, id: nat, req: UpdateUserRequest, hash: string, now: int)
    requires t.WellKeyed()
    ensures var r := UpdateUserStep(t, id, req, hash, now);
      && (r.reply.PasswordChanged? ==>
            && req.password != ""
            && r.users.rows[id].passwordChangedAt == Some(now)
            && r.users.rows[id].passwordHash == hash
            && r.reply.token == GenerateJwtWithIat(id, now))
      && (req.password == "" && id in t.rows ==>
            && !r.reply.PasswordChanged?
            && r.users.rows[id].passwordChangedAt == t.rows[id].passwordChangedAt
            && r.users.rows[id].passwordHash == t.rows[id].passwordHash)
      && (req.password != "" && (r.reply.UserUpdated? || r.reply.PasswordChanged?) ==> r.reply.PasswordChanged?)
  {
  }

  /** With a clock that does not run backwards, the change stamp only moves forward. */
  lemma PasswordChangedAtMonotone(t: UserTable, id: nat, req: UpdateUserRequest, hash: string, now: int)
    requires t.WellKeyed() && id in t.rows
    requires t.rows[id].passwordChangedAt.Some? ==> t.rows[id].passwordChangedAt.value <= now
    ensures var after := UpdateUserStep(t, id, req, hash, now).users.rows[id].passwordChangedAt;
      t.rows[id].passwordChangedAt.Some? ==> after.Some? && t.rows[id].passwordChangedAt.value <= after.value
  {
  }

  /**
   * UpdateUser stores a new email as given, without lower-casing it; a user
   * whose stored email holds an upper-case letter is then never found by
   * Login, whose lookup lower-cases the submitted email.
   */
  lemma MixedCaseEmailUnreachable(t: UserTable, id: nat, req: UpdateUserRequest, hash: string, now: int, submitted: string)
    requires t.Valid() && id in t.rows
    requires req.email != "" && exists i :: 0 <= i < |req.email| && IsUpper(req.email[i])
    requires UpdateUserStep(t, id, req, hash, now).reply.UserUpdated? ||
             UpdateUserStep(t, id, req, hash, now).reply.PasswordChanged?
    ensures var t' := UpdateUserStep(t, id, req, hash, now).users;
      && t'.rows[id].email == req.email
      && t'.WellKeyed()
      && (FindByEmail(t', ToLower(submitted)).Some? ==> FindByEmail(t', ToLower(submitted)).value.id != id)
  {
    var t' := UpdateUserStep(t, id, req, hash, now).users;
    UpdateUserKeepsValid(t, id, req, hash, now);
    var i :| 0 <= i < |req.email| && IsUpper(req.email[i]);
    if FindByEmail(t', ToLower(submitted)).Some? && FindByEmail(t', ToLower(submitted)).value.id == id {
      assert false;
    }
  }

  // ---------------------------------------------------------------- Logout and refresh

  datatype RefreshRequest = RefreshRequest(refreshToken: string)

  datatype LogoutReply = LogoutBadRequest | LogoutRejected(message: string) | LoggedOut

  datatype LogoutResult = LogoutResult(reply: LogoutReply, entries: Entries)

  /**
   * Logout as a function of the Redis state: a token the parser accepts is
   * revoked until its own "exp" second (0 when it has none); the denylist
   * itself is not consulted.
   */
  function LogoutStep(m: Entries, parse: string -> Decoded, req: RefreshRequest, now: int): LogoutResult {
    if req.refreshToken == "" then LogoutResult(LogoutBadRequest, m)
    else
      var d := parse(req.refreshToken);
      if !Verified(d, now) then LogoutResult(LogoutRejected(InvalidRefreshMessage), m)
      else LogoutResult(LoggedOut, AfterBlacklist(m, req.refreshToken, d.claims.exp.GetOr(0), now))
  }

  /**
   * Logout refuses an empty token with 400 and a token the parser refuses
   * with 401, and then stores nothing; a token it accepts is revoked.
   */
  lemma LogoutRefusals(m: Entries, parse: string -> Decoded, req: RefreshRequest, now: int)
    ensures var r := LogoutStep(m, parse, req, now);
      && (req.refreshToken == "" ==> r == LogoutResult(LogoutBadRequest, m))
      && (req.refreshToken != "" && !Verified(parse(req.refreshToken), now) ==>
            r == LogoutResult(LogoutRejected(InvalidRefreshMessage), m))
      && (r.reply.LoggedOut? <==> req.refreshToken != "" && Verified(parse(req.refreshToken), now))
      && (r.reply.LoggedOut? ==> IsRefreshTokenBlacklisted(r.entries, req.refreshToken, now))
  {
    if req.refreshToken != "" && Verified(parse(req.refreshToken), now) {
      BlacklistLifetime(m, req.refreshToken, parse(req.refreshToken).claims.exp.GetOr(0), now, now);
    }
  }

  /**
   * A successful Logout revokes the token from now until its "exp" second
   * (for good when that second has passed or is missing), and then no
   * longer; every other key of the store, and so every other token's
   * revocation and every email's counter and lock, stays as it was.
   */
  lemma LogoutRevokes(m: Entries, parse: string -> Decoded, req: RefreshRequest, now: int)
    requires LogoutStep(m, parse, req, now).reply.LoggedOut?
    ensures var m' := LogoutStep(m, parse, req, now).entries;
      var e := parse(req.refreshToken).claims.exp.GetOr(0);
      && (forall t :: now <= t && (e <= now || t < e) ==> IsRefreshTokenBlacklisted(m', req.refreshToken, t))
      && (e > now ==> forall t :: e <= t ==> !IsRefreshTokenBlacklisted(m', req.refreshToken, t))
      && (forall k :: k != BlacklistKey(req.refreshToken) ==> (k in m' <==> k in m))
      && (forall k :: k != BlacklistKey(req.refreshToken) && k in m ==> m'[k] == m[k])
      && (forall other, t :: other != req.refreshToken ==>
            IsRefreshTokenBlacklisted(m', other, t) == IsRefreshTokenBlacklisted(m, other, t))
      && (forall email, t :: Attempts(m', email, t) == Attempts(m, email, t) && IsLocked(m', email, t) == IsLocked(m, email, t))
  {
    var token := req.refreshToken;
    var e := parse(token).claims.exp.GetOr(0);
    var m' := LogoutStep(m, parse, req, now).entries;
    assert m' == AfterBlacklist(m, token, e, now);
    forall t | now <= t
      ensures (e <= now || t < e) ==> IsRefreshTokenBlacklisted(m', token, t)
      ensures e > now && e <= t ==> !IsRefreshTokenBlacklisted(m', token, t)
    {
      BlacklistLifetime(m, token, e, now, t);
    }
    forall other, t | other != token
      ensures IsRefreshTokenBlacklisted(m', other, t) == IsRefreshTokenBlacklisted(m, other, t)
    {
      PrefixInjective("blrt:", other, token);
    }
    forall email, t
      ensures Attempts(m', email, t) == Attempts(m, email, t) && IsLocked(m', email, t) == IsLocked(m, email, t)
    {
      BlacklistKeepsThrottling(m, token, e, now, email, t);
    }
  }

  datatype RefreshReply = RefreshBadRequest | RefreshRejected(message: string) | Refreshed(accessToken: Claims)

  /**
   * RefreshToken: the denylist is consulted before the token is parsed; a
   * token that is not denylisted, that the parser accepts and that carries a
   * numeric "user_id" buys a fresh access token for that user. The "type"
   * claim is not looked at, and nothing is stored.
   */
  function RefreshToken(m: Entries, parse: string -> Decoded, req: RefreshRequest, now: int): (r: RefreshReply)
    ensures req.refreshToken == "" <==> r == RefreshBadRequest
    ensures req.refreshToken != "" && IsRefreshTokenBlacklisted(m, req.refreshToken, now) ==>
      r == RefreshRejected(BlacklistedMessage)
    ensures r == RefreshRejected(InvalidRefreshMessage) <==>
      && req.refreshToken != ""
      && !IsRefreshTokenBlacklisted(m, req.refreshToken, now)
      && !Verified(parse(req.refreshToken), now)
    ensures r == RefreshRejected(InvalidUserMessage) <==>
      && req.refreshToken != ""
      && !IsRefreshTokenBlacklisted(m, req.refreshToken, now)
      && Verified(parse(req.refreshToken), now)
      && parse(req.refreshToken).claims.userId.None?
    ensures r.Refreshed? <==>
      && req.refreshToken != ""
      && !IsRefreshTokenBlacklisted(m, req.refreshToken, now)
      && Verified(parse(req.refreshToken), now)
      && parse(req.refreshToken).claims.userId.Some?
    ensures r.Refreshed? ==> r.accessToken == GenerateJwt(parse(req.refreshToken).claims.userId.value, now)
  {
    if req.refreshToken == "" then RefreshBadRequest
    else if IsRefreshTokenBlacklisted(m, req.refreshToken, now) then RefreshRejected(BlacklistedMessage)
    else
      var d := parse(req.refreshToken);
      if !Verified(d, now) then RefreshRejected(InvalidRefreshMessage)
      else if d.claims.userId.None? then RefreshRejected(InvalidUserMessage)
      else Refreshed(GenerateJwt(d.claims.userId.value, now))
  }

  // ---------------------------------------------------------------- medication handlers of handlers.go

  /** The create body of handlers.go: no type field. */
  datatype LegacyCreateRequest = LegacyCreateRequest(name: string, dose: string, scheduleType: string, description: string)

  /** The update body of handlers.go: no type field. */
  datatype LegacyUpdateRequest = LegacyUpdateRequest(name: string, dose: string, scheduleType: string, description: string)

  predicate ValidLegacyCreate(req: LegacyCreateRequest) {
    req.name != "" && req.dose != "" && req.scheduleType in ScheduleTypes
  }

  // ---------------------------------------------------------------- the handler object

  class Handlers {
    const cache: Store
    const medications: MedicationTable
    /** bcrypt.CompareHashAndPassword(hash, password) == nil */
    const matches: (string, string) -> bool
    /** the "email" binding rule */
    const isEmail: string -> bool
    /** jwt.Parse with the configured secret */
    const parse: string -> Decoded
    var users: UserTable

    ghost predicate Valid()
      reads this
    {
      users.Valid()
    }

    constructor (cache: Store, medications: MedicationTable, matches: (string, string) -> bool,
                 isEmail: string -> bool, parse: string -> Decoded)
      ensures Valid() && users == UserTable(map[], 1)
      ensures this.cache == cache && this.medications == medications
      ensures this.matches == matches && this.isEmail == isEmail && this.parse == parse
    {
      this.cache := cache;
      this.medications := medications;
      this.matches := matches;
      this.isEmail := isEmail;
      this.parse := parse;
      users := UserTable(map[], 1);
    }

    /**
     * Register: stores the email lower-cased; a username or email already
     * taken is a conflict and stores nothing.
     */
    method Register(req: RegisterRequest, hash: string) returns (r: RegisterReply)
      requires Valid()
      modifies this
      ensures Valid()
      ensures !RegisterBound(req, isEmail) ==> r == RegisterBadRequest && users == old(users)
      ensures RegisterBound(req, isEmail) && Conflicts(old(users), req.username, ToLower(req.email)) ==>
        r == RegisterConflict && users == old(users)
      ensures RegisterBound(req, isEmail) && !Conflicts(old(users), req.username, ToLower(req.email)) ==>
        && r == Registered(old(users).nextId, req.username, ToLower(req.email))
        && old(users).nextId !in old(users).rows
        && users == UserTable(
             old(users).rows[old(users).nextId := User(old(users).nextId, req.username, ToLower(req.email), hash, None)],
             old(users).nextId + 1)
    {
      if !RegisterBound(req, isEmail) {
        return RegisterBadRequest;
      }
      var email := ToLower(req.email);
      if Conflicts(users, req.username, email) {
        return RegisterConflict;
      }
      var id := users.nextId;
      var user := User(id, req.username, email, hash, None);
      users := UserTable(users.rows[id := user], id + 1);
      r := Registered(id, user.username, user.email);
    }

    /** Login: the lock, then the credentials, then the counters, in that order. */
    method Login(req: LoginRequest, now: int) returns (r: LoginReply)
      requires users.WellKeyed()
      modifies cache
      ensures LoginResult(r, cache.entries) == LoginStep(old(cache.entries), users, matches, isEmail, req, now)
    {
      if !LoginBound(req, isEmail) {
        return LoginBadRequest;
      }
      var locked := cache.Get(LockKey(req.email), now);
      if locked == Some(Text("1")) {
        return LoginRejected(403, LockedMessage);
      }
      var user := FindByEmail(users, ToLower(req.email));
      if user.None? {
        IncrementLoginAttempt(cache, req.email, now);
        return LoginRejected(401, InvalidCredentialsMessage);
      }
      if !matches(user.value.passwordHash, req.password) {
        IncrementLoginAttempt(cache, req.email, now);
        return LoginRejected(401, InvalidCredentialsMessage);
      }
      ResetLoginAttempt(cache, req.email);
      r := LoginOk(GenerateJwt(user.value.id, now));
    }

    /** UpdateUser: checks, then field by field on a copy of the row, then one save. */
    method UpdateUser(id: nat, req: UpdateUserRequest, hash: string, now: int) returns (r: UpdateUserReply)
      requires Valid()
      modifies this
      ensures Valid()
      ensures UpdateUserResult(r, users) == UpdateUserStep(old(users), id, req, hash, now)
    {
      UpdateUserKeepsValid(users, id, req, hash, now);
      if id !in users.rows {
        return UserNotFound;
      }
      var user := users.rows[id];
      if req.username != "" && req.username != user.username {
        if UsernameTakenByOther(users, req.username, user.id) {
          return UsernameTaken;
        }
        user := user.(username := req.username);
      }
      if req.email != "" && req.email != user.email {
        if EmailTakenByOther(users, req.email, user.id) {
          return EmailTaken;
        }
        user := user.(email := req.email);
      }
      var token: Option<Claims> := None;
      if req.password != "" {
        user := user.(passwordHash := hash, passwordChangedAt := Some(now));
        token := Some(GenerateJwtWithIat(user.id, now));
      }
      users := users.(rows := users.rows[id := user]);
      if token.Some? {
        r := PasswordChanged(user.id, user.username, user.email, token.value);
      } else {
        r := UserUpdated(user.id, user.username, user.email);
      }
    }

    /** Logout: validates the refresh token, then revokes it until its "exp". */
    method Logout(req: RefreshRequest, now: int) returns (r: LogoutReply)
      modifies cache
      ensures LogoutResult(r, cache.entries) == LogoutStep(old(cache.entries), parse, req, now)
    {
      if req.refreshToken == "" {
        return LogoutBadRequest;
      }
      var d := parse(req.refreshToken);
      if !Verified(d, now) {
        return LogoutRejected(InvalidRefreshMessage);
      }
      var exp := d.claims.exp.GetOr(0);
      BlacklistRefreshToken(cache, req.refreshToken, exp, now);
      r := LoggedOut;
    }

    /** CreateMedication of handlers.go: as Create, without the type field (stored as 0). */
    method CreateMedication(userId: nat, req: LegacyCreateRequest) returns (r: CreateReply)
      requires medications.Valid()
      modifies medications
      ensures medications.Valid()
      ensures !ValidLegacyCreate(req) ==>
        r == CreateBadRequest && medications.rows == old(medications.rows) && medications.nextId == old(medications.nextId)
      ensures ValidLegacyCreate(req) ==>
        && r == Created(Medication(old(medications.nextId), userId, 0, req.name, req.dose, req.scheduleType, req.description))
        && old(medications.nextId) !in old(medications.rows)
        && medications.rows == old(medications.rows)[old(medications.nextId) := r.med]
        && medications.nextId == old(medications.nextId) + 1
    {
      if !ValidLegacyCreate(req) {
        return CreateBadRequest;
      }
      var id := medications.nextId;
      var med := Medication(id, userId, 0, req.name, req.dose, req.scheduleType, req.description);
      medications.rows := medications.rows[id := med];
      medications.nextId := id + 1;
      r := Created(med);
    }

    /** UpdateMedication of handlers.go: as Update, with the type never touched. */
    method UpdateMedication(userId: nat, id: nat, req: LegacyUpdateRequest) returns (r: UpdateReply)
      requires medications.Valid()
      modifies medications
      ensures medications.Valid() && medications.nextId == old(medications.nextId)
      ensures old(medications.Owned(userId, id)).None? ==>
        r == UpdateNotFound && medications.rows == old(medications.rows)
      ensures old(medications.Owned(userId, id)).Some? ==>
        && r == Updated(Merge(old(medications.rows)[id], UpdateRequest(0, req.name, req.dose, req.scheduleType, req.description)))
        && r.med.kind == old(medications.rows)[id].kind
        && medications.rows == old(medications.rows)[id := r.med]
      ensures forall k :: k in old(medications.rows) && old(medications.rows)[k].userId != userId ==>
        k in medications.rows && medications.rows[k] == old(medications.rows)[k]
    {
      match medications.Owned(userId, id)
      case None =>
        r := UpdateNotFound;
      case Some(med) =>
        var merged := Merge(med, UpdateRequest(0, req.name, req.dose, req.scheduleType, req.description));
        medications.rows := medications.rows[id := merged];
        r := Updated(merged);
    }
  }
}
