/**
 * AuthMiddleware of internal/middleware/middleware.go: the guard chain every
 * protected request passes. The JWT parser with the configured secret is the
 * oracle `parse`; the user row is read from the users table by primary key.
 */
module Middleware {
  import opened Wrappers
  import opened Text
  import opened Jwt
  import opened Users

  const BearerPrefix: string := "Bearer "

  const TokenRequiredMessage: string := "Token required"
  const InvalidTokenMessage: string := "Invalid token"
  const InvalidUserMessage: string := "Invalid user in token"
  const StaleTokenMessage: string := "Token is no longer valid, please login again."

  /** A request either stops with 401 and a message, or goes on with a user id recorded. */
  datatype AuthOutcome = Reject(message: string) | Accept(userId: nat)

  /**
   * The password-change rule: the token names an "iat" second, its user
   * loads, the user changed the password, and that change came strictly
   * after the token was issued.
   */
  predicate Stale(c: Claims, users: UserTable) {
    && c.iat.Some?
    && c.userId.Some?
    && c.userId.value in users.rows
    && users.rows[c.userId.value].passwordChangedAt.Some?
    && c.iat.value < users.rows[c.userId.value].passwordChangedAt.value
  }

  /** The checks applied to the token string once it has been taken out of the header. */
  function AuthenticateToken(token: string, parse: string -> Decoded, users: UserTable, now: int): (r: AuthOutcome)
    ensures r == Reject(InvalidTokenMessage) <==> !Verified(parse(token), now)
    ensures r == Reject(InvalidUserMessage) <==> Verified(parse(token), now) && parse(token).claims.userId.None?
    ensures r == Reject(StaleTokenMessage) <==>
      Verified(parse(token), now) && parse(token).claims.userId.Some? && Stale(parse(token).claims, users)
    ensures r.Accept? <==>
      Verified(parse(token), now) && parse(token).claims.userId.Some? && !Stale(parse(token).claims, users)
    ensures r.Accept? ==> Some(r.userId) == parse(token).claims.userId
    ensures r.Reject? ==> r.message in {InvalidTokenMessage, InvalidUserMessage, StaleTokenMessage}
  {
    var d := parse(token);
    if !Verified(d, now) then Reject(InvalidTokenMessage)
    else if d.claims.userId.None? then Reject(InvalidUserMessage)
    else if Stale(d.claims, users) then Reject(StaleTokenMessage)
    else Accept(d.claims.userId.value)
  }

  /**
   * AuthMiddleware: a header without the "Bearer " prefix (the empty header
   * included) is refused before anything is parsed; otherwise the header
   * minus that prefix is the token.
   */
  function AuthMiddleware(header: string, parse: string -> Decoded, users: UserTable, now: int): (r: AuthOutcome)
    ensures r == Reject(TokenRequiredMessage) <==> !HasPrefix(header, BearerPrefix)
    ensures HasPrefix(header, BearerPrefix) ==>
      BearerPrefix + TrimPrefix(header, BearerPrefix) == header &&
      r == AuthenticateToken(TrimPrefix(header, BearerPrefix), parse, users, now)
  {
    if header == "" || !HasPrefix(header, BearerPrefix) then Reject(TokenRequiredMessage)
    else AuthenticateToken(TrimPrefix(header, BearerPrefix), parse, users, now)
  }

  /** The header "Bearer " + t is judged on exactly the token t. */
  lemma BearerTokenExtracted(token: string, parse: string -> Decoded, users: UserTable, now: int)
    ensures AuthMiddleware(BearerPrefix + token, parse, users, now) == AuthenticateToken(token, parse, users, now)
  {
    TrimPrefixOfConcat(BearerPrefix, token);
  }

  /**
   * The stale check is strict: a token whose "iat" is the very second of the
   * change passes, one issued a second earlier does not.
   */
  lemma StaleIsStrict(c: Claims, users: UserTable, id: nat, at: int)
    requires c.userId == Some(id) && id in users.rows && users.rows[id].passwordChangedAt == Some(at)
    ensures c.iat == Some(at) ==> !Stale(c, users)
    ensures c.iat == Some(at - 1) ==> Stale(c, users)
  {
  }

  /**
   * A verified token with a numeric user id passes whenever it has no "iat",
   * its user is not in the table, or the user never changed the password.
   */
  lemma StaleCheckSkipped(token: string, parse: string -> Decoded, users: UserTable, now: int)
    requires Verified(parse(token), now) && parse(token).claims.userId.Some?
    requires var c := parse(token).claims;
      || c.iat.None?
      || c.userId.value !in users.rows
      || users.rows[c.userId.value].passwordChangedAt.None?
    ensures AuthenticateToken(token, parse, users, now) == Accept(parse(token).claims.userId.value)
  {
  }
}
