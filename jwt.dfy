/**
 * JSON Web Tokens (RFC 7519) as claim records. Encoding and HMAC-SHA256
 * signing (section 3.2 of RFC 7518) are not modelled: parsing a token string
 * yields a `Decoded` value telling whether the signature matched the shared
 * secret, and `Verified` is the check the parser applies before a token is
 * reported valid.
 */
module Jwt {
  import opened Wrappers

  /** Lifetime of an access token, in seconds. */
  const AccessLifetime: int := 60 * 60
  /** Lifetime of a refresh token, in seconds. */
  const RefreshLifetime: int := 7 * 24 * 60 * 60

  /**
   * The claims the handlers read or write. `userId` and `iat` are None when
   * the claim is missing or not a number; `exp` is the "exp" claim of
   * section 4.1.4 of RFC 7519 and `iat` the "iat" claim of section 4.1.6,
   * both in seconds since the epoch; `kind` is the "type" claim.
   */
  datatype Claims = Claims(userId: Option<nat>, exp: Option<int>, iat: Option<int>, kind: Option<string>)

  /** The outcome of parsing a token string with the shared secret. */
  datatype Decoded = Malformed | Decoded(claims: Claims, signatureOk: bool)

  /**
   * The parser accepts a token when it is well formed, its signature matches
   * and, if it has an "exp" claim, that second has not been reached.
   */
  predicate Verified(d: Decoded, now: int) {
    d.Decoded? && d.signatureOk && (d.claims.exp.None? || now < d.claims.exp.value)
  }

  /** generateJWT: an access token for `userId` issued at `now`, without "iat". */
  function GenerateJwt(userId: nat, now: int): (c: Claims)
    ensures c.userId == Some(userId) && c.iat.None? && c.kind.None?
    ensures forall t {:trigger Verified(Decoded(c, true), t)} ::
      Verified(Decoded(c, true), t) <==> t < now + AccessLifetime
  {
    Claims(Some(userId), Some(now + AccessLifetime), None, None)
  }

  /** generateJWTWithIat: an access token that records its issue second `iat`. */
  function GenerateJwtWithIat(userId: nat, iat: int): (c: Claims)
    ensures c.userId == Some(userId) && c.iat == Some(iat) && c.kind.None?
    ensures forall t {:trigger Verified(Decoded(c, true), t)} ::
      Verified(Decoded(c, true), t) <==> t < iat + AccessLifetime
  {
    Claims(Some(userId), Some(iat + AccessLifetime), Some(iat), None)
  }

  /** generateRefreshToken: a refresh token for `userId` issued at `now`. */
  function GenerateRefreshToken(userId: nat, now: int): (c: Claims)
    ensures c.userId == Some(userId) && c.iat.None? && c.kind == Some("refresh")
    ensures forall t {:trigger Verified(Decoded(c, true), t)} ::
      Verified(Decoded(c, true), t) <==> t < now + RefreshLifetime
  {
    Claims(Some(userId), Some(now + RefreshLifetime), None, Some("refresh"))
  }
}
