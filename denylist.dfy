/**
 * The refresh-token denylist (internal/handlers/handlers.go,
 * blacklistRefreshToken and isRefreshTokenBlacklisted): a revoked token is
 * stored under `blrt:<token>` with the value "1" until its own "exp" second.
 */
module Denylist {
  import opened Wrappers
  import opened Text
  import opened Cache
  import opened Lockout

  function BlacklistKey(token: string): string {
    "blrt:" + token
  }

  /** Denylist keys never collide with the throttling keys of any email. */
  lemma {:induction false} DenylistKeysSeparate(token: string, email: string)
    ensures BlacklistKey(token) != AttemptKey(email)
    ensures BlacklistKey(token) != LockKey(email)
  {
    assert BlacklistKey(token)[0] == 'b';
    assert AttemptKey(email)[0] == 'l' && LockKey(email)[0] == 'l';
  }

  /** isRefreshTokenBlacklisted: the denylist entry reads "1". */
  predicate IsRefreshTokenBlacklisted(m: Entries, token: string, now: int) {
    Lookup(m, BlacklistKey(token), now) == Some(Text("1"))
  }

  /** blacklistRefreshToken, as a function of the store: lifetime `exp - now`. */
  function AfterBlacklist(m: Entries, token: string, exp: int, now: int): Entries {
    AfterSet(m, BlacklistKey(token), Text("1"), exp - now, now)
  }

  /**
   * A revoked token reads as revoked from the moment of revocation until its
   * "exp" second, and afterwards the record is gone, so the denylist holds
   * no expired token.
   */
  lemma BlacklistLifetime(m: Entries, token: string, exp: int, now: int, t: int)
    requires now <= t
    ensures exp > now && t < exp ==> IsRefreshTokenBlacklisted(AfterBlacklist(m, token, exp, now), token, t)
    ensures exp > now && t >= exp ==> !IsRefreshTokenBlacklisted(AfterBlacklist(m, token, exp, now), token, t)
    ensures exp <= now ==> IsRefreshTokenBlacklisted(AfterBlacklist(m, token, exp, now), token, t)
  {
  }

  /** Revoking a token leaves every email's throttling state as it was. */
  lemma BlacklistKeepsThrottling(m: Entries, token: string, exp: int, now: int, email: string, t: int)
    ensures var m' := AfterBlacklist(m, token, exp, now);
      && Attempts(m', email, t) == Attempts(m, email, t)
      && IsLocked(m', email, t) == IsLocked(m, email, t)
      && (Invariant(m, email, t) ==> Invariant(m', email, t))
  {
    DenylistKeysSeparate(token, email);
    var m' := AfterBlacklist(m, token, exp, now);
    assert AttemptKey(email) in m' <==> AttemptKey(email) in m;
    assert LockKey(email) in m' <==> LockKey(email) in m;
  }

  /** Failed and successful logins never touch the denylist. */
  lemma ThrottlingKeepsDenylist(m: Entries, email: string, token: string, now: int, t: int)
    ensures IsRefreshTokenBlacklisted(AfterFailedAttempt(m, email, now), token, t) == IsRefreshTokenBlacklisted(m, token, t)
    ensures IsRefreshTokenBlacklisted(AfterReset(m, email), token, t) == IsRefreshTokenBlacklisted(m, token, t)
  {
    DenylistKeysSeparate(token, email);
  }

  /** blacklistRefreshToken on the shared store. */
  method BlacklistRefreshToken(store: Store, token: string, exp: int, now: int)
    modifies store
    ensures store.entries == AfterBlacklist(old(store.entries), token, exp, now)
  {
    store.Set(BlacklistKey(token), Text("1"), exp - now, now);
  }
}
