/**
 * Login throttling (internal/handlers/handlers.go, incrementLoginAttempt and
 * resetLoginAttempt): a per-email failure counter under
 * `login_attempt:<lower(email)>` that lives 15 minutes from the first
 * failure, and a 15-minute lock flag under `lock:<lower(email)>` set once the
 * counter reaches 5.
 */
module Lockout {
  import opened Wrappers
  import opened Text
  import opened Cache

  const MaxAttempts: int := 5
  /** Lifetime of the counter window and of the lock, in seconds. */
  const LockWindow: int := 15 * 60

  function AttemptKey(email: string): string {
    "login_attempt:" + ToLower(email)
  }

  function LockKey(email: string): string {
    "lock:" + ToLower(email)
  }

  /** Emails that differ only in letter case share one counter and one lock. */
  lemma {:induction false} KeysFollowLowerCase(e1: string, e2: string)
    ensures AttemptKey(e1) == AttemptKey(e2) <==> ToLower(e1) == ToLower(e2)
    ensures LockKey(e1) == LockKey(e2) <==> ToLower(e1) == ToLower(e2)
    ensures AttemptKey(e1) != LockKey(e2)
  {
    PrefixInjective("login_attempt:", ToLower(e1), ToLower(e2));
    PrefixInjective("lock:", ToLower(e1), ToLower(e2));
    assert AttemptKey(e1)[2] == 'g' && LockKey(e2)[2] == 'c';
  }

  /** Emails that differ only in the case of ASCII letters share one counter and one lock. */
  lemma CaseVariantsShareKeys(e1: string, e2: string)
    requires |e1| == |e2| && forall i :: 0 <= i < |e1| ==> SameIgnoringCase(e1[i], e2[i])
    ensures AttemptKey(e1) == AttemptKey(e2) && LockKey(e1) == LockKey(e2)
  {
    ToLowerEqualIffSameIgnoringCase(e1, e2);
  }

  /** The lock check of Login: the flag reads "1". */
  predicate IsLocked(m: Entries, email: string, now: int) {
    Lookup(m, LockKey(email), now) == Some(Text("1"))
  }

  /** The failures counted in the current window (0 when there is no counter). */
  function Attempts(m: Entries, email: string, now: int): int {
    match Lookup(m, AttemptKey(email), now)
    case Some(Counter(n)) => n
    case _ => 0
  }

  /** incrementLoginAttempt, as a function of the store. */
  function AfterFailedAttempt(m: Entries, email: string, now: int): Entries {
    var key := AttemptKey(email);
    // the error of INCR is discarded: the count then reads as 0
    var count := IncrReply(m, key, now).GetOr(0);
    var m1 := AfterIncr(m, key, now);
    var m2 := if count == 1 then AfterExpire(m1, key, LockWindow, now) else m1;
    if count >= MaxAttempts then AfterSet(m2, LockKey(email), Text("1"), LockWindow, now) else m2
  }

  /** resetLoginAttempt, as a function of the store. */
  function AfterReset(m: Entries, email: string): Entries {
    AfterDel(AfterDel(m, AttemptKey(email)), LockKey(email))
  }

  /** An entry that stays live at least until second `t`. */
  predicate Outlives(e: Entry, t: int) {
    e.expiresAt.None? || t <= e.expiresAt.value
  }

  /** The counter, while live, is a count in 1..5 whose window started no more than 15 minutes ago. */
  ghost predicate CounterShape(m: Entries, email: string, now: int) {
    var ck := AttemptKey(email);
    Lookup(m, ck, now).Some? ==>
      && m[ck].value.Counter?
      && 1 <= m[ck].value.n <= MaxAttempts
      && m[ck].expiresAt.Some?
      && m[ck].expiresAt.value <= now + LockWindow
  }

  /** A full counter is covered by a lock that lives at least as long. */
  ghost predicate FullCounterLocked(m: Entries, email: string, now: int) {
    var ck := AttemptKey(email);
    var lk := LockKey(email);
    Lookup(m, ck, now).Some? && m[ck].value == Counter(MaxAttempts) && m[ck].expiresAt.Some? ==>
      lk in m && Outlives(m[lk], m[ck].expiresAt.value)
  }

  /** A live lock flag always holds "1". */
  ghost predicate LockShape(m: Entries, email: string, now: int) {
    Lookup(m, LockKey(email), now).Some? ==> Lookup(m, LockKey(email), now) == Some(Text("1"))
  }

  /** The throttling invariant for one email at second `now`. */
  ghost predicate Invariant(m: Entries, email: string, now: int) {
    CounterShape(m, email, now) && FullCounterLocked(m, email, now) && LockShape(m, email, now)
  }

  /** An empty store satisfies the invariant. */
  lemma InvariantInitially(email: string, now: int)
    ensures Invariant(map[], email, now)
  {
  }

  /** Under the invariant the counter stays in 0..5, and a full counter means locked. */
  lemma AttemptsBounded(m: Entries, email: string, now: int)
    requires Invariant(m, email, now)
    ensures 0 <= Attempts(m, email, now) <= MaxAttempts
    ensures Attempts(m, email, now) == MaxAttempts ==> IsLocked(m, email, now)
  {
    var ck := AttemptKey(email);
    var lk := LockKey(email);
    if Attempts(m, email, now) == MaxAttempts {
      assert Lookup(m, ck, now).Some?;
      assert lk in m && LiveAt(m[lk], now);
    }
  }

  /** Letting time pass keeps the invariant. */
  lemma InvariantAdvances(m: Entries, email: string, now: int, later: int)
    requires Invariant(m, email, now) && now <= later
    ensures Invariant(m, email, later)
  {
    var ck := AttemptKey(email);
    if Lookup(m, ck, later).Some? {
      assert Lookup(m, ck, now).Some?;
    }
    if Lookup(m, LockKey(email), later).Some? {
      assert Lookup(m, LockKey(email), now).Some?;
    }
  }

  /**
   * One failed login from an unlocked state: the counter goes up by exactly
   * one, its window is opened by the first failure and never extended, the
   * account becomes locked exactly when the count reaches 5, with a lock that
   * lives 15 minutes, and the invariant is kept.
   */
  lemma FailedAttemptStep(m: Entries, email: string, now: int)
    requires Invariant(m, email, now) && !IsLocked(m, email, now)
    ensures var m' := AfterFailedAttempt(m, email, now);
      && Attempts(m', email, now) == Attempts(m, email, now) + 1
      && (IsLocked(m', email, now) <==> Attempts(m', email, now) == MaxAttempts)
      && (Attempts(m, email, now) == 0 ==> m'[AttemptKey(email)].expiresAt == Some(now + LockWindow))
      && (Attempts(m, email, now) > 0 ==> m'[AttemptKey(email)].expiresAt == m[AttemptKey(email)].expiresAt)
      && (IsLocked(m', email, now) ==> m'[LockKey(email)] == Entry(Text("1"), Some(now + LockWindow)))
      && Invariant(m', email, now)
  {
    var ck, lk := AttemptKey(email), LockKey(email);
    KeysFollowLowerCase(email, email);
    AttemptsBounded(m, email, now);
    var count := IncrReply(m, ck, now).GetOr(0);
    var m1 := AfterIncr(m, ck, now);
    var m2 := if count == 1 then AfterExpire(m1, ck, LockWindow, now) else m1;
    var m' := AfterFailedAttempt(m, email, now);
    assert count == Attempts(m, email, now) + 1;
    assert Lookup(m2, ck, now) == Some(Counter(count));
    assert Lookup(m2, lk, now) == Lookup(m, lk, now);
    if count >= MaxAttempts {
      assert m' == AfterSet(m2, lk, Text("1"), LockWindow, now);
      assert m'[ck] == m2[ck];
    } else {
      assert m' == m2;
    }
  }

  /** A successful login clears both keys, leaving nothing counted and nothing locked. */
  lemma ResetStep(m: Entries, email: string, t: int)
    ensures Attempts(AfterReset(m, email), email, t) == 0
    ensures !IsLocked(AfterReset(m, email), email, t)
    ensures Invariant(AfterReset(m, email), email, t)
  {
    KeysFollowLowerCase(email, email);
  }

  /**
   * How close an email is to being refused: 5 while locked, otherwise the
   * failures counted in the current window.
   */
  function Pressure(m: Entries, email: string, now: int): int {
    if IsLocked(m, email, now) then MaxAttempts else Attempts(m, email, now)
  }

  /** Letting time pass never brings an email closer to the lock. */
  lemma PressureDecays(m: Entries, email: string, now: int, later: int)
    requires Invariant(m, email, now) && now <= later
    ensures Pressure(m, email, later) <= Pressure(m, email, now)
  {
    AttemptsBounded(m, email, now);
    InvariantAdvances(m, email, now, later);
    AttemptsBounded(m, email, later);
    var ck := AttemptKey(email);
    if Lookup(m, ck, later).Some? {
      assert Lookup(m, ck, now).Some?;
    }
    if IsLocked(m, email, later) {
      assert IsLocked(m, email, now);
    }
  }

  /** Failures and resets for one email leave the keys of every other email alone. */
  lemma OtherEmailUntouched(m: Entries, email: string, other: string, now: int, t: int)
    requires ToLower(other) != ToLower(email)
    ensures var m' := AfterFailedAttempt(m, other, now);
      Lookup(m', AttemptKey(email), t) == Lookup(m, AttemptKey(email), t) &&
      Lookup(m', LockKey(email), t) == Lookup(m, LockKey(email), t) &&
      (AttemptKey(email) in m' <==> AttemptKey(email) in m) &&
      (AttemptKey(email) in m ==> m'[AttemptKey(email)] == m[AttemptKey(email)]) &&
      (LockKey(email) in m' <==> LockKey(email) in m) &&
      (LockKey(email) in m ==> m'[LockKey(email)] == m[LockKey(email)])
    ensures var m' := AfterReset(m, other);
      (AttemptKey(email) in m' <==> AttemptKey(email) in m) &&
      (AttemptKey(email) in m ==> m'[AttemptKey(email)] == m[AttemptKey(email)]) &&
      (LockKey(email) in m' <==> LockKey(email) in m) &&
      (LockKey(email) in m ==> m'[LockKey(email)] == m[LockKey(email)])
  {
    KeysFollowLowerCase(email, other);
    KeysFollowLowerCase(other, email);
  }

  /** incrementLoginAttempt on the shared store. */
  method IncrementLoginAttempt(store: Store, email: string, now: int)
    modifies store
    ensures store.entries == AfterFailedAttempt(old(store.entries), email, now)
  {
    var key := AttemptKey(email);
    var reply := store.Incr(key, now);
    var count := reply.GetOr(0);
    if count == 1 {
      store.Expire(key, LockWindow, now);
    }
    if count >= MaxAttempts {
      store.Set(LockKey(email), Text("1"), LockWindow, now);
    }
  }

  /** resetLoginAttempt on the shared store. */
  method ResetLoginAttempt(store: Store, email: string)
    modifies store
    ensures store.entries == AfterReset(old(store.entries), email)
  {
    store.Del(AttemptKey(email));
    store.Del(LockKey(email));
  }
}
