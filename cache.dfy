/**
 * The Redis instance the handlers share, seen as a map from key to an entry
 * with an optional absolute expiry second. An entry whose expiry second has
 * been reached behaves exactly like a missing key. Each command is a pure
 * function on the map; `Store` is the shared client whose methods apply them.
 */
module Cache {
  import opened Wrappers

  /** Redis strings; a key written by INCR holds a counter. */
  datatype Value = Text(s: string) | Counter(n: int)

  /** `expiresAt == None` is a key without a time to live. */
  datatype Entry = Entry(value: Value, expiresAt: Option<int>)

  type Entries = map<string, Entry>

  predicate LiveAt(e: Entry, now: int) {
    e.expiresAt.None? || now < e.expiresAt.value
  }

  /** GET: the value of a key that exists and has not expired at `now`. */
  function Lookup(m: Entries, key: string, now: int): Option<Value> {
    if key in m && LiveAt(m[key], now) then Some(m[key].value) else None
  }

  /**
   * The reply of INCR: a missing or expired key counts from 0, a counter goes
   * up by one, and a text value is an error (None).
   */
  function IncrReply(m: Entries, key: string, now: int): Option<int> {
    match Lookup(m, key, now)
    case None => Some(1)
    case Some(Counter(n)) => Some(n + 1)
    case Some(Text(_)) => None
  }

  /** The store after INCR. */
  function AfterIncr(m: Entries, key: string, now: int): (m': Entries)
    ensures IncrReply(m, key, now).Some? ==>
      Lookup(m', key, now) == Some(Counter(IncrReply(m, key, now).value))
    // INCR never renews the time to live of a live key ...
    ensures Lookup(m, key, now).Some? ==> key in m' && m'[key].expiresAt == m[key].expiresAt
    // ... and a key it creates has none
    ensures Lookup(m, key, now).None? ==> key in m' && m'[key].expiresAt.None?
    ensures forall k :: k != key ==> (k in m' <==> k in m)
    ensures forall k :: k != key && k in m ==> m'[k] == m[k]
  {
    match Lookup(m, key, now)
    case None => m[key := Entry(Counter(1), None)]
    case Some(Counter(n)) => m[key := Entry(Counter(n + 1), m[key].expiresAt)]
    case Some(Text(_)) => m
  }

  /**
   * The store after EXPIRE key seconds: a live key now expires `seconds`
   * from `now` (at once when `seconds` is not positive); a missing key is
   * left missing.
   */
  function AfterExpire(m: Entries, key: string, seconds: int, now: int): (m': Entries)
    ensures Lookup(m, key, now).Some? && seconds > 0 ==>
      key in m' && m'[key] == m[key].(expiresAt := Some(now + seconds))
    ensures Lookup(m', key, now).Some? ==> seconds > 0 && Lookup(m, key, now).Some?
    ensures forall k :: k != key ==> (k in m' <==> k in m)
    ensures forall k :: k != key && k in m ==> m'[k] == m[k]
  {
    if Lookup(m, key, now).None? then m
    else if seconds > 0 then m[key := m[key].(expiresAt := Some(now + seconds))]
    else m - {key}
  }

  /**
   * The store after SET key value with a lifetime of `ttl` seconds; a
   * non-positive lifetime stores the key without expiry, as the client
   * library's Set does.
   */
  function AfterSet(m: Entries, key: string, v: Value, ttl: int, now: int): (m': Entries)
    ensures forall t :: t >= now && (ttl <= 0 || t < now + ttl) ==> Lookup(m', key, t) == Some(v)
    ensures ttl > 0 ==> Lookup(m', key, now + ttl) == None
    ensures forall k :: k != key ==> (k in m' <==> k in m)
    ensures forall k :: k != key && k in m ==> m'[k] == m[k]
  {
    m[key := Entry(v, if ttl > 0 then Some(now + ttl) else None)]
  }

  /** The store after DEL key. */
  function AfterDel(m: Entries, key: string): (m': Entries)
    ensures forall t :: Lookup(m', key, t) == None
    ensures forall k :: k != key ==> (k in m' <==> k in m)
    ensures forall k :: k != key && k in m ==> m'[k] == m[k]
  {
    m - {key}
  }

  /** A key that is live at `later` was already live at every earlier time. */
  lemma LiveEarlier(e: Entry, now: int, later: int)
    requires now <= later && LiveAt(e, later)
    ensures LiveAt(e, now)
  {
  }

  /** The shared Redis client. */
  class Store {
    var entries: Entries

    constructor ()
      ensures entries == map[]
    {
      entries := map[];
    }

    function Get(key: string, now: int): Option<Value>
      reads this
    {
      Lookup(entries, key, now)
    }

    method Incr(key: string, now: int) returns (count: Option<int>)
      modifies this
      ensures count == IncrReply(old(entries), key, now)
      ensures entries == AfterIncr(old(entries), key, now)
    {
      count := IncrReply(entries, key, now);
      entries := AfterIncr(entries, key, now);
    }

    method Expire(key: string, seconds: int, now: int)
      modifies this
      ensures entries == AfterExpire(old(entries), key, seconds, now)
    {
      entries := AfterExpire(entries, key, seconds, now);
    }

    method Set(key: string, v: Value, ttl: int, now: int)
      modifies this
      ensures entries == AfterSet(old(entries), key, v, ttl, now)
    {
      entries := AfterSet(entries, key, v, ttl, now);
    }

    method Del(key: string)
      modifies this
      ensures entries == AfterDel(old(entries), key)
    {
      entries := AfterDel(entries, key);
    }
  }
}
