/** The key-value store with expiry: the in-memory map, and the Redis commands it stands in for. */
module TtlStore {
  import opened Options

  /** Milliseconds. */
  type Instant = int

  /** The keys that admin logins use. */
  datatype Key = ChallengeKey(id: string) | AttemptsKey(id: string) | OtpKey(email: string)

  function KeyText(key: Key): string {
    match key
    case ChallengeKey(id) => "admin-login:" + id
    case AttemptsKey(id) => "admin-login-attempts:" + id
    case OtpKey(email) => "otp:" + email
  }

  /** Different keys have different texts, so they may stand for them. */
  lemma KeyTextInjective(a: Key, b: Key)
    requires KeyText(a) == KeyText(b)
    ensures a == b
  {
    var s, t := KeyText(a), KeyText(b);
    assert s[0] == 'o' <==> a.OtpKey?;
    assert t[0] == 'o' <==> b.OtpKey?;
    if a.OtpKey? {
      assert s[4..] == a.email && t[4..] == b.email;
    } else {
      assert s[11] == ':' <==> a.ChallengeKey?;
      assert t[11] == ':' <==> b.ChallengeKey?;
      if a.ChallengeKey? {
        assert s[12..] == a.id && t[12..] == b.id;
      } else {
        assert s[21..] == a.id && t[21..] == b.id;
      }
    }
  }

  datatype Value = Challenge(user: nat, email: string) | Code(text: string) | Counter(count: nat)

  /** No expiry stands for infinity. */
  datatype Entry = Entry(value: Value, expiresAt: Option<Instant>)

  type Store = map<Key, Entry>

  predicate Expired(entry: Entry, now: Instant) {
    entry.expiresAt.Some? && entry.expiresAt.value < now
  }

  function Lookup(s: Store, key: Key, now: Instant): Option<Value> {
    if key in s && !Expired(s[key], now) then Some(s[key].value) else None
  }

  /** An expired entry goes when it is looked at. */
  function Pruned(s: Store, key: Key, now: Instant): Store {
    if key in s && Expired(s[key], now) then s - {key} else s
  }

  function Expiry(ttlSeconds: nat, now: Instant): Option<Instant> {
    if ttlSeconds > 0 then Some(now + ttlSeconds * 1000) else None
  }

  function Put(s: Store, key: Key, value: Value, ttlSeconds: nat, now: Instant): Store {
    s[key := Entry(value, Expiry(ttlSeconds, now))]
  }

  /** The count after an increment; a missing counter starts from zero. */
  function NextCount(s: Store, key: Key, now: Instant): nat {
    match Lookup(s, key, now)
    case Some(Counter(n)) => n + 1
    case _ => 1
  }

  /** In memory every increment renews the time to live, on a Redis server only the first one sets it. */
  function Incremented(inMemory: bool, s: Store, key: Key, ttlSeconds: nat, now: Instant): Store {
    var count := NextCount(s, key, now);
    if inMemory || count == 1 then Put(s, key, Counter(count), ttlSeconds, now)
    else s[key := Entry(Counter(count), s[key].expiresAt)]
  }

  class RedisService {
    const inMemory: bool
    var entries: Store

    constructor (inMemory: bool)
      ensures this.inMemory == inMemory && entries == map[]
    {
      this.inMemory := inMemory;
      entries := map[];
    }

    method Get(key: Key, now: Instant) returns (value: Option<Value>)
      modifies `entries
      ensures value == Lookup(old(entries), key, now) && entries == Pruned(old(entries), key, now)
    {
      if key !in entries {
        return None;
      }
      var entry := entries[key];
      if entry.expiresAt.Some? && entry.expiresAt.value < now {
        entries := entries - {key};
        return None;
      }
      return Some(entry.value);
    }

    method Set(key: Key, value: Value, ttlSeconds: nat, now: Instant)
      modifies `entries
      ensures entries == Put(old(entries), key, value, ttlSeconds, now)
    {
      entries := entries[key := Entry(value, if ttlSeconds > 0 then Some(now + ttlSeconds * 1000) else None)];
    }

    method Del(key: Key)
      modifies `entries
      ensures entries == old(entries) - {key}
    {
      entries := entries - {key};
    }

    method Increment(key: Key, ttlSeconds: nat, now: Instant) returns (count: nat)
      modifies `entries
      ensures count == NextCount(old(entries), key, now)
      ensures entries == Incremented(inMemory, old(entries), key, ttlSeconds, now)
    {
      var current := Get(key, now);
      count := (if current.Some? && current.value.Counter? then current.value.count else 0) + 1;
      if inMemory || count == 1 {
        Set(key, Counter(count), ttlSeconds, now);
      } else {
        entries := entries[key := Entry(Counter(count), entries[key].expiresAt)];
      }
    }
  }
}
