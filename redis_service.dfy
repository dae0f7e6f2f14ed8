/** The cache policy of `RedisService`: a key-value store whose entries carry
    an expiry time, one key scheme for put, get and delete, a TTL with a
    floor of `MinCacheTtl`, errors of the client swallowed, and a bounded
    retry of the startup ping. */
module RedisService {
  import opened Optional

  /** `MIN_CACHE_TTL`, in seconds. */
  const MinCacheTtl: int := 300

  /** How many times `ping` tries before giving up. */
  const PingAttempts: nat := 5

  /** The cached `data` dict. Its JSON encoding is taken to be exact, so
      the store holds the dict itself. */
  type Payload = map<string, string>

  /** A stored value and the time (in seconds) at which Redis drops it. */
  datatype CacheEntry = CacheEntry(value: Payload, expiresAt: int)

  /** `max(MIN_CACHE_TTL, ttl_seconds or MIN_CACHE_TTL)`: `None` and `0` are
      falsy and fall back to the floor, and no TTL goes below the floor. */
  function CacheTtl(ttlSeconds: Option<int>): (ttl: int)
    ensures ttl >= MinCacheTtl
    ensures ttlSeconds.Some? && ttlSeconds.value >= MinCacheTtl ==> ttl == ttlSeconds.value
    ensures ttlSeconds.None? || ttlSeconds.value <= MinCacheTtl ==> ttl == MinCacheTtl
  {
    var requested := if ttlSeconds.None? || ttlSeconds.value == 0 then MinCacheTtl else ttlSeconds.value;
    if MinCacheTtl >= requested then MinCacheTtl else requested
  }

  /** `f"secret:{secret_id}"`, the one key all three operations use. */
  function CacheKey(secretId: string): (key: string)
    ensures |key| == |secretId| + 7
    ensures key[..7] == "secret:" && key[7..] == secretId
  {
    "secret:" + secretId
  }

  /** Different ids never share a key. */
  lemma CacheKeyInjective(a: string, b: string)
    requires CacheKey(a) == CacheKey(b)
    ensures a == b
  {
    assert a == CacheKey(a)[7..];
    assert b == CacheKey(b)[7..];
  }

  /** What a `GET` of the key for `secretId` sees at time `now`. */
  function Lookup(store: map<string, CacheEntry>, secretId: string, now: int): (r: Option<Payload>)
    ensures r.Some? <==> CacheKey(secretId) in store && now < store[CacheKey(secretId)].expiresAt
    ensures r.Some? ==> r.value == store[CacheKey(secretId)].value
  {
    var key := CacheKey(secretId);
    if key in store && now < store[key].expiresAt then Some(store[key].value) else None
  }

  /** The store after `SET key data EX ttl` at time `now`. */
  function Stored(store: map<string, CacheEntry>, secretId: string, data: Payload,
                  ttlSeconds: Option<int>, now: int): (after: map<string, CacheEntry>)
    ensures after.Keys == store.Keys + {CacheKey(secretId)}
    ensures after[CacheKey(secretId)].value == data
    ensures after[CacheKey(secretId)].expiresAt == now + CacheTtl(ttlSeconds) >= now + MinCacheTtl
    ensures forall key :: key in store && key != CacheKey(secretId) ==> after[key] == store[key]
  {
    store[CacheKey(secretId) := CacheEntry(data, now + CacheTtl(ttlSeconds))]
  }

  /** The store after `DEL key`. */
  function Evicted(store: map<string, CacheEntry>, secretId: string): (after: map<string, CacheEntry>)
    ensures after.Keys == store.Keys - {CacheKey(secretId)}
    ensures forall key :: key in after ==> after[key] == store[key]
  {
    store - {CacheKey(secretId)}
  }

  /** A get after a put returns the put value until the entry's TTL lapses,
      and nothing from then on. */
  lemma LookupAfterStore(store: map<string, CacheEntry>, secretId: string, data: Payload,
                         ttlSeconds: Option<int>, now: int, later: int)
    ensures later < now + CacheTtl(ttlSeconds) ==>
      Lookup(Stored(store, secretId, data, ttlSeconds, now), secretId, later) == Some(data)
    ensures later >= now + CacheTtl(ttlSeconds) ==>
      Lookup(Stored(store, secretId, data, ttlSeconds, now), secretId, later) == None
  {
  }

  /** Whatever TTL the secret has, a cached copy is readable for at least
      `MinCacheTtl` seconds. */
  lemma StoredAtLeastFloor(store: map<string, CacheEntry>, secretId: string, data: Payload,
                           ttlSeconds: Option<int>, now: int, later: int)
    requires now <= later < now + MinCacheTtl
    ensures Lookup(Stored(store, secretId, data, ttlSeconds, now), secretId, later) == Some(data)
  {
  }

  /** A put for one id leaves every other id's lookups unchanged. */
  lemma StoreKeepsOthers(store: map<string, CacheEntry>, secretId: string, data: Payload,
                         ttlSeconds: Option<int>, now: int, other: string, later: int)
    requires other != secretId
    ensures Lookup(Stored(store, secretId, data, ttlSeconds, now), other, later) == Lookup(store, other, later)
  {
    if CacheKey(other) == CacheKey(secretId) {
      CacheKeyInjective(other, secretId);
    }
  }

  /** After a delete the id misses, and every other id is unchanged. */
  lemma LookupAfterEvict(store: map<string, CacheEntry>, secretId: string, other: string, later: int)
    ensures Lookup(Evicted(store, secretId), secretId, later) == None
    ensures other != secretId ==> Lookup(Evicted(store, secretId), other, later) == Lookup(store, other, later)
  {
    if other != secretId && CacheKey(other) == CacheKey(secretId) {
      CacheKeyInjective(other, secretId);
    }
  }

  /** A get of a key that is not there is a miss. */
  lemma LookupAbsent(store: map<string, CacheEntry>, secretId: string, later: int)
    requires CacheKey(secretId) !in store
    ensures Lookup(store, secretId, later) == None
  {
  }

  /** The Redis server as the module-level client reaches it. Every call
      takes `clientFails`, the client raising instead of answering; the
      service catches that. A failed read is a miss; a failed write or
      delete is taken to have had no effect on the server. */
  class RedisClient {
    var store: map<string, CacheEntry>

    constructor ()
      ensures store == map[]
    {
      store := map[];
    }

    /** `cache_secret`. */
    method CacheSecret(secretId: string, data: Payload, ttlSeconds: Option<int>, now: int, clientFails: bool)
      modifies this
      ensures clientFails ==> store == old(store)
      ensures !clientFails ==> store == Stored(old(store), secretId, data, ttlSeconds, now)
    {
      var actualTtl := CacheTtl(ttlSeconds);
      if !clientFails {
        store := store[CacheKey(secretId) := CacheEntry(data, now + actualTtl)];
      }
    }

    /** `get_cached_secret`. */
    method GetCachedSecret(secretId: string, now: int, clientFails: bool) returns (r: Option<Payload>)
      ensures clientFails ==> r == None
      ensures !clientFails ==> r == Lookup(store, secretId, now)
    {
      if clientFails {
        return None;
      }
      var key := CacheKey(secretId);
      if key in store && now < store[key].expiresAt {
        r := Some(store[key].value);
      } else {
        r := None;
      }
    }

    /** `delete_cached_secret`. */
    method DeleteCachedSecret(secretId: string, clientFails: bool)
      modifies this
      ensures clientFails ==> store == old(store)
      ensures !clientFails ==> store == Evicted(old(store), secretId)
    {
      if !clientFails {
        store := store - {CacheKey(secretId)};
      }
    }
  }

  /** `ping`: up to `PingAttempts` tries, `attempt(i)` being the answer of
      try i or `None` when it raised. It returns the first answer at once,
      waits only between tries, and gives `false` when every try raised.
      `tries` and `waits` count the pings sent and the sleeps taken. */
  method Ping(attempt: nat -> Option<bool>) returns (result: bool, tries: nat, waits: nat)
    ensures 1 <= tries <= PingAttempts
    ensures waits == tries - 1
    ensures forall i :: 0 <= i < tries - 1 ==> attempt(i).None?
    ensures attempt(tries - 1).Some? ==> result == attempt(tries - 1).value
    ensures attempt(tries - 1).None? ==> tries == PingAttempts && !result
  {
    tries, waits := 0, 0;
    var i := 0;
    while i < PingAttempts
      invariant 0 <= i <= PingAttempts
      invariant tries == i
      invariant waits == if i == PingAttempts then i - 1 else i
      invariant forall j :: 0 <= j < i ==> attempt(j).None?
    {
      tries := tries + 1;
      var answer := attempt(i);
      if answer.Some? {
        return answer.value, tries, waits;
      }
      if i < PingAttempts - 1 {
        waits := waits + 1;
      }
      i := i + 1;
    }
    result := false;
  }
}
