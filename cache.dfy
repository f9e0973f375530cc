/** The in-memory TTL cache: a mutable map from key to the stored value and the instant it
    expires, expired entries being evicted lazily when they are read. The clock is the
    parameter `now` (milliseconds). */
module Cache {
  import opened Strings
  import Json

  /** Ten minutes. */
  const DEFAULT_TTL: int := 10 * 60 * 1000

  /** A stored value and its expiry instant (`timestamp` in the source). */
  datatype Cached = Cached(data: Json.Value, timestamp: int)

  /** The `ttl` argument, defaulted only when it is omitted (a JS default parameter). */
  function Ttl(ttl: Option<int>): (r: int)
    ensures ttl.None? ==> r == DEFAULT_TTL
    ensures ttl.Some? ==> r == ttl.value
  {
    if ttl.Some? then ttl.value else DEFAULT_TTL
  }

  /** The map after `set(key, value, ttl)` at instant `now`. */
  function Stored(cache: map<string, Cached>, key: string, value: Json.Value, ttl: Option<int>, now: int): map<string, Cached> {
    cache[key := Cached(value, now + Ttl(ttl))]
  }

  /** An entry that a read at `now` still returns: its expiry is not earlier than `now`. */
  predicate Live(cache: map<string, Cached>, key: string, now: int) {
    key in cache && cache[key].timestamp >= now
  }

  /** What `get(key)` returns at `now`: the stored data while live, `null` otherwise. */
  function Read(cache: map<string, Cached>, key: string, now: int): Json.Value {
    if Live(cache, key, now) then cache[key].data else Json.Null
  }

  /** The map after `get(key)` at `now`: an expired entry for `key` is deleted. */
  function Evicted(cache: map<string, Cached>, key: string, now: int): map<string, Cached> {
    if key in cache && !Live(cache, key, now) then cache - {key} else cache
  }

  /** A value set at `now` reads back until `now + ttl` inclusive and as `null` afterwards (at
      once, for a negative ttl); with the default ttl it lives exactly ten minutes. */
  lemma {:induction false} SetThenRead(cache: map<string, Cached>, key: string, value: Json.Value, ttl: Option<int>, now: int, t: int)
    requires now <= t
    ensures Read(Stored(cache, key, value, ttl, now), key, t) == (if t <= now + Ttl(ttl) then value else Json.Null)
    ensures ttl.None? ==> (Live(Stored(cache, key, value, ttl, now), key, t) <==> t <= now + 600000)
  {
    var c := Stored(cache, key, value, ttl, now);
    assert c[key] == Cached(value, now + Ttl(ttl));
  }

  /** `set` overwrites: whatever was stored before under the key no longer matters. */
  lemma SetOverwrites(cache: map<string, Cached>, key: string, v1: Json.Value, ttl1: Option<int>, t1: int,
                      v2: Json.Value, ttl2: Option<int>, t2: int)
    ensures Stored(Stored(cache, key, v1, ttl1, t1), key, v2, ttl2, t2) == Stored(cache, key, v2, ttl2, t2)
  {
  }

  /** Other keys are unaffected by `set`. */
  lemma {:induction false} SetLeavesOthers(cache: map<string, Cached>, key: string, value: Json.Value, ttl: Option<int>, now: int, other: string, t: int)
    requires other != key
    ensures Read(Stored(cache, key, value, ttl, now), other, t) == Read(cache, other, t)
  {
    assert Stored(cache, key, value, ttl, now)[other := Cached(Json.Null, 0)] == cache[key := Cached(value, now + Ttl(ttl))][other := Cached(Json.Null, 0)];
  }

  /** Eviction is unobservable: a read at `now` or later gives the same answer for every key,
      whether or not an earlier read at `now` evicted. */
  lemma EvictionUnobservable(cache: map<string, Cached>, key: string, now: int, other: string, t: int)
    requires now <= t
    ensures Read(Evicted(cache, key, now), other, t) == Read(cache, other, t)
  {
  }

  /** A stored `null` reads as absent: `has` cannot tell it from a miss. */
  lemma StoredNullReadsAbsent(cache: map<string, Cached>, key: string, ttl: Option<int>, now: int)
    ensures Read(Stored(cache, key, Json.Null, ttl, now), key, now) == Read(map[], key, now)
  {
  }

  class CacheAdapter {
    var cache: map<string, Cached>

    constructor ()
      ensures cache == map[]
    {
      cache := map[];
    }

    /** `set(key, value, ttl)` at instant `now`. */
    method Set(key: string, value: Json.Value, ttl: Option<int>, now: int)
      modifies this
      ensures cache == Stored(old(cache), key, value, ttl, now)
    {
      var t := if ttl.Some? then ttl.value else DEFAULT_TTL;
      cache := cache[key := Cached(value, now + t)];
    }

    /** `get(key)` at instant `now`; a miss is `null`. */
    method Get(key: string, now: int) returns (v: Json.Value)
      modifies this
      ensures v == Read(old(cache), key, now)
      ensures cache == Evicted(old(cache), key, now)
    {
      if key !in cache {
        return Json.Null;
      }
      var cached := cache[key];
      if cached.timestamp < now {
        cache := cache - {key};
        return Json.Null;
      }
      return cached.data;
    }

    /** `has(key)`: a `get` compared with `null`, evicting like `get`. */
    method Has(key: string, now: int) returns (b: bool)
      modifies this
      ensures b == (Read(old(cache), key, now) != Json.Null)
      ensures cache == Evicted(old(cache), key, now)
    {
      var v := Get(key, now);
      b := v != Json.Null;
    }

    /** `delete(key)`: only that key goes. */
    method Delete(key: string)
      modifies this
      ensures cache == old(cache) - {key}
    {
      cache := cache - {key};
    }

    /** `clear()`. */
    method Clear()
      modifies this
      ensures cache == map[]
    {
      cache := map[];
    }
  }

  /** `generateKey(method, url, body)`: `${method}:${url}:` followed by the serialised body, or
      by nothing when the body is absent or falsy. `serialize` stands for `JSON.stringify`. */
  function GenerateKey(verb: string, url: string, body: Option<Json.Value>, serialize: Json.Value -> string): string {
    var bodyString := if body.Some? && Json.Truthy(body.value) then serialize(body.value) else "";
    verb + ":" + url + ":" + bodyString
  }

  /** Every falsy body keys like no body at all (`null`, `false`, `0` and `""` collide). */
  lemma FalsyBodiesCollide(verb: string, url: string, body: Json.Value, serialize: Json.Value -> string)
    requires !Json.Truthy(body)
    ensures GenerateKey(verb, url, Some(body), serialize) == GenerateKey(verb, url, None, serialize)
    ensures GenerateKey(verb, url, None, serialize) == verb + ":" + url + ":"
  {
  }

  /** A method name without ':' is recovered from the key: two keys that agree come from the
      same method. */
  lemma {:induction false} KeyDeterminesMethod(v1: string, u1: string, b1: Option<Json.Value>,
                                               v2: string, u2: string, b2: Option<Json.Value>,
                                               serialize: Json.Value -> string)
    requires ':' !in v1 && ':' !in v2
    requires GenerateKey(v1, u1, b1, serialize) == GenerateKey(v2, u2, b2, serialize)
    ensures v1 == v2
  {
    var k := GenerateKey(v1, u1, b1, serialize);
    assert k[|v1|] == ':';
    assert k[|v2|] == ':';
    assert v1 == k[..|v1|];
    assert v2 == k[..|v2|];
  }

  /** Without that restriction keys are ambiguous: the url may carry the separator. */
  lemma KeysAmbiguous(serialize: Json.Value -> string)
    ensures GenerateKey("GET", "a:b", None, serialize) == GenerateKey("GET:a", "b", None, serialize)
  {
  }
}
