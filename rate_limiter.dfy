/** The fixed-window rate limiter: a mutable map from client key to a request count and the
    instant its window expires. The clock is the parameter `now` (milliseconds), and the
    periodic sweep is an explicit call. */
module RateLimiter {
  import opened Strings

  datatype Entry = Entry(count: int, expiresAt: int)

  datatype LimitResult = LimitResult(allowed: bool, remainingRequests: int, resetTime: int)

  /** `value || fallback` for a numeric setting: unset, NaN (`None`) and 0 fall back. */
  function SettingOr(value: Option<int>, fallback: int): (r: int)
    ensures value.Some? && value.value != 0 ==> r == value.value
    ensures value.None? || value.value == 0 ==> r == fallback
  {
    if value.Some? && value.value != 0 then value.value else fallback
  }

  /** A key whose window has to start afresh: unknown, or expired strictly before `now`. */
  predicate StartsWindow(limits: map<string, Entry>, key: string, now: int) {
    key !in limits || limits[key].expiresAt < now
  }

  /** The map after one `checkLimit(key)`. */
  function AfterCheck(limits: map<string, Entry>, key: string, now: int, windowMs: int): (m: map<string, Entry>)
    ensures key in m
    ensures StartsWindow(limits, key, now) ==> m[key] == Entry(1, now + windowMs)
    ensures !StartsWindow(limits, key, now) ==> m[key] == Entry(limits[key].count + 1, limits[key].expiresAt)
    ensures forall k :: k != key ==> (k in m <==> k in limits) && (k in limits ==> m[k] == limits[k])
  {
    if StartsWindow(limits, key, now) then limits[key := Entry(1, now + windowMs)]
    else limits[key := Entry(limits[key].count + 1, limits[key].expiresAt)]
  }

  function Max(a: int, b: int): int {
    if a >= b then a else b
  }

  /** The answer of one `checkLimit(key)`. */
  function CheckResult(limits: map<string, Entry>, key: string, now: int, windowMs: int, maxRequests: int): LimitResult {
    if StartsWindow(limits, key, now) then LimitResult(true, maxRequests - 1, now + windowMs)
    else
      var count := limits[key].count + 1;
      LimitResult(count <= maxRequests, Max(0, maxRequests - count), limits[key].expiresAt)
  }

  /** Allowed exactly while the stored count is within the limit, the remaining quota is the
      distance to the limit and never negative (for a limit of at least one), and the reset
      time is the expiry of the stored window. */
  lemma CheckResultMeaning(limits: map<string, Entry>, key: string, now: int, windowMs: int, maxRequests: int)
    requires maxRequests >= 1
    ensures var r := CheckResult(limits, key, now, windowMs, maxRequests);
      var e := AfterCheck(limits, key, now, windowMs)[key];
      && (r.allowed <==> e.count <= maxRequests)
      && r.remainingRequests == Max(0, maxRequests - e.count) && r.remainingRequests >= 0
      && r.resetTime == e.expiresAt
  {
  }

  /** The map after the sweep: exactly the entries that have not expired. */
  function Swept(limits: map<string, Entry>, now: int): (m: map<string, Entry>)
    ensures forall k :: k in m <==> k in limits && limits[k].expiresAt >= now
    ensures forall k :: k in m ==> m[k] == limits[k]
  {
    map k | k in limits && limits[k].expiresAt >= now :: limits[k]
  }

  /** A sweep at any earlier or equal instant changes no later answer: it only removes
      entries that would start a new window anyway. */
  lemma SweepUnobservable(limits: map<string, Entry>, sweepAt: int, key: string, now: int, windowMs: int, maxRequests: int)
    requires sweepAt <= now
    ensures CheckResult(Swept(limits, sweepAt), key, now, windowMs, maxRequests) == CheckResult(limits, key, now, windowMs, maxRequests)
    ensures AfterCheck(Swept(limits, sweepAt), key, now, windowMs)[key] == AfterCheck(limits, key, now, windowMs)[key]
  {
    var s := Swept(limits, sweepAt);
    if key in limits && key !in s {
      assert limits[key].expiresAt < now;
    }
  }

  class RateLimiterAdapter {
    var limits: map<string, Entry>
    const windowMs: int
    const maxRequests: int

    /** `security.rateLimit.windowMs` and `security.rateLimit.maxRequests`. */
    constructor (windowSetting: Option<int>, maxSetting: Option<int>)
      ensures windowMs == SettingOr(windowSetting, 60000) && maxRequests == SettingOr(maxSetting, 100)
      ensures limits == map[]
    {
      windowMs := SettingOr(windowSetting, 60000);
      maxRequests := SettingOr(maxSetting, 100);
      limits := map[];
    }

    /** `checkLimit(key)` at instant `now`. */
    method CheckLimit(key: string, now: int) returns (result: LimitResult)
      modifies this
      ensures limits == AfterCheck(old(limits), key, now, windowMs)
      ensures result == CheckResult(old(limits), key, now, windowMs, maxRequests)
    {
      if key !in limits || limits[key].expiresAt < now {
        limits := limits[key := Entry(1, now + windowMs)];
        return LimitResult(true, maxRequests - 1, now + windowMs);
      }
      var entry := limits[key];
      entry := entry.(count := entry.count + 1);
      limits := limits[key := entry];
      var allowed := entry.count <= maxRequests;
      var remainingRequests := Max(0, maxRequests - entry.count);
      return LimitResult(allowed, remainingRequests, entry.expiresAt);
    }

    /** `cleanupExpiredEntries` at instant `now`: deletes every expired entry. */
    method CleanupExpiredEntries(now: int)
      modifies this
      ensures limits == Swept(old(limits), now)
    {
      var keys := limits.Keys;
      while keys != {}
        invariant keys <= old(limits).Keys
        invariant forall k :: k in limits <==> k in old(limits) && (k in keys || old(limits)[k].expiresAt >= now)
        invariant forall k :: k in limits ==> limits[k] == old(limits)[k]
        decreases keys
      {
        var key :| key in keys;
        if limits[key].expiresAt < now {
          limits := limits - {key};
        }
        keys := keys - {key};
      }
      assert limits == Swept(old(limits), now);
    }
  }

  /** The defaults: unset or zero settings give a 60-second window and 100 requests. */
  lemma DefaultSettings()
    ensures SettingOr(None, 60000) == 60000 && SettingOr(Some(0), 100) == 100
    ensures SettingOr(Some(1000), 60000) == 1000
  {
  }

  /** With a one-second window and a limit of five, five calls at one instant are allowed
      (the first with four to spare, the fifth with none), the sixth is denied, and once the
      window has expired the next call opens a new one. */
  lemma {:induction false} WindowScenario(key: string, t: int)
    ensures
      var m0: map<string, Entry> := map[];
      var m1 := AfterCheck(m0, key, t, 1000);
      var m2 := AfterCheck(m1, key, t, 1000);
      var m3 := AfterCheck(m2, key, t, 1000);
      var m4 := AfterCheck(m3, key, t, 1000);
      var m5 := AfterCheck(m4, key, t, 1000);
      && CheckResult(m0, key, t, 1000, 5) == LimitResult(true, 4, t + 1000)
      && CheckResult(m1, key, t, 1000, 5).allowed && CheckResult(m2, key, t, 1000, 5).allowed
      && CheckResult(m3, key, t, 1000, 5).allowed
      && CheckResult(m4, key, t, 1000, 5) == LimitResult(true, 0, t + 1000)
      && CheckResult(m5, key, t, 1000, 5) == LimitResult(false, 0, t + 1000)
      && m5[key] == Entry(5, t + 1000)
      && CheckResult(AfterCheck(m5, key, t, 1000), key, t + 1001, 1000, 5) == LimitResult(true, 4, t + 2001)
  {
    var m0: map<string, Entry> := map[];
    var m1 := AfterCheck(m0, key, t, 1000);
    assert m1[key] == Entry(1, t + 1000);
    var m2 := AfterCheck(m1, key, t, 1000);
    assert m2[key] == Entry(2, t + 1000);
    var m3 := AfterCheck(m2, key, t, 1000);
    assert m3[key] == Entry(3, t + 1000);
    var m4 := AfterCheck(m3, key, t, 1000);
    assert m4[key] == Entry(4, t + 1000);
    var m5 := AfterCheck(m4, key, t, 1000);
    assert m5[key] == Entry(5, t + 1000);
    var m6 := AfterCheck(m5, key, t, 1000);
    assert m6[key] == Entry(6, t + 1000);
  }

  /** The count keeps growing past the limit; the window does not move. */
  lemma {:induction false} CountGrowsPastLimit(limits: map<string, Entry>, key: string, now: int, windowMs: int, maxRequests: int)
    requires key in limits && limits[key].expiresAt >= now && limits[key].count >= maxRequests
    ensures AfterCheck(limits, key, now, windowMs)[key] == Entry(limits[key].count + 1, limits[key].expiresAt)
    ensures !CheckResult(limits, key, now, windowMs, maxRequests).allowed
    ensures CheckResult(limits, key, now, windowMs, maxRequests).remainingRequests == 0
  {
  }

  /** The expiry is strict: an entry expiring exactly now still counts. */
  lemma ExpiryIsStrict(limits: map<string, Entry>, key: string, now: int, windowMs: int)
    requires key in limits && limits[key].expiresAt == now
    ensures AfterCheck(limits, key, now, windowMs)[key].count == limits[key].count + 1
  {
  }
}
