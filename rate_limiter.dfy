/** The sliding-window rate limiter (src/Utils/RateLimiter.php). Each client
    has two timestamp lists, for the last 60 and the last 3600 seconds, kept
    in a JSON file named after the client address. The file store is a map
    from file key to record; the clock is the parameter `now`. */
module RateLimiter {
  import opened Php

  const MinuteWindow: int := 60
  const HourWindow: int := 3600

  /** A cache file as loadData finds it: unreadable or not a JSON array, or
      the two timestamp lists. */
  datatype Stored = Unreadable | Lists(minute: seq<int>, hour: seq<int>)

  datatype LimitType = PerMinute | PerHour

  /** What checkLimit returns. */
  datatype RateResult = RateResult(allowed: bool, remaining: int, reset: int, limit: int, limitType: LimitType)

  predicate IsSafeKeyChar(c: char) {
    'a' <= c <= 'z' || 'A' <= c <= 'Z' || '0' <= c <= '9' || c == '.' || c == '_' || c == '-'
  }

  /** getCacheFile(): the file key of a client address, with every character
      outside [a-zA-Z0-9._-] replaced by '_'. */
  function CacheKey(ip: string): (k: string)
    ensures |k| == |ip|
    ensures forall i :: 0 <= i < |ip| ==> IsSafeKeyChar(k[i])
    ensures forall i :: 0 <= i < |ip| ==> (IsSafeKeyChar(ip[i]) <==> k[i] == ip[i])
  {
    seq(|ip|, i requires 0 <= i < |ip| => if IsSafeKeyChar(ip[i]) then ip[i] else '_')
  }

  /** loadData(): a missing or unreadable file loads as two empty lists. */
  function Load(store: map<string, Stored>, key: string): (r: Stored)
    ensures r.Lists?
    ensures key !in store || store[key].Unreadable? ==> r == Lists([], [])
    ensures key in store && store[key].Lists? ==> r == store[key]
  {
    if key in store && store[key].Lists? then store[key] else Lists([], [])
  }

  /** cleanOldEntries(): the timestamps younger than maxAge, in order. */
  function Prune(ts: seq<int>, now: int, maxAge: int): (r: seq<int>)
    ensures |r| <= |ts|
    ensures forall t :: t in r <==> t in ts && now - t < maxAge
  {
    if ts == [] then []
    else (if now - ts[0] < maxAge then [ts[0]] else []) + Prune(ts[1..], now, maxAge)
  }

  function Min(s: seq<int>): (m: int)
    requires |s| > 0
    ensures m in s && forall t :: t in s ==> m <= t
  {
    if |s| == 1 then s[0]
    else
      var rest := Min(s[1..]);
      assert forall t :: t in s ==> t == s[0] || t in s[1..];
      if s[0] <= rest then s[0] else rest
  }

  function MinInt(a: int, b: int): int { if a <= b then a else b }
  function MaxInt(a: int, b: int): int { if a >= b then a else b }

  /** The decision checkLimit takes on an already pruned pair of lists. */
  function Decide(m: seq<int>, h: seq<int>, now: int, perMinute: int, perHour: int): RateResult {
    if |m| >= perMinute then
      RateResult(false, 0, if m != [] then Min(m) + MinuteWindow else now + 60, perMinute, PerMinute)
    else if |h| >= perHour then
      RateResult(false, 0, if h != [] then Min(h) + HourWindow else now + 60, perHour, PerHour)
    else
      RateResult(true, MinInt(MaxInt(0, perMinute - |m|), MaxInt(0, perHour - |h|)), now + 60, perMinute, PerMinute)
  }

  /** One checkLimit call on a loaded record: the result, and the record to
      save when the call is admitted (both lists pruned, then `now`
      appended). */
  function Step(rec: Stored, now: int, perMinute: int, perHour: int): (out: (RateResult, Stored))
    requires rec.Lists?
    ensures out.1.Lists?
  {
    var m := Prune(rec.minute, now, MinuteWindow);
    var h := Prune(rec.hour, now, HourWindow);
    (Decide(m, h, now, perMinute, perHour), Lists(m + [now], h + [now]))
  }

  class Limiter {
    const perMinute: int
    const perHour: int
    /** the cache directory: file key -> contents */
    var store: map<string, Stored>

    /** No saved minute list is longer than the per-minute cap, and no hour
        list longer than the per-hour cap. */
    ghost predicate Valid()
      reads this
    {
      forall k :: k in store && store[k].Lists? ==>
        |store[k].minute| <= perMinute && |store[k].hour| <= perHour
    }

    /** new RateLimiter($perMinute, $perHour); the endpoints use 60 and 1000.
        The cache directory may already hold files from earlier requests. */
    constructor (perMinute: int, perHour: int, store: map<string, Stored>)
      ensures this.perMinute == perMinute && this.perHour == perHour && this.store == store
    {
      this.perMinute := perMinute;
      this.perHour := perHour;
      this.store := store;
    }

    /** cleanOldEntries(): filters the list in place, keeping order. */
    static method CleanOldEntries(ts: seq<int>, now: int, maxAge: int) returns (r: seq<int>)
      ensures r == Prune(ts, now, maxAge)
    {
      r := [];
      var i := |ts|;
      while i > 0
        invariant 0 <= i <= |ts|
        invariant r == Prune(ts[i..], now, maxAge)
      {
        i := i - 1;
        assert ts[i..][1..] == ts[i + 1..];
        if now - ts[i] < maxAge {
          r := [ts[i]] + r;
        }
      }
      assert ts[0..] == ts;
    }

    /** checkLimit(): prune both lists, deny when the minute window is full,
        else when the hour window is full, else admit; only an admitted call
        records `now` and saves the record. */
    method CheckLimit(ip: string, now: int) returns (res: RateResult)
      modifies this
      ensures old(Valid()) ==> Valid()
      ensures res == Step(Load(old(store), CacheKey(ip)), now, perMinute, perHour).0
      ensures res.allowed ==> store == old(store)[CacheKey(ip) := Step(Load(old(store), CacheKey(ip)), now, perMinute, perHour).1]
      ensures !res.allowed ==> store == old(store)
      ensures res.allowed ==> && CacheKey(ip) in store && store[CacheKey(ip)].Lists?
                              && |store[CacheKey(ip)].minute| <= perMinute && |store[CacheKey(ip)].hour| <= perHour
    {
      var key := CacheKey(ip);
      var data := Load(store, key);
      var minute := CleanOldEntries(data.minute, now, MinuteWindow);
      var hour := CleanOldEntries(data.hour, now, HourWindow);
      var minuteCount := |minute|;
      var hourCount := |hour|;

      var allowed := true;
      var remaining := 0;
      var resetTime := now + 60;
      var limitType := PerMinute;

      if minuteCount >= perMinute {
        allowed := false;
        remaining := 0;
        if minute != [] {
          resetTime := Min(minute) + MinuteWindow;
        }
        limitType := PerMinute;
      } else if hourCount >= perHour {
        allowed := false;
        remaining := 0;
        if hour != [] {
          resetTime := Min(hour) + HourWindow;
        }
        limitType := PerHour;
      } else {
        var remainingMinute := MaxInt(0, perMinute - minuteCount);
        var remainingHour := MaxInt(0, perHour - hourCount);
        remaining := MinInt(remainingMinute, remainingHour);
      }

      if allowed {
        store := store[key := Lists(minute + [now], hour + [now])];
      }

      res := RateResult(allowed, remaining, resetTime,
                        if limitType == PerMinute then perMinute else perHour, limitType);
    }
  }

  // ----- Properties -----

  /** Pruning distributes over concatenation, so it keeps the surviving
      timestamps in their original order. */
  lemma {:induction false} PruneAppend(a: seq<int>, b: seq<int>, now: int, maxAge: int)
    ensures Prune(a + b, now, maxAge) == Prune(a, now, maxAge) + Prune(b, now, maxAge)
  {
    if a == [] {
      assert a + b == b;
    } else {
      assert (a + b)[1..] == a[1..] + b;
      PruneAppend(a[1..], b, now, maxAge);
    }
  }

  /** A timestamp survives exactly when it is strictly younger than maxAge:
      one exactly maxAge old is dropped. */
  lemma PruneSingle(t: int, now: int, maxAge: int)
    ensures Prune([t], now, maxAge) == (if now - t < maxAge then [t] else [])
  {
    assert [t][1..] == [];
  }

  /** Admission needs room in both windows; the minute window is checked
      first, so a full minute window always reports 'minute' and the minute
      cap. */
  lemma DecideCases(m: seq<int>, h: seq<int>, now: int, perMinute: int, perHour: int)
    ensures var r := Decide(m, h, now, perMinute, perHour);
      && (r.allowed <==> |m| < perMinute && |h| < perHour)
      && (|m| >= perMinute ==> r.limitType == PerMinute && r.limit == perMinute)
      && (r.limitType == PerHour <==> |m| < perMinute && |h| >= perHour)
      && (r.limit == if r.limitType == PerHour then perHour else perMinute)
      && (r.allowed ==> r.reset == now + 60)
  {
  }

  /** An admitted call always has at least one request left in its
      allowance before it is recorded, and the allowance is the smaller of
      the two windows' spare room. */
  lemma RemainingWhenAllowed(m: seq<int>, h: seq<int>, now: int, perMinute: int, perHour: int)
    requires Decide(m, h, now, perMinute, perHour).allowed
    ensures var r := Decide(m, h, now, perMinute, perHour);
      r.remaining >= 1 && r.remaining == MinInt(perMinute - |m|, perHour - |h|)
  {
  }

  /** Denied calls report remaining = 0 and, while the clock never runs
      backwards, a reset time in the future and at most one window ahead:
      the Retry-After the endpoint derives from it is between 1 and 60
      seconds (minute) or 1 and 3600 seconds (hour). */
  lemma DeniedResetAhead(rec: Stored, now: int, perMinute: int, perHour: int)
    requires rec.Lists?
    requires forall t :: t in rec.minute ==> t <= now
    requires forall t :: t in rec.hour ==> t <= now
    requires !Step(rec, now, perMinute, perHour).0.allowed
    ensures var r := Step(rec, now, perMinute, perHour).0;
      && r.remaining == 0
      && (r.limitType == PerMinute ==> 0 < r.reset - now <= 60)
      && (r.limitType == PerHour ==> 0 < r.reset - now <= 3600)
  {
    var m := Prune(rec.minute, now, MinuteWindow);
    var h := Prune(rec.hour, now, HourWindow);
    if m != [] {
      assert Min(m) in m;
    }
    if h != [] {
      assert Min(h) in h;
    }
  }

  /** Repeated calls from one client at the same instant. */
  ghost function Run(rec: Stored, now: int, perMinute: int, perHour: int, n: nat): (r: Stored)
    requires rec.Lists?
    ensures r.Lists?
  {
    if n == 0 then rec
    else
      var prev := Run(rec, now, perMinute, perHour, n - 1);
      var step := Step(prev, now, perMinute, perHour);
      if step.0.allowed then step.1 else prev
  }

  function Repeat(t: int, n: nat): (r: seq<int>)
    ensures |r| == n && forall x :: x in r ==> x == t
  {
    if n == 0 then [] else Repeat(t, n - 1) + [t]
  }

  lemma {:induction false} RunFromEmpty(now: int, perMinute: int, perHour: int, n: nat)
    requires n <= perMinute <= perHour
    ensures Run(Lists([], []), now, perMinute, perHour, n) == Lists(Repeat(now, n), Repeat(now, n))
  {
    if n > 0 {
      RunFromEmpty(now, perMinute, perHour, n - 1);
      var prev := Repeat(now, n - 1);
      PruneAllFresh(prev, now, MinuteWindow);
      PruneAllFresh(prev, now, HourWindow);
    }
  }

  lemma {:induction false} PruneAllFresh(ts: seq<int>, now: int, maxAge: int)
    requires 0 < maxAge && forall t :: t in ts ==> t == now
    ensures Prune(ts, now, maxAge) == ts
  {
    if ts != [] {
      assert ts[0] in ts;
      assert forall t :: t in ts[1..] ==> t in ts;
      PruneAllFresh(ts[1..], now, maxAge);
    }
  }

  /** With a fresh client and per-minute cap N (no larger than the hourly
      cap), N calls in the same second are all admitted and call N+1 is
      denied on the minute window. */
  lemma CapIsExact(now: int, perMinute: int, perHour: int, n: nat)
    requires n <= perMinute <= perHour
    ensures var r := Step(Run(Lists([], []), now, perMinute, perHour, n), now, perMinute, perHour).0;
      (r.allowed <==> n < perMinute) && (!r.allowed ==> r.limitType == PerMinute && r.reset == now + 60)
  {
    RunFromEmpty(now, perMinute, perHour, n);
    var ts := Repeat(now, n);
    PruneAllFresh(ts, now, MinuteWindow);
    PruneAllFresh(ts, now, HourWindow);
    if n > 0 {
      assert Min(ts) in ts;
    }
  }

  /** Two different client addresses can share one record: every character
      outside the safe set maps to '_', so "::1" and "__1" are limited
      together. */
  lemma CacheKeyCollision()
    ensures CacheKey("::1") == CacheKey("__1") == "__1"
  {
  }
}
