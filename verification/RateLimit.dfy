/** `TokenBucketLimiter`: the per-process bucket with its capped map, the atomic
    script that keeps the same bucket in Redis, and what both promise over runs. */
module RateLimit {
  import opened InsertionMap
  import Text

  datatype Bucket = Bucket(tokens: real, lastRefill: int)

  datatype Result = Allowed | Denied(retryAfterSeconds: int)

  const MAX_KEYS := 50_000

  datatype Options = Options(capacity: real, refillPerSec: real)

  predicate Sensible(o: Options) {
    o.capacity >= 0.0 && o.refillPerSec > 0.0
  }

  function Min(a: real, b: real): real {
    if a <= b then a else b
  }

  /** `Math.ceil`. */
  function Ceil(x: real): (n: int)
    ensures n as real >= x && n as real < x + 1.0
  {
    -((-x).Floor)
  }

  function Seconds(ms: int): real {
    ms as real / 1000.0
  }

  /** Tokens added over so many milliseconds. */
  function Gain(o: Options, ms: int): real {
    Seconds(ms) * o.refillPerSec
  }

  function Refilled(o: Options, b: Bucket, now: int): Bucket {
    Bucket(Min(o.capacity, b.tokens + Gain(o, now - b.lastRefill)), now)
  }

  /** Whole seconds until a bucket with less than one token holds one. */
  function Wait(o: Options, tokens: real): int
    requires Sensible(o)
  {
    Ceil((1.0 - tokens) / o.refillPerSec)
  }

  /** One token out of an up-to-date bucket. */
  function Spend(o: Options, b: Bucket): (Bucket, Result)
    requires Sensible(o)
  {
    if b.tokens >= 1.0 then (b.(tokens := b.tokens - 1.0), Allowed)
    else (b, Denied(Wait(o, b.tokens)))
  }

  type Buckets = Entries<string, Bucket>

  /** The entry `evictOldest` picks: the earliest of those refilled longest ago. */
  ghost predicate IsOldest(m: Buckets, i: nat) {
    i < |m| && (forall j :: 0 <= j < |m| ==> m[i].1.lastRefill <= m[j].1.lastRefill) &&
    (forall j :: 0 <= j < i ==> m[i].1.lastRefill < m[j].1.lastRefill)
  }

  function Oldest(m: Buckets): (i: nat)
    requires m != []
    ensures IsOldest(m, i)
  {
    if |m| == 1 then 0
    else
      var i := Oldest(m[..|m| - 1]);
      if m[|m| - 1].1.lastRefill < m[i].1.lastRefill then |m| - 1 else i
  }

  lemma OldestStep(m: Buckets, i: nat)
    requires i < |m|
    ensures Oldest(m[..i + 1]) ==
            if i == 0 || m[i].1.lastRefill < m[Oldest(m[..i])].1.lastRefill then i else Oldest(m[..i])
  {
    assert m[..i + 1][..i] == m[..i];
  }

  lemma EvictedIs(m: Buckets)
    ensures Evicted(m) == if m == [] || m[Oldest(m)].0 == "" then m else RemoveAt(m, Oldest(m))
  {}

  /** The empty key is falsy, so it is never the one deleted. */
  function Evicted(m: Buckets): Buckets {
    if m == [] || m[Oldest(m)].0 == "" then m else RemoveAt(m, Oldest(m))
  }

  function TakeFrom(o: Options, m: Buckets, key: string, now: int): (Buckets, Result)
    requires Sensible(o)
  {
    var room := if !Has(m, key) && |m| >= MAX_KEYS then Evicted(m) else m;
    var b := if Has(m, key) then Refilled(o, Get(m, key), now) else Bucket(o.capacity, now);
    var (b', r) := Spend(o, b);
    (Put(room, key, b'), r)
  }

  class TokenBucketLimiter {
    const opts: Options
    var buckets: Buckets

    constructor (opts: Options)
      ensures this.opts == opts && buckets == []
    {
      this.opts := opts;
      buckets := [];
    }

    method Take(key: string, now: int) returns (r: Result)
      requires Sensible(opts)
      modifies this
      ensures (buckets, r) == TakeFrom(opts, old(buckets), key, now)
    {
      hide Gain, Wait, Put, Has, Get, Evicted;
      var bucket;
      if !Has(buckets, key) {
        if |buckets| >= MAX_KEYS { EvictOldest(); }
        bucket := Bucket(opts.capacity, now);
      } else {
        bucket := Get(buckets, key);
        var gained := Gain(opts, now - bucket.lastRefill);
        bucket := bucket.(tokens := Min(opts.capacity, bucket.tokens + gained));
        bucket := bucket.(lastRefill := now);
      }
      if bucket.tokens >= 1.0 {
        buckets := Put(buckets, key, bucket.(tokens := bucket.tokens - 1.0));
        return Allowed;
      }
      buckets := Put(buckets, key, bucket);
      return Denied(Wait(opts, bucket.tokens));
    }

    method EvictOldest()
      modifies this
      ensures buckets == Evicted(old(buckets))
    {
      hide Oldest, Evicted;
      var oldest := -1;
      var i := 0;
      while i < |buckets|
        invariant 0 <= i <= |buckets|
        invariant buckets == old(buckets)
        invariant oldest == if i == 0 then -1 else Oldest(buckets[..i])
      {
        OldestStep(buckets, i);
        if oldest < 0 || buckets[i].1.lastRefill < buckets[oldest].1.lastRefill {
          oldest := i;
        }
        i := i + 1;
      }
      assert buckets[..|buckets|] == buckets;
      EvictedIs(buckets);
      if oldest >= 0 && buckets[oldest].0 != "" {
        buckets := RemoveAt(buckets, oldest);
      }
    }
  }

  /** The map never outgrows its cap, except that a full map whose oldest key is the
      empty string takes a new key without giving one up. */
  lemma CapKeptUnlessOldestIsEmpty(o: Options, m: Buckets, key: string, now: int)
    requires Sensible(o) && |m| <= MAX_KEYS
    ensures |TakeFrom(o, m, key, now).0| <= MAX_KEYS <==>
            !(|m| == MAX_KEYS && !Has(m, key) && m[Oldest(m)].0 == "")
    ensures Unique(m) ==> Unique(TakeFrom(o, m, key, now).0)
  {
    if !Has(m, key) && |m| == MAX_KEYS {
      var room := Evicted(m);
      if m[Oldest(m)].0 != "" {
        HasIsMember(room, key);
        HasIsMember(m, key);
      }
    }
  }

  /* ------------------------------------------------------- bounds over runs */

  datatype Event = Event(key: string, now: int)

  /** What the bucket of `key` holds at `now`; a key without a bucket starts full. */
  function Level(o: Options, m: Buckets, key: string, now: int): real {
    if Has(m, key) then Refilled(o, Get(m, key), now).tokens else o.capacity
  }

  ghost predicate ValidAt(o: Options, m: Buckets, now: int) {
    Unique(m) &&
    forall i :: 0 <= i < |m| ==> 0.0 <= m[i].1.tokens <= o.capacity && m[i].1.lastRefill <= now
  }

  predicate Monotone(events: seq<Event>, from: int) {
    events == [] || (from <= events[0].now && Monotone(events[1..], events[0].now))
  }

  function LastTime(events: seq<Event>, from: int): int {
    if events == [] then from else events[|events| - 1].now
  }

  function Run(o: Options, m: Buckets, events: seq<Event>): Buckets
    requires Sensible(o)
    decreases |events|
  {
    if events == [] then m else Run(o, TakeFrom(o, m, events[0].key, events[0].now).0, events[1..])
  }

  function AllowedCount(o: Options, m: Buckets, events: seq<Event>, key: string): nat
    requires Sensible(o)
    decreases |events|
  {
    if events == [] then 0
    else
      var (m', r) := TakeFrom(o, m, events[0].key, events[0].now);
      (if events[0].key == key && r.Allowed? then 1 else 0) + AllowedCount(o, m', events[1..], key)
  }

  /** The bucket of `key` is not evicted while the events run. */
  predicate Kept(o: Options, m: Buckets, events: seq<Event>, key: string)
    requires Sensible(o)
    decreases |events|
  {
    events == [] ||
    (var m' := TakeFrom(o, m, events[0].key, events[0].now).0;
     (Has(m, key) ==> Has(m', key)) && Kept(o, m', events[1..], key))
  }

  lemma GainAdds(o: Options, a: int, b: int)
    ensures Gain(o, a + b) == Gain(o, a) + Gain(o, b)
    ensures a >= 0 && o.refillPerSec > 0.0 ==> Gain(o, a) >= 0.0
  {
    assert Seconds(a + b) == Seconds(a) + Seconds(b);
  }

  lemma TakeFromValid(o: Options, m: Buckets, e: Event)
    requires Sensible(o) && ValidAt(o, m, e.now)
    ensures ValidAt(o, TakeFrom(o, m, e.key, e.now).0, e.now)
  {
    hide Gain, Wait, Put, RemoveAt, ValidAt;
    var room := if !Has(m, e.key) && |m| >= MAX_KEYS then Evicted(m) else m;
    if room != m { ValidRemoved(o, m, e.now, Oldest(m)); }
    if Has(m, e.key) { ValidBucket(o, m, e.now, e.key); }
    var b := if Has(m, e.key) then Refilled(o, Get(m, e.key), e.now) else Bucket(o.capacity, e.now);
    ValidPut(o, room, e.now, e.key, Spend(o, b).0);
  }

  lemma ValidLater(o: Options, m: Buckets, t: int, u: int)
    requires ValidAt(o, m, t) && t <= u
    ensures ValidAt(o, m, u)
  {}

  lemma ValidBucket(o: Options, m: Buckets, now: int, key: string)
    requires Sensible(o) && ValidAt(o, m, now) && Has(m, key)
    ensures var b := Get(m, key);
            0.0 <= b.tokens <= o.capacity && b.lastRefill <= now && Gain(o, now - b.lastRefill) >= 0.0
  {
    hide Gain;
    GainAdds(o, now - Get(m, key).lastRefill, 0);
  }

  lemma ValidRemoved(o: Options, m: Buckets, now: int, i: nat)
    requires ValidAt(o, m, now) && i < |m|
    ensures ValidAt(o, RemoveAt(m, i), now)
  {}

  lemma ValidPut(o: Options, m: Buckets, now: int, key: string, b: Bucket)
    requires ValidAt(o, m, now) && 0.0 <= b.tokens <= o.capacity && b.lastRefill <= now
    ensures ValidAt(o, Put(m, key, b), now)
  {}

  /** A take moves the taken key's level by its token and no other kept key's. */
  lemma TakeFromLevel(o: Options, m: Buckets, e: Event, key: string)
    requires Sensible(o) && ValidAt(o, m, e.now)
    requires Has(m, key) ==> Has(TakeFrom(o, m, e.key, e.now).0, key)
    ensures var (m', r) := TakeFrom(o, m, e.key, e.now);
            Level(o, m', key, e.now) ==
            Level(o, m, key, e.now) - (if e.key == key && r.Allowed? then 1.0 else 0.0)
  {
    hide Gain, Wait;
    var room := if !Has(m, e.key) && |m| >= MAX_KEYS then Evicted(m) else m;
    var b := if Has(m, e.key) then Refilled(o, Get(m, e.key), e.now) else Bucket(o.capacity, e.now);
    var (b', r) := Spend(o, b);
    PutGet(room, e.key, b', key);
    if room != m { RemoveAtHas(m, Oldest(m), key); }
    GainAdds(o, 0, 0);
  }

  lemma LevelGrows(o: Options, m: Buckets, key: string, t: int, u: int)
    requires Sensible(o) && ValidAt(o, m, t) && t <= u
    ensures 0.0 <= Level(o, m, key, u) <= o.capacity
    ensures Level(o, m, key, u) <= Level(o, m, key, t) + Gain(o, u - t)
  {
    hide Gain, Wait;
    GainAdds(o, u - t, 0);
    if Has(m, key) {
      var b := Get(m, key);
      GainAdds(o, t - b.lastRefill, u - t);
    }
  }

  lemma {:induction false} Potential(o: Options, m: Buckets, events: seq<Event>, key: string, from: int)
    requires Sensible(o) && ValidAt(o, m, from) && Monotone(events, from) && Kept(o, m, events, key)
    ensures from <= LastTime(events, from)
    ensures ValidAt(o, Run(o, m, events), LastTime(events, from))
    ensures AllowedCount(o, m, events, key) as real
            + Level(o, Run(o, m, events), key, LastTime(events, from))
            <= Level(o, m, key, from) + Gain(o, LastTime(events, from) - from)
    decreases |events|
  {
    hide Gain, Wait, Level, Refilled, Spend, TakeFrom;
    if events == [] {
      GainAdds(o, 0, 0);
    } else {
      var e, rest := events[0], events[1..];
      var m' := TakeFrom(o, m, e.key, e.now).0;
      LevelGrows(o, m, key, from, e.now);
      TakeFromLevel(o, m, e, key);
      TakeFromValid(o, m, e);
      Potential(o, m', rest, key, e.now);
      assert LastTime(rest, e.now) == LastTime(events, from);
      GainAdds(o, e.now - from, LastTime(events, from) - e.now);
    }
  }

  predicate NoEmptyKey(m: Buckets) {
    forall i :: 0 <= i < |m| ==> m[i].0 != ""
  }

  lemma PutKeepsNoEmptyKey(m: Buckets, key: string, b: Bucket)
    requires NoEmptyKey(m) && key != ""
    ensures NoEmptyKey(Put(m, key, b))
  {}

  lemma EvictedKeepsNoEmptyKey(m: Buckets)
    requires NoEmptyKey(m)
    ensures NoEmptyKey(Evicted(m))
  {}

  lemma TakeKeepsNoEmptyKey(o: Options, m: Buckets, key: string, now: int)
    requires Sensible(o) && NoEmptyKey(m) && key != ""
    ensures NoEmptyKey(TakeFrom(o, m, key, now).0)
  {
    hide Refilled, Wait, Spend, Put, Evicted, Get, Has;
    EvictedKeepsNoEmptyKey(m);
    var b := if Has(m, key) then Refilled(o, Get(m, key), now) else Bucket(o.capacity, now);
    var room := if !Has(m, key) && |m| >= MAX_KEYS then Evicted(m) else m;
    PutKeepsNoEmptyKey(room, key, Spend(o, b).0);
  }

  /** Without an empty key the map stays within its cap on every run. */
  lemma {:induction false} CapKeptOverRuns(o: Options, m: Buckets, events: seq<Event>)
    requires Sensible(o) && |m| <= MAX_KEYS && NoEmptyKey(m)
    requires forall e :: e in events ==> e.key != ""
    ensures |Run(o, m, events)| <= MAX_KEYS && NoEmptyKey(Run(o, m, events))
    decreases |events|
  {
    hide TakeFrom;
    if events != [] {
      var e := events[0];
      CapKeptUnlessOldestIsEmpty(o, m, e.key, e.now);
      TakeKeepsNoEmptyKey(o, m, e.key, e.now);
      CapKeptOverRuns(o, TakeFrom(o, m, e.key, e.now).0, events[1..]);
    }
  }

  /** In any window of any run on a clock that does not go back, the takes allowed
      for a key that is not evicted meanwhile number at most
      capacity + refillPerSec * elapsed seconds. */
  lemma AllowedBound(o: Options, m: Buckets, events: seq<Event>, key: string)
    requires Sensible(o) && events != []
    requires ValidAt(o, m, events[0].now) && Monotone(events, events[0].now) && Kept(o, m, events, key)
    ensures AllowedCount(o, m, events, key) as real <=
            o.capacity + o.refillPerSec * Seconds(events[|events| - 1].now - events[0].now)
  {
    hide Wait, Level, Refilled, Spend, TakeFrom, Run, AllowedCount, Kept;
    var t, u := events[0].now, events[|events| - 1].now;
    Potential(o, m, events, key, t);
    LevelGrows(o, m, key, t, t);
    LevelGrows(o, Run(o, m, events), key, u, u);
  }

  /** Every state the limiter reaches from its empty map satisfies what the bound
      asks of its starting point. */
  lemma {:induction false} RunValid(o: Options, m: Buckets, events: seq<Event>, from: int)
    requires Sensible(o) && ValidAt(o, m, from) && Monotone(events, from)
    ensures ValidAt(o, Run(o, m, events), LastTime(events, from))
    decreases |events|
  {
    hide TakeFrom, ValidAt;
    if events != [] {
      ValidLater(o, m, from, events[0].now);
      TakeFromValid(o, m, events[0]);
      RunValid(o, TakeFrom(o, m, events[0].key, events[0].now).0, events[1..], events[0].now);
    }
  }

  /* ------------------------------------------------- the advertised retry */

  function TakeBucket(o: Options, b: Bucket, now: int): (Bucket, Result)
    requires Sensible(o)
  {
    Spend(o, Refilled(o, b, now))
  }

  /** The bucket after attempts at these times, all of them denied. */
  predicate AllDenied(o: Options, b: Bucket, times: seq<int>)
    requires Sensible(o)
    decreases |times|
  {
    times == [] ||
    (b.lastRefill <= times[0] && TakeBucket(o, b, times[0]).1.Denied? &&
     AllDenied(o, TakeBucket(o, b, times[0]).0, times[1..]))
  }

  function AfterAttempts(o: Options, b: Bucket, times: seq<int>): Bucket
    requires Sensible(o)
    decreases |times|
  {
    if times == [] then b else AfterAttempts(o, TakeBucket(o, b, times[0]).0, times[1..])
  }

  lemma RefillComposes(o: Options, b: Bucket, t: int, u: int)
    requires Sensible(o) && b.lastRefill <= t <= u
    ensures Refilled(o, Refilled(o, b, t), u) == Refilled(o, b, u)
  {
    hide Gain, Wait;
    GainAdds(o, t - b.lastRefill, u - t);
    GainAdds(o, u - t, 0);
  }

  /** Denied attempts cost nothing: a later take sees the bucket they found. */
  lemma {:induction false} DeniedAttemptsAreFree(o: Options, b: Bucket, times: seq<int>, u: int)
    requires Sensible(o) && AllDenied(o, b, times)
    requires b.lastRefill <= u && (times != [] ==> times[|times| - 1] <= u)
    ensures AfterAttempts(o, b, times).lastRefill <= u
    ensures TakeBucket(o, AfterAttempts(o, b, times), u) == TakeBucket(o, b, u)
    decreases |times|
  {
    hide Gain, Wait;
    if times != [] {
      var b' := TakeBucket(o, b, times[0]).0;
      AllDeniedOrdered(o, b', times[1..]);
      DeniedAttemptsAreFree(o, b', times[1..], u);
      RefillComposes(o, b, times[0], u);
    }
  }

  lemma {:induction false} AllDeniedOrdered(o: Options, b: Bucket, times: seq<int>)
    requires Sensible(o) && AllDenied(o, b, times)
    ensures times != [] ==> b.lastRefill <= times[|times| - 1]
    decreases |times|
  {
    if |times| > 1 { AllDeniedOrdered(o, TakeBucket(o, b, times[0]).0, times[1..]); }
  }

  lemma WaitIsLeast(o: Options, tokens: real, n: int)
    requires Sensible(o)
    ensures tokens + Gain(o, 1000 * n) >= 1.0 <==> n >= Wait(o, tokens)
  {
    var q := (1.0 - tokens) / o.refillPerSec;
    assert q * o.refillPerSec == 1.0 - tokens;
    assert Seconds(1000 * n) == n as real;
    if n as real >= q {
      assert (n as real - q) * o.refillPerSec >= 0.0;
    } else {
      assert (q - n as real) * o.refillPerSec > 0.0;
    }
  }

  /** `retryAfterSeconds` is the least whole number of seconds after which a take is
      allowed if none was in between, provided the bucket can hold a token at all. */
  lemma RetryIsLeastWait(o: Options, b: Bucket, now: int, times: seq<int>, n: nat)
    requires Sensible(o) && b.lastRefill <= now
    requires TakeBucket(o, b, now).1.Denied?
    requires AllDenied(o, TakeBucket(o, b, now).0, times)
    requires times != [] ==> times[|times| - 1] <= now + 1000 * n
    ensures var later := TakeBucket(o, AfterAttempts(o, TakeBucket(o, b, now).0, times), now + 1000 * n).1;
            later.Allowed? <==> o.capacity >= 1.0 && n >= TakeBucket(o, b, now).1.retryAfterSeconds
  {
    hide Gain, Wait, AfterAttempts, AllDenied;
    var (d, r) := TakeBucket(o, b, now);
    DeniedAttemptsAreFree(o, d, times, now + 1000 * n);
    WaitIsLeast(o, d.tokens, n);
  }

  /* ------------------------------------------------ the script kept in Redis */

  /** The hash at one key, and when it expires. */
  datatype Stored = Absent | Stored(tokens: real, ts: int, expiresAt: int)

  /** Milliseconds the script gives a key to live: a full refill and a second. */
  function Lifetime(o: Options): int
    requires Sensible(o)
  {
    Ceil(o.capacity / o.refillPerSec * 1000.0) + 1000
  }

  function Script(o: Options, h: Stored, now: int): (Stored, (int, int))
    requires Sensible(o)
  {
    var tokens0 := if h.Absent? then o.capacity else h.tokens;
    var ts := if h.Absent? then now else h.ts;
    var tokens := Min(o.capacity, tokens0 + Gain(o, now - ts));
    if tokens >= 1.0 then (Stored(tokens - 1.0, now, now + Lifetime(o)), (1, 0))
    else (Stored(tokens, now, now + Lifetime(o)), (0, Wait(o, tokens)))
  }

  function Reply(r: (int, int)): Result {
    if r.0 == 1 then Allowed else Denied(r.1)
  }

  /** The hashes by key; a key not in the map is absent. */
  type Shared = map<string, Stored>

  function Held(h: Shared, key: string): Stored {
    if key in h then h[key] else Absent
  }

  /** An attempt on a key, and whether Redis has dropped the key by then; it may do so at
      any moment from the expiry on, never before. */
  datatype Attempt = Attempt(key: string, now: int, dropped: bool)

  /** What the script finds at the attempt's key. */
  function Found(h: Shared, a: Attempt): Stored {
    if a.dropped then Absent else Held(h, a.key)
  }

  predicate FairExpiry(o: Options, h: Shared, attempts: seq<Attempt>)
    requires Sensible(o)
    decreases |attempts|
  {
    attempts == [] ||
    (var a := attempts[0];
     var held := Held(h, a.key);
     (held.Stored? ==> held.ts <= a.now && (a.dropped ==> a.now >= held.expiresAt)) &&
     FairExpiry(o, h[a.key := Script(o, Found(h, a), a.now).0], attempts[1..]))
  }

  function SharedResults(o: Options, h: Shared, attempts: seq<Attempt>): seq<Result>
    requires Sensible(o)
    decreases |attempts|
  {
    if attempts == [] then []
    else
      var a := attempts[0];
      var (held, r) := Script(o, Found(h, a), a.now);
      [Reply(r)] + SharedResults(o, h[a.key := held], attempts[1..])
  }

  /** The in-memory limiter on the same attempts. */
  function LocalResults(o: Options, m: Buckets, attempts: seq<Attempt>): seq<Result>
    requires Sensible(o)
    decreases |attempts|
  {
    if attempts == [] then []
    else
      var (m', r) := TakeFrom(o, m, attempts[0].key, attempts[0].now);
      [r] + LocalResults(o, m', attempts[1..])
  }

  /** No attempt finds the map full and its key missing. */
  predicate NoEviction(o: Options, m: Buckets, attempts: seq<Attempt>)
    requires Sensible(o)
    decreases |attempts|
  {
    attempts == [] ||
    ((Has(m, attempts[0].key) || |m| < MAX_KEYS) &&
     NoEviction(o, TakeFrom(o, m, attempts[0].key, attempts[0].now).0, attempts[1..]))
  }

  /** Both hold the same bucket of a key, or neither holds one. */
  ghost predicate AgreeAt(o: Options, h: Shared, m: Buckets, key: string)
    requires Sensible(o)
  {
    match Held(h, key)
    case Absent => !Has(m, key)
    case Stored(tokens, ts, expiresAt) =>
      Has(m, key) && Get(m, key) == Bucket(tokens, ts) && 0.0 <= tokens <= o.capacity &&
      expiresAt == ts + Lifetime(o)
  }

  ghost predicate Agree(o: Options, h: Shared, m: Buckets)
    requires Sensible(o)
  {
    forall key :: AgreeAt(o, h, m, key)
  }

  /** The lifetime is the least number of whole milliseconds that is a second more than
      filling the bucket takes. */
  lemma LifetimeIs(o: Options, n: int)
    requires Sensible(o)
    ensures n >= Lifetime(o) <==> n as real >= o.capacity / o.refillPerSec * 1000.0 + 1000.0
  {}

  /** Expiry is unobservable: by then the bucket has refilled. */
  lemma FullByExpiry(o: Options, b: Bucket, now: int)
    requires Sensible(o) && 0.0 <= b.tokens
    requires now >= b.lastRefill + Lifetime(o)
    ensures Refilled(o, b, now) == Bucket(o.capacity, now)
  {
    var s := Seconds(now - b.lastRefill);
    var q := o.capacity / o.refillPerSec;
    assert q * o.refillPerSec == o.capacity;
    assert s >= q;
    assert (s - q) * o.refillPerSec >= 0.0;
    assert s * o.refillPerSec == (s - q) * o.refillPerSec + q * o.refillPerSec;
  }

  /** One take on both sides: the same answer, and the same bucket afterwards. */
  lemma TakeAgrees(o: Options, h: Shared, m: Buckets, a: Attempt)
    requires Sensible(o) && AgreeAt(o, h, m, a.key) && (Has(m, a.key) || |m| < MAX_KEYS)
    requires var held := Held(h, a.key); held.Stored? ==> held.ts <= a.now && (a.dropped ==> a.now >= held.expiresAt)
    ensures var (held, r) := Script(o, Found(h, a), a.now);
            var (m', r') := TakeFrom(o, m, a.key, a.now);
            Reply(r) == r' && AgreeAt(o, h[a.key := held], m', a.key)
  {
    hide Gain, Wait, Lifetime;
    var held := Held(h, a.key);
    GainAdds(o, 0, 0);
    if held.Stored? {
      GainAdds(o, a.now - held.ts, 0);
      if a.dropped { FullByExpiry(o, Bucket(held.tokens, held.ts), a.now); }
    }
    var after := Script(o, Found(h, a), a.now).0;
    PutGet(m, a.key, Bucket(after.tokens, a.now), a.key);
  }

  /** A take leaves the buckets of other keys alone on both sides. */
  lemma OthersAgree(o: Options, h: Shared, m: Buckets, a: Attempt, held: Stored, key: string)
    requires Sensible(o) && AgreeAt(o, h, m, key) && key != a.key && (Has(m, a.key) || |m| < MAX_KEYS)
    ensures AgreeAt(o, h[a.key := held], TakeFrom(o, m, a.key, a.now).0, key)
  {
    hide Gain, Wait, Lifetime, Put, Has, Get, Refilled, Spend;
    var b := if Has(m, a.key) then Refilled(o, Get(m, a.key), a.now) else Bucket(o.capacity, a.now);
    PutGet(m, a.key, Spend(o, b).0, key);
  }

  /** On any interleaving of attempts on any keys, as long as the map evicts nothing. */
  lemma {:induction false} SharedIsLocal(o: Options, h: Shared, m: Buckets, attempts: seq<Attempt>)
    requires Sensible(o) && Agree(o, h, m) && FairExpiry(o, h, attempts) && NoEviction(o, m, attempts)
    ensures SharedResults(o, h, attempts) == LocalResults(o, m, attempts)
    decreases |attempts|
  {
    hide Script, TakeFrom, AgreeAt, Lifetime;
    if attempts != [] {
      var a := attempts[0];
      var held := Script(o, Found(h, a), a.now).0;
      TakeAgrees(o, h, m, a);
      var h', m' := h[a.key := held], TakeFrom(o, m, a.key, a.now).0;
      forall key ensures AgreeAt(o, h', m', key) {
        if key != a.key { OthersAgree(o, h, m, a, held, key); }
      }
      SharedIsLocal(o, h', m', attempts[1..]);
    }
  }

  /* ------------------------------------------------------- inputs that go wrong */

  /** A full map whose oldest key is the empty string. */
  function FullWithEmptyKey(): (m: Buckets)
    ensures |m| == MAX_KEYS
  {
    seq(MAX_KEYS, i requires 0 <= i < MAX_KEYS => (if i == 0 then "" else Text.ToDec(i), Bucket(0.0, 0)))
  }

  /** It grows past its cap, though its keys are pairwise different. */
  lemma EmptyKeyOutgrowsCap(o: Options, now: int)
    requires Sensible(o)
    ensures Unique(FullWithEmptyKey())
    ensures |TakeFrom(o, FullWithEmptyKey(), "new", now).0| == MAX_KEYS + 1
  {
    hide TakeFrom, Text.ToDec, Put;
    var m := FullWithEmptyKey();
    forall i, j | 0 <= i < j < |m| ensures m[i].0 != m[j].0 {
      if i > 0 && m[i].0 == m[j].0 { Text.ToDecInjective(i, j); }
    }
    HasIsMember(m, "new");
    assert !Text.AllDigits("new") by { assert !Text.IsDigit("new"[0]); }
    OneTooMany(o, m, "new", now);
  }

  lemma OneTooMany(o: Options, m: Buckets, key: string, now: int)
    requires Sensible(o) && |m| == MAX_KEYS && !Has(m, key) && m[0] == ("", Bucket(0.0, 0))
    requires forall i :: 0 <= i < |m| ==> m[i].1.lastRefill == 0
    ensures |TakeFrom(o, m, key, now).0| == MAX_KEYS + 1
  {
    assert Oldest(m) == 0 by { assert IsOldest(m, Oldest(m)); }
  }

  /** A bucket of half a token says to come back in a second, and never allows a take. */
  lemma HalfTokenNeverAllows(n: nat)
    ensures var o, b := Options(0.5, 1.0), Bucket(0.5, 0);
            var (after, r) := TakeBucket(o, b, 0);
            r == Denied(1) && TakeBucket(o, after, 1000 * n).1.Denied?
  {
    var o, b := Options(0.5, 1.0), Bucket(0.5, 0);
    RetryIsLeastWait(o, b, 0, [], n);
  }
}
