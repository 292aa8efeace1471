/** The in-memory token-bucket rate limiter.

    The process-wide `Map<string, TokenBucket>` becomes an explicit `Store`
    value that every operation takes and returns, and `Date.now()` becomes
    the `now` parameter (milliseconds). The map is keyed by the client
    identifier alone: every limit class drawn on by one client uses the same
    bucket, which is sized by the class that created it and capped by the
    class of whichever call refills it. */
module RateLimit {
  import opened Wrappers

  /** The keys of `RATE_LIMITS`. */
  datatype LimitClass = Ideation | Research | Writing | Image

  datatype Config = Config(maxTokens: int, refillRate: int, refillInterval: int)

  const HOUR_MS: int := 60 * 60 * 1000

  /** Bound on the token count of any bucket while costs are non-negative:
      the largest `maxTokens` of the table. */
  const MAX_CAPACITY: int := 30

  /** `RATE_LIMITS`: a full bucket refills completely once an hour. */
  function Limits(c: LimitClass): (cfg: Config)
    ensures cfg.maxTokens == cfg.refillRate > 0
    ensures cfg.refillInterval == HOUR_MS
    ensures cfg.maxTokens <= MAX_CAPACITY
  {
    match c
    case Ideation => Config(10, 10, HOUR_MS)
    case Research => Config(10, 10, HOUR_MS)
    case Writing => Config(20, 20, HOUR_MS)
    case Image => Config(30, 30, HOUR_MS)
  }

  datatype Bucket = Bucket(tokens: int, lastRefill: int)

  type Store = map<string, Bucket>

  datatype CheckResult = CheckResult(allowed: bool, tokensRemaining: int, retryAfter: Option<int>)

  datatype Status = Status(tokensRemaining: int, maxTokens: int)

  /** An operation's new store together with what it reports. */
  datatype Outcome<T> = Outcome(store: Store, value: T)

  /** `a` and `b` hold the same bucket, or none, for every identifier but `id`. */
  ghost predicate AgreeExcept(a: Store, b: Store, id: string) {
    forall j :: j != id ==> (j in a <==> j in b) && (j in a ==> a[j] == b[j])
  }

  /** `Math.floor((now - lastRefill) / refillInterval)`: Dafny's division by
      a positive divisor rounds toward negative infinity, as `Math.floor` does. */
  function IntervalsElapsed(b: Bucket, cfg: Config, now: int): int
    requires cfg.refillInterval > 0
  {
    (now - b.lastRefill) / cfg.refillInterval
  }

  /** `refillBucket`: lazy catch-up refill. */
  function Refill(b: Bucket, cfg: Config, now: int): (r: Bucket)
    requires cfg.refillInterval > 0
    ensures IntervalsElapsed(b, cfg, now) <= 0 ==> r == b
    ensures IntervalsElapsed(b, cfg, now) > 0 ==>
      && r.lastRefill == now
      && r.tokens <= cfg.maxTokens
      && r.tokens <= b.tokens + IntervalsElapsed(b, cfg, now) * cfg.refillRate
      && (r.tokens == cfg.maxTokens
          || r.tokens == b.tokens + IntervalsElapsed(b, cfg, now) * cfg.refillRate)
  {
    var k := IntervalsElapsed(b, cfg, now);
    if k > 0 then
      var added := b.tokens + k * cfg.refillRate;
      Bucket(if cfg.maxTokens < added then cfg.maxTokens else added, now)
    else b
  }

  /** `getBucket`: the refilled bucket for `id`, created full when absent,
      stored back under `id`. */
  function GetBucket(store: Store, id: string, cfg: Config, now: int): (r: Outcome<Bucket>)
    requires cfg.refillInterval > 0
    ensures r.store == store[id := r.value]
    ensures id !in store ==> r.value == Bucket(cfg.maxTokens, now)
    ensures id in store ==> r.value == Refill(store[id], cfg, now)
  {
    var b := if id in store then store[id] else Bucket(cfg.maxTokens, now);
    var b' := Refill(b, cfg, now);
    Outcome(store[id := b'], b')
  }

  /** The bucket a call for `id` and `c` at `now` decides on. */
  function Available(store: Store, id: string, c: LimitClass, now: int): Bucket {
    GetBucket(store, id, Limits(c), now).value
  }

  /** `checkRateLimit`: refill, then debit `cost` or deny. */
  function CheckRateLimit(store: Store, id: string, c: LimitClass, cost: int, now: int): (r: Outcome<CheckResult>)
    ensures id in r.store
    ensures var b := Available(store, id, c, now);
      && (r.value.allowed <==> b.tokens >= cost)
      && (r.value.allowed ==>
            && r.store[id] == Bucket(b.tokens - cost, b.lastRefill)
            && r.value.tokensRemaining == b.tokens - cost
            && r.value.retryAfter == None)
      && (!r.value.allowed ==>
            && r.store[id] == b
            && r.value.tokensRemaining == b.tokens
            && r.value.retryAfter == Some(Limits(c).refillInterval)
            && Limits(c).refillInterval > 0)
    ensures AgreeExcept(store, r.store, id)
  {
    var cfg := Limits(c);
    var got := GetBucket(store, id, cfg, now);
    var b := got.value;
    if b.tokens >= cost then
      var b' := b.(tokens := b.tokens - cost);
      Outcome(got.store[id := b'], CheckResult(true, b'.tokens, None))
    else
      Outcome(got.store, CheckResult(false, b.tokens, Some(cfg.refillInterval)))
  }

  /** `getRateLimitStatus`: refills (and so may create or update the bucket)
      but never debits. */
  function GetRateLimitStatus(store: Store, id: string, c: LimitClass, now: int): (r: Outcome<Status>)
    ensures r.value.tokensRemaining == Available(store, id, c, now).tokens
    ensures r.value.maxTokens == Limits(c).maxTokens
    ensures id in r.store && r.store[id] == Available(store, id, c, now)
    ensures AgreeExcept(store, r.store, id)
  {
    var got := GetBucket(store, id, Limits(c), now);
    Outcome(got.store, Status(got.value.tokens, Limits(c).maxTokens))
  }

  /** `resetRateLimit`: forget the bucket of `id` only. */
  function ResetRateLimit(store: Store, id: string): (r: Store)
    ensures id !in r
    ensures AgreeExcept(store, r, id)
  {
    store - {id}
  }

  /** `clearAllRateLimits`. */
  function ClearAllRateLimits(): (r: Store)
    ensures forall id :: id !in r
  {
    map[]
  }

  // ---------------------------------------------------------------------
  // Properties
  // ---------------------------------------------------------------------

  /** The configured values, class by class. */
  lemma ConfiguredLimits()
    ensures Limits(Ideation) == Config(10, 10, 3600000)
    ensures Limits(Research) == Config(10, 10, 3600000)
    ensures Limits(Writing) == Config(20, 20, 3600000)
    ensures Limits(Image) == Config(30, 30, 3600000)
  {
  }

  /** A refill at the same instant as the last refill changes nothing, and
      so a second refill at the same `now` is a no-op. */
  lemma RefillIdempotent(b: Bucket, cfg: Config, now: int)
    requires cfg.refillInterval > 0
    ensures Refill(Refill(b, cfg, now), cfg, now) == Refill(b, cfg, now)
  {
  }

  /** Refilling after `k` whole intervals with no consumption gives
      `min(maxTokens, tokens + k * refillRate)`. */
  lemma RefillAfterIntervals(b: Bucket, cfg: Config, k: int)
    requires cfg.refillInterval > 0 && k > 0
    ensures var r := Refill(b, cfg, b.lastRefill + k * cfg.refillInterval);
      && r.lastRefill == b.lastRefill + k * cfg.refillInterval
      && (b.tokens + k * cfg.refillRate <= cfg.maxTokens ==> r.tokens == b.tokens + k * cfg.refillRate)
      && (b.tokens + k * cfg.refillRate > cfg.maxTokens ==> r.tokens == cfg.maxTokens)
  {
    DivisionByBounds(k * cfg.refillInterval, cfg.refillInterval, k);
    assert IntervalsElapsed(b, cfg, b.lastRefill + k * cfg.refillInterval) == k;
  }

  /** The leftover fraction of an interval is discarded: after a refill at
      `now` the next refill is due a full interval after `now`, whatever the
      previous schedule was. */
  lemma RefillRestartsSchedule(b: Bucket, cfg: Config, now: int, t: int)
    requires cfg.refillInterval > 0
    requires IntervalsElapsed(b, cfg, now) > 0
    requires now <= t < now + cfg.refillInterval
    ensures Refill(Refill(b, cfg, now), cfg, t) == Refill(b, cfg, now)
  {
    assert IntervalsElapsed(Refill(b, cfg, now), cfg, t) == 0;
  }

  /** A concrete instance: a bucket last refilled at 0 and refilled at 1.5 h
      is not refilled again at 2 h, although two whole intervals have passed
      since 0. */
  lemma RefillDiscardsFractionExample()
    ensures var r := Refill(Bucket(0, 0), Limits(Ideation), 5400000);
      && r == Bucket(10, 5400000)
      && Refill(r, Limits(Ideation), 7200000) == r
  {
  }

  /** An admitted check followed by a refill leaves a bucket that was within
      the current class's capacity still within it (refill never lowers a
      bucket that is not over the cap). */
  lemma RefillNeverLowersWithinCap(b: Bucket, cfg: Config, now: int)
    requires cfg.refillInterval > 0 && cfg.refillRate >= 0
    requires b.tokens <= cfg.maxTokens
    ensures b.tokens <= Refill(b, cfg, now).tokens <= cfg.maxTokens
  {
  }

  /** One bucket serves every class: a bucket created full by an image call
      holds more than the ideation capacity, and the first ideation refill
      lowers it to the ideation cap. */
  lemma ClassesShareOneBucket(id: string, t: int)
    ensures var s1 := CheckRateLimit(map[], id, Image, 1, t);
      && s1.value == CheckResult(true, 29, None)
      && GetRateLimitStatus(s1.store, id, Ideation, t).value == Status(29, 10)
      && GetRateLimitStatus(s1.store, id, Ideation, t + HOUR_MS).value == Status(10, 10)
  {
    var s1 := CheckRateLimit(map[], id, Image, 1, t);
    assert s1.store[id] == Bucket(29, t);
    assert IntervalsElapsed(Bucket(29, t), Limits(Ideation), t) == 0;
    assert IntervalsElapsed(Bucket(29, t), Limits(Ideation), t + HOUR_MS) == 1;
  }

  /** Token counts stay within `[0, MAX_CAPACITY]`. */
  ghost predicate WithinCapacity(store: Store) {
    forall id :: id in store ==> 0 <= store[id].tokens <= MAX_CAPACITY
  }

  /** With a non-negative cost a check keeps every bucket within capacity:
      tokens never go negative. */
  lemma CheckPreservesCapacity(store: Store, id: string, c: LimitClass, cost: int, now: int)
    requires WithinCapacity(store)
    requires cost >= 0
    ensures WithinCapacity(CheckRateLimit(store, id, c, cost, now).store)
  {
    var r := CheckRateLimit(store, id, c, cost, now);
    var b := Available(store, id, c, now);
    assert 0 <= b.tokens <= MAX_CAPACITY;
    forall j | j in r.store ensures 0 <= r.store[j].tokens <= MAX_CAPACITY {
      if j != id {
        assert j in store;
      }
    }
  }

  lemma StatusPreservesCapacity(store: Store, id: string, c: LimitClass, now: int)
    requires WithinCapacity(store)
    ensures WithinCapacity(GetRateLimitStatus(store, id, c, now).store)
  {
    var r := GetRateLimitStatus(store, id, c, now);
    forall j | j in r.store ensures 0 <= r.store[j].tokens <= MAX_CAPACITY {
      if j != id {
        assert j in store;
      }
    }
  }

  /** `cost` is not validated: a negative cost is always admitted and adds
      tokens, past the capacity if need be. */
  lemma NegativeCostAddsTokens(store: Store, id: string, c: LimitClass, cost: int, now: int)
    requires cost < 0
    requires Available(store, id, c, now).tokens >= 0
    ensures var r := CheckRateLimit(store, id, c, cost, now);
      r.value.allowed && r.value.tokensRemaining > Available(store, id, c, now).tokens
  {
  }

  /** A status call neither debits nor changes what a following check of
      the same class at the same instant decides. */
  lemma StatusDoesNotAffectCheck(store: Store, id: string, c: LimitClass, cost: int, now: int)
    ensures CheckRateLimit(GetRateLimitStatus(store, id, c, now).store, id, c, cost, now)
         == CheckRateLimit(store, id, c, cost, now)
  {
    var s := GetRateLimitStatus(store, id, c, now).store;
    var b := Available(store, id, c, now);
    RefillIdempotent(if id in store then store[id] else Bucket(Limits(c).maxTokens, now), Limits(c), now);
    assert Available(s, id, c, now) == b;
    assert s[id := b] == s;
  }

  /** A denied check changes no token count: repeating it gives the same
      answer and the same store. */
  lemma DenialIsStable(store: Store, id: string, c: LimitClass, cost: int, now: int)
    requires !CheckRateLimit(store, id, c, cost, now).value.allowed
    ensures var r := CheckRateLimit(store, id, c, cost, now);
      && r.store[id].tokens == Available(store, id, c, now).tokens
      && CheckRateLimit(r.store, id, c, cost, now) == r
  {
    var r := CheckRateLimit(store, id, c, cost, now);
    var b := Available(store, id, c, now);
    RefillIdempotent(if id in store then store[id] else Bucket(Limits(c).maxTokens, now), Limits(c), now);
    assert Available(r.store, id, c, now) == b;
    assert r.store[id := b] == r.store;
  }

  /** Tokens a bucket for `id` would start from at `now`, when its last refill
      was at `now` (or it does not exist yet). */
  function TokensAt(store: Store, id: string, c: LimitClass): int {
    if id in store then store[id].tokens else Limits(c).maxTokens
  }

  /** Burst then exhaust: from no bucket at all, with no time passing,
      exactly `maxTokens / cost` consecutive calls are admitted, counting the
      tokens down by `cost` each time, and the next call is denied. */
  method Burst(store: Store, id: string, c: LimitClass, cost: int, now: int)
    returns (admitted: nat, remaining: seq<int>, denial: CheckResult, last: Store)
    requires id !in store
    requires cost > 0
    ensures admitted == Limits(c).maxTokens / cost
    ensures |remaining| == admitted
    ensures forall k :: 0 <= k < admitted ==> remaining[k] == Limits(c).maxTokens - (k + 1) * cost
    ensures !denial.allowed && denial.retryAfter == Some(HOUR_MS)
    ensures denial.tokensRemaining == Limits(c).maxTokens % cost
    ensures id in last && last[id] == Bucket(Limits(c).maxTokens % cost, now)
  {
    var max := Limits(c).maxTokens;
    var s := store;
    admitted := 0;
    remaining := [];
    var r := CheckRateLimit(s, id, c, cost, now);
    while r.value.allowed
      invariant id in s ==> s[id].lastRefill == now
      invariant TokensAt(s, id, c) == max - admitted * cost
      invariant 0 <= max - admitted * cost
      invariant r == CheckRateLimit(s, id, c, cost, now)
      invariant |remaining| == admitted
      invariant forall k :: 0 <= k < admitted ==> remaining[k] == max - (k + 1) * cost
      decreases max - admitted * cost
    {
      if id in s {
        assert IntervalsElapsed(s[id], Limits(c), now) == 0;
      }
      s := r.store;
      admitted := admitted + 1;
      remaining := remaining + [r.value.tokensRemaining];
      r := CheckRateLimit(s, id, c, cost, now);
    }
    if id in s {
      assert IntervalsElapsed(s[id], Limits(c), now) == 0;
    }
    var left := max - admitted * cost;
    assert 0 <= left < cost;
    DivisionByBounds(max, cost, admitted);
    denial := r.value;
    last := r.store;
  }

  /** `q` is the quotient of `a` by `b` when `q * b <= a < (q + 1) * b`. */
  lemma DivisionByBounds(a: int, b: int, q: int)
    requires b > 0
    requires 0 <= a - q * b < b
    ensures q == a / b && a - q * b == a % b
  {
    var d := a / b;
    var m := a % b;
    assert a == d * b + m && 0 <= m < b;
    var e := q - d;
    assert e * b == q * b - d * b;
    assert -b < e * b < b;
    ProductBelowFactorIsZero(e, b);
  }

  lemma ProductBelowFactorIsZero(e: int, b: int)
    requires b > 0 && -b < e * b < b
    ensures e == 0
  {
  }

  // ---------------------------------------------------------------------
  // Scenarios
  // ---------------------------------------------------------------------

  /** An empty ideation bucket gets all ten tokens back a full interval
      after its last refill, and spends one of them. */
  lemma RefillAfterIntervalScenario(id: string, t: int)
    ensures CheckRateLimit(map[id := Bucket(0, t)], id, Ideation, 1, t + HOUR_MS).value
         == CheckResult(true, 9, None)
  {
    assert IntervalsElapsed(Bucket(0, t), Limits(Ideation), t + HOUR_MS) == 1;
  }

  /** Half an interval is no interval: the empty bucket still denies. */
  lemma PartialIntervalScenario(id: string, t: int)
    ensures CheckRateLimit(map[id := Bucket(0, t)], id, Ideation, 1, t + HOUR_MS / 2).value
         == CheckResult(false, 0, Some(HOUR_MS))
  {
    assert IntervalsElapsed(Bucket(0, t), Limits(Ideation), t + HOUR_MS / 2) == 0;
  }

  /** A writing call of cost 2 takes three tokens to one; the next one is
      denied and leaves the one token in place. */
  lemma CostTwoScenario(id: string, t: int)
    ensures var r1 := CheckRateLimit(map[id := Bucket(3, t)], id, Writing, 2, t);
      && r1.value == CheckResult(true, 1, None)
      && var r2 := CheckRateLimit(r1.store, id, Writing, 2, t);
      && r2.value == CheckResult(false, 1, Some(HOUR_MS))
      && r2.store[id].tokens == 1
  {
    assert IntervalsElapsed(Bucket(3, t), Limits(Writing), t) == 0;
    assert IntervalsElapsed(Bucket(1, t), Limits(Writing), t) == 0;
  }
}
