/** The token-bucket rate limiter (src/server/utils/security.ts). Times are milliseconds of a clock that does not go
    back; tokens are reals, so that rounding plays no part. */
module TokenBucket {
  import opened Wrappers

  datatype Bucket = Bucket(tokens: real, lastRefill: int)

  datatype Limit = Limit(maxTokens: real, refillRate: real)

  const STALE_THRESHOLD := 300_000

  predicate Sensible(l: Limit) {
    l.maxTokens >= 0.0 && l.refillRate > 0.0
  }

  /** Tokens refilled in `ms` milliseconds. */
  function Gain(l: Limit, ms: int): real {
    (ms as real / 1000.0) * l.refillRate
  }

  function MinR(a: real, b: real): real { if a <= b then a else b }

  /** The tokens a request at `now` finds; a key without a bucket has a full one. */
  function Level(l: Limit, b: Option<Bucket>, now: int): real {
    match b
    case None => l.maxTokens
    case Some(e) => MinR(l.maxTokens, e.tokens + Gain(l, now - e.lastRefill))
  }

  predicate Admits(l: Limit, b: Option<Bucket>, now: int) {
    Level(l, b, now) >= 1.0
  }

  datatype Event = Request(at: int) | CleanUp(at: int)

  function Step(l: Limit, b: Option<Bucket>, e: Event): Option<Bucket> {
    match e
    case Request(at) => Some(Bucket(Level(l, b, at) - if Admits(l, b, at) then 1.0 else 0.0, at))
    case CleanUp(at) => if b.Some? && at - b.value.lastRefill > STALE_THRESHOLD then None else b
  }

  function Run(l: Limit, b: Option<Bucket>, es: seq<Event>): Option<Bucket> {
    if es == [] then b else Step(l, Run(l, b, es[..|es| - 1]), es[|es| - 1])
  }

  /** Requests admitted in a run. */
  function Admitted(l: Limit, b: Option<Bucket>, es: seq<Event>): nat {
    if es == [] then 0
    else
      var e, before := es[|es| - 1], es[..|es| - 1];
      Admitted(l, b, before) + if e.Request? && Admits(l, Run(l, b, before), e.at) then 1 else 0
  }

  /** Events in clock order, none before `from`. */
  predicate Ordered(es: seq<Event>, from: int) {
    (forall i :: 0 <= i < |es| ==> from <= es[i].at) && (forall i, j :: 0 <= i < j < |es| ==> es[i].at <= es[j].at)
  }

  function End(es: seq<Event>, from: int): int {
    if es == [] then from else es[|es| - 1].at
  }

  /** A bucket as it can be at `now`. */
  predicate Ok(l: Limit, b: Option<Bucket>, now: int) {
    b.Some? ==> 0.0 <= b.value.tokens <= l.maxTokens && b.value.lastRefill <= now
  }

  // ---------------------------------------------------------------- arithmetic of the refill

  lemma GainSum(l: Limit, a: int, b: int)
    ensures Gain(l, a + b) == Gain(l, a) + Gain(l, b)
    ensures Gain(l, 0) == 0.0
  {
    assert (a + b) as real / 1000.0 == a as real / 1000.0 + b as real / 1000.0;
  }

  lemma GainIsPositive(l: Limit, ms: int)
    requires Sensible(l) && ms >= 0
    ensures Gain(l, ms) >= 0.0
  {
    assert ms as real / 1000.0 >= 0.0;
  }

  lemma GainGrows(l: Limit, a: int, b: int)
    requires Sensible(l) && a <= b
    ensures Gain(l, a) <= Gain(l, b)
  {
    GainSum(l, a, b - a);
    GainIsPositive(l, b - a);
  }

  /** Waiting adds at most the refill. */
  lemma LevelLater(l: Limit, b: Option<Bucket>, now: int, later: int)
    requires Sensible(l) && Ok(l, b, now) && now <= later
    ensures Level(l, b, now) <= Level(l, b, later) <= Level(l, b, now) + Gain(l, later - now)
    ensures 0.0 <= Level(l, b, now) <= l.maxTokens
  {
    hide Gain;
    GainIsPositive(l, later - now);
    if b.Some? {
      GainSum(l, now - b.value.lastRefill, later - now);
      GainIsPositive(l, now - b.value.lastRefill);
    }
  }

  lemma StepOk(l: Limit, b: Option<Bucket>, e: Event, now: int)
    requires Sensible(l) && Ok(l, b, now) && now <= e.at
    ensures Ok(l, Step(l, b, e), e.at)
  {
    hide Gain;
    LevelLater(l, b, now, e.at);
    LevelLater(l, b, e.at, e.at);
  }

  // ---------------------------------------------------------------- cleanup

  /** Enough refill in the stale time to fill any bucket. */
  predicate CleanupSafe(l: Limit) {
    Gain(l, STALE_THRESHOLD + 1) >= l.maxTokens
  }

  /** Deleting stale buckets never changes what a request finds, exactly when the refill of the shortest stale time
      (300.001 s) fills an empty bucket. */
  lemma CleanupInvisibleIff(l: Limit)
    requires Sensible(l)
    ensures CleanupSafe(l)
       <==> forall b: Option<Bucket>, at: int, later: int :: Ok(l, b, at) && at <= later ==>
              Level(l, Step(l, b, CleanUp(at)), later) == Level(l, b, later)
  {
    hide Gain, Ok, Level;
    if CleanupSafe(l) {
      forall b: Option<Bucket>, at: int, later: int | Ok(l, b, at) && at <= later
        ensures Level(l, Step(l, b, CleanUp(at)), later) == Level(l, b, later)
      {
        CleanupIsInvisible(l, b, at, later);
      }
    } else {
      var b, at := Some(Bucket(0.0, 0)), STALE_THRESHOLD + 1;
      CleanupShows(l, b, at);
    }
  }

  lemma CleanupIsInvisible(l: Limit, b: Option<Bucket>, at: int, later: int)
    requires Sensible(l) && CleanupSafe(l) && Ok(l, b, at) && at <= later
    ensures Level(l, Step(l, b, CleanUp(at)), later) == Level(l, b, later)
  {
    hide Gain;
    if b.Some? && at - b.value.lastRefill > STALE_THRESHOLD {
      GainGrows(l, STALE_THRESHOLD + 1, later - b.value.lastRefill);
    }
  }

  lemma CleanupShows(l: Limit, b: Option<Bucket>, at: int)
    requires Sensible(l) && !CleanupSafe(l) && b == Some(Bucket(0.0, 0)) && at == STALE_THRESHOLD + 1
    ensures Ok(l, b, at) && Level(l, Step(l, b, CleanUp(at)), at) != Level(l, b, at)
  {
    hide Gain;
  }

  /** The configured limiters: tokens and tokens per second. */
  const AUTH := Limit(20.0, 20.0 / 60.0)
  const APPLE_AUTH := Limit(5.0, 5.0 / 60.0)
  const HELPER_PAIR := Limit(8.0, 8.0 / 300.0)
  const UPLOAD := Limit(10.0, 10.0 / 300.0)
  const GENERAL := Limit(240.0, 240.0 / 60.0)

  lemma ConfiguredLimitersAreSafe(l: Limit)
    requires l == AUTH || l == APPLE_AUTH || l == HELPER_PAIR || l == UPLOAD || l == GENERAL
    ensures Sensible(l) && CleanupSafe(l) && l.maxTokens >= 1.0
  {
    assert (STALE_THRESHOLD + 1) as real / 1000.0 == 300.001;
  }

  // ---------------------------------------------------------------- the rate

  lemma OrderedPrefix(es: seq<Event>, from: int)
    requires Ordered(es, from) && es != []
    ensures Ordered(es[..|es| - 1], from) && from <= End(es[..|es| - 1], from) <= es[|es| - 1].at
  {
  }

  /** One event: what is admitted plus what is left is at most what was there plus the refill. */
  lemma StepBudget(l: Limit, b: Option<Bucket>, e: Event, now: int)
    requires Sensible(l) && CleanupSafe(l) && Ok(l, b, now) && now <= e.at
    ensures
      (if e.Request? && Admits(l, b, e.at) then 1.0 else 0.0) + Level(l, Step(l, b, e), e.at)
      <= Level(l, b, now) + Gain(l, e.at - now)
  {
    LevelLater(l, b, now, e.at);
    LevelLater(l, b, e.at, e.at);
    GainSum(l, 0, 0);
    if e.CleanUp? {
      CleanupIsInvisible(l, b, e.at, e.at);
    }
    hide Gain, CleanupSafe;
  }

  lemma {:induction false} Budget(l: Limit, b: Option<Bucket>, es: seq<Event>, from: int)
    requires Sensible(l) && CleanupSafe(l) && Ok(l, b, from) && Ordered(es, from)
    ensures Ok(l, Run(l, b, es), End(es, from))
    ensures Admitted(l, b, es) as real + Level(l, Run(l, b, es), End(es, from))
         <= Level(l, b, from) + Gain(l, End(es, from) - from)
  {
    hide Gain, Level, CleanupSafe, Ok, Step, Admits;
    if es == [] {
      GainSum(l, 0, 0);
    } else {
      var before, e := es[..|es| - 1], es[|es| - 1];
      OrderedPrefix(es, from);
      Budget(l, b, before, from);
      hide Ordered;
      var mid := End(before, from);
      StepOk(l, Run(l, b, before), e, mid);
      StepBudget(l, Run(l, b, before), e, mid);
      GainSum(l, mid - from, e.at - mid);
    }
  }

  /** Any stretch of any run admits at most maxTokens plus refillRate times its length in seconds, whatever came
      before it and however cleanup interleaves. */
  lemma RateIsBounded(l: Limit, before: seq<Event>, es: seq<Event>, start: int)
    requires Sensible(l) && CleanupSafe(l) && Ordered(before, start) && es != [] && Ordered(es, End(before, start))
    ensures Admitted(l, Run(l, None, before), es) as real <= l.maxTokens + Gain(l, es[|es| - 1].at - es[0].at)
  {
    Budget(l, None, before, start);
    var b, from := Run(l, None, before), es[0].at;
    BucketKeeps(l, b, End(before, start), from);
    Budget(l, b, es, from);
    LevelLater(l, b, from, from);
    BucketKeeps(l, Run(l, b, es), End(es, from), End(es, from));
    LevelLater(l, Run(l, b, es), End(es, from), End(es, from));
    hide Gain, CleanupSafe, Run, Admitted;
  }

  lemma BucketKeeps(l: Limit, b: Option<Bucket>, now: int, later: int)
    requires Ok(l, b, now) && now <= later
    ensures Ok(l, b, later)
  {
  }

  // ---------------------------------------------------------------- what is let through

  predicate RequestsOnly(es: seq<Event>) {
    forall i :: 0 <= i < |es| ==> es[i].Request?
  }

  /** Nobody is refused too early: a key's first requests are all admitted, one for each token of a full bucket, however
      close together they come; and what is left is at least the rest of the bucket. */
  lemma {:induction false} BurstIsAdmitted(l: Limit, es: seq<Event>, start: int)
    requires Sensible(l) && Ordered(es, start) && RequestsOnly(es) && |es| as real <= l.maxTokens
    ensures Admitted(l, None, es) == |es|
    ensures Ok(l, Run(l, None, es), End(es, start))
    ensures Level(l, Run(l, None, es), End(es, start)) >= l.maxTokens - |es| as real
  {
    hide Gain;
    if es != [] {
      var before, e := es[..|es| - 1], es[|es| - 1];
      OrderedPrefix(es, start);
      BurstIsAdmitted(l, before, start);
      var b := Run(l, None, before);
      LevelLater(l, b, End(before, start), e.at);
      StepOk(l, b, e, End(before, start));
      GainSum(l, 0, 0);
    }
  }

  // ---------------------------------------------------------------- Retry-After

  function Ceil(x: real): int {
    if x.Floor as real == x then x.Floor else x.Floor + 1
  }

  /** The seconds a refused request is told to wait. */
  function RetryAfter(l: Limit, level: real): int
    requires l.refillRate > 0.0
  {
    Ceil((1.0 - level) / l.refillRate)
  }

  /** Waiting the stated seconds is enough for admission, with no other request of the key in between, exactly when a
      full bucket admits anything at all; and no smaller whole number of seconds is enough. */
  lemma RetryAfterSuffices(l: Limit, b: Option<Bucket>, now: int, seconds: int)
    requires Sensible(l) && Ok(l, b, now) && !Admits(l, b, now) && seconds >= 0
    ensures
      var after := Step(l, b, Request(now));
      Admits(l, after, now + 1000 * seconds) <==> l.maxTokens >= 1.0 && seconds >= RetryAfter(l, Level(l, b, now))
  {
    RefusedStays(l, b, now);
    var level := Level(l, b, now);
    LevelAfterSeconds(l, level, now, seconds);
    NeededSeconds(l, level, seconds);
    hide Level, RetryAfter, Step;
  }

  lemma RefusedStays(l: Limit, b: Option<Bucket>, now: int)
    requires !Admits(l, b, now)
    ensures Step(l, b, Request(now)) == Some(Bucket(Level(l, b, now), now))
  {
    hide Level;
  }

  lemma LevelAfterSeconds(l: Limit, level: real, now: int, seconds: int)
    ensures Level(l, Some(Bucket(level, now)), now + 1000 * seconds)
         == MinR(l.maxTokens, level + seconds as real * l.refillRate)
  {
    assert (1000 * seconds) as real / 1000.0 == seconds as real;
  }

  lemma NeededSeconds(l: Limit, level: real, seconds: int)
    requires Sensible(l)
    ensures level + seconds as real * l.refillRate >= 1.0 <==> seconds >= RetryAfter(l, level)
  {
    var need := (1.0 - level) / l.refillRate;
    assert need * l.refillRate == 1.0 - level;
    Enough(seconds as real, need, l.refillRate);
    assert seconds as real >= need <==> seconds >= Ceil(need);
  }

  lemma Enough(x: real, y: real, rate: real)
    requires rate > 0.0
    ensures x * rate >= y * rate <==> x >= y
  {
  }

  // ---------------------------------------------------------------- the middleware

  function Find(buckets: map<string, Bucket>, key: string): Option<Bucket> {
    if key in buckets then Some(buckets[key]) else None
  }

  datatype Decision = Next | TooManyRequests(retryAfter: int)

  class RateLimiter {
    const limit: Limit
    var buckets: map<string, Bucket>

    constructor (limit: Limit)
      ensures this.limit == limit && buckets == map[]
    {
      this.limit, buckets := limit, map[];
    }

    /** The bucket is refilled for the time since its last request, a new one is full; a request takes one token, or is
        refused if there is none. */
    method Handle(key: string, now: int) returns (d: Decision)
      requires limit.refillRate > 0.0
      modifies this
      ensures key in buckets && buckets[key].lastRefill == now
      ensures
        var refilled :=
          if key !in old(buckets) then limit.maxTokens
          else MinR(limit.maxTokens, old(buckets)[key].tokens
                                     + (now - old(buckets)[key].lastRefill) as real / 1000.0 * limit.refillRate);
        && (d.Next? <==> refilled >= 1.0)
        && buckets[key].tokens == if d.Next? then refilled - 1.0 else refilled
      ensures d.Next? <==> Admits(limit, Find(old(buckets), key), now)
      ensures d.TooManyRequests? ==> d.retryAfter == RetryAfter(limit, Level(limit, Find(old(buckets), key), now))
      ensures Find(buckets, key) == Step(limit, Find(old(buckets), key), Request(now))
      ensures forall k :: k != key ==> Find(buckets, k) == Find(old(buckets), k)
    {
      FullBucket(limit, now);
      var entry := if key in buckets then buckets[key] else Bucket(limit.maxTokens, now);
      entry := Bucket(MinR(limit.maxTokens, entry.tokens + Gain(limit, now - entry.lastRefill)), now);
      if entry.tokens < 1.0 {
        buckets := buckets[key := entry];
        return TooManyRequests(RetryAfter(limit, entry.tokens));
      }
      buckets := buckets[key := entry.(tokens := entry.tokens - 1.0)];
      d := Next;
    }

    /** The interval timer. */
    method Cleanup(now: int)
      modifies this
      ensures forall k :: Find(buckets, k) == Step(limit, Find(old(buckets), k), CleanUp(now))
    {
      var keys := buckets.Keys;
      ghost var before := buckets;
      ghost var seen: set<string> := {};
      while keys != {}
        invariant seen !! keys && seen + keys == before.Keys
        invariant forall k ::
          Find(buckets, k) == if k in seen then Step(limit, Find(before, k), CleanUp(now)) else Find(before, k)
        decreases keys
      {
        var k :| k in keys;
        assert Find(buckets, k) == Find(before, k);
        if now - buckets[k].lastRefill > STALE_THRESHOLD {
          buckets := buckets - {k};
        }
        keys, seen := keys - {k}, seen + {k};
      }
    }
  }

  /** A new bucket is full. */
  lemma FullBucket(l: Limit, now: int)
    ensures MinR(l.maxTokens, l.maxTokens + Gain(l, 0)) == l.maxTokens
  {
  }
}
