/** The sliding-window rate limiter (security/rate_limit.py), with time as a real number. A call
    reads the clock before it takes the lock, so calls need not get the lock in clock order. */
module RateLimiter {

  datatype RateLimitResult = RateLimitResult(allowed: bool, remaining: nat, resetAfterSeconds: int)

  ghost predicate Sorted(times: seq<real>) {
    forall i, j :: 0 <= i < j < |times| ==> times[i] <= times[j]
  }

  /** Any limit + 1 consecutive hits span at least the window. */
  ghost predicate Spaced(times: seq<real>, limit: nat, window: real) {
    forall i, j :: 0 <= i && i + limit == j && j < |times| ==> times[j] - times[i] >= window
  }

  /** How many times lie in the half-open interval [from, from + window). */
  function CountIn(times: seq<real>, from: real, window: real): nat {
    if times == [] then 0
    else CountIn(times[1..], from, window) + if from <= times[0] < from + window then 1 else 0
  }

  lemma {:induction false} CountNone(times: seq<real>, from: real, window: real)
    requires forall i :: 0 <= i < |times| ==> times[i] >= from + window
    ensures CountIn(times, from, window) == 0
  {
    if times != [] {
      CountNone(times[1..], from, window);
    }
  }

  lemma {:induction false} CountAtMost(times: seq<real>, from: real, window: real, k: nat)
    requires forall i :: k <= i < |times| ==> times[i] >= from + window
    ensures CountIn(times, from, window) <= k
    decreases |times|
  {
    if k == 0 {
      CountNone(times, from, window);
    } else if times != [] {
      CountAtMost(times[1..], from, window, k - 1);
    }
  }

  /** Spaced hits put at most limit of them into any half-open window, wherever it starts. */
  lemma {:induction false} AnyWindowHoldsAtMostLimit(times: seq<real>, limit: nat, window: real, from: real)
    requires Sorted(times) && Spaced(times, limit, window) && 0.0 < window && 0 < limit
    ensures CountIn(times, from, window) <= limit
  {
    if times != [] {
      if times[0] < from {
        assert Spaced(times[1..], limit, window) by {
          forall i, j | 0 <= i && i + limit == j && j < |times| - 1 ensures times[1..][j] - times[1..][i] >= window {
            assert times[j + 1] - times[i + 1] >= window;
          }
        }
        AnyWindowHoldsAtMostLimit(times[1..], limit, window, from);
      } else {
        if limit < |times| {
          assert times[0 + limit] - times[0] >= window;
        }
        CountAtMost(times, from, window, limit);
      }
    }
  }

  /** The number of times within the window that ends now: now - t < window. */
  function CountRecent(times: seq<real>, now: real, window: real): nat {
    if times == [] then 0
    else CountRecent(times[..|times| - 1], now, window) + if now - times[|times| - 1] < window then 1 else 0
  }

  ghost predicate Expired(times: seq<real>, now: real, window: real) {
    forall i :: 0 <= i < |times| ==> now - times[i] >= window
  }

  ghost predicate Recent(times: seq<real>, now: real, window: real) {
    forall i :: 0 <= i < |times| ==> now - times[i] < window
  }

  lemma {:induction false} CountExpired(times: seq<real>, now: real, window: real)
    requires Expired(times, now, window)
    ensures CountRecent(times, now, window) == 0
  {
    if times != [] {
      CountExpired(times[..|times| - 1], now, window);
    }
  }

  lemma {:induction false} CountRecentSplit(expired: seq<real>, recent: seq<real>, now: real, window: real)
    requires Expired(expired, now, window) && Recent(recent, now, window)
    ensures CountRecent(expired + recent, now, window) == |recent|
    decreases |recent|
  {
    var all := expired + recent;
    if recent == [] {
      assert all == expired;
      CountExpired(expired, now, window);
    } else {
      var n := |recent| - 1;
      assert all[..|all| - 1] == expired + recent[..n] && all[|all| - 1] == recent[n];
      CountRecentSplit(expired, recent[..n], now, window);
    }
  }

  /** Fewer than limit recent hits: the one that a new hit has to be spaced from has expired. */
  lemma SpacedAppend(expired: seq<real>, recent: seq<real>, limit: nat, window: real, now: real)
    requires Spaced(expired + recent, limit, window) && |recent| < limit && Expired(expired, now, window)
    ensures Spaced(expired + recent + [now], limit, window)
  {
    var all := expired + recent;
    var next := all + [now];
    forall i, j | 0 <= i && i + limit == j && j < |next| ensures next[j] - next[i] >= window {
      if j == |all| {
        assert next[i] == expired[i];
      } else {
        assert all[j] - all[i] >= window;
      }
    }
  }

  /** What is left after expired hits are popped off the front. */
  function Evicted(hits: seq<real>, now: real, window: real): seq<real> {
    if hits != [] && now - hits[0] >= window then Evicted(hits[1..], now, window) else hits
  }

  /** What a call leaves: its own reading is added if there is room for it. */
  function Admitted(hits: seq<real>, now: real, limit: nat, window: real): seq<real> {
    var queue := Evicted(hits, now, window);
    if |queue| < limit then queue + [now] else queue
  }

  method Evict(hits: seq<real>, now: real, window: real) returns (queue: seq<real>)
    ensures queue == Evicted(hits, now, window)
  {
    queue := hits;
    while queue != [] && now - queue[0] >= window
      invariant Evicted(queue, now, window) == Evicted(hits, now, window)
    {
      queue := queue[1..];
    }
  }

  /** Of sorted hits exactly the expired ones are popped. */
  lemma {:induction false} EvictedSplits(expired: seq<real>, hits: seq<real>, now: real, window: real) returns (gone: seq<real>)
    requires Expired(expired, now, window) && Sorted(expired + hits)
    ensures gone + Evicted(hits, now, window) == expired + hits
    ensures Expired(gone, now, window) && Recent(Evicted(hits, now, window), now, window)
    decreases |hits|
  {
    if hits != [] && now - hits[0] >= window {
      assert expired + hits == expired + [hits[0]] + hits[1..];
      gone := EvictedSplits(expired + [hits[0]], hits[1..], now, window);
    } else {
      gone := expired;
      forall i | 0 <= i < |hits| ensures now - hits[i] < window {
        assert (expired + hits)[|expired| + i] == hits[i] && (expired + hits)[|expired|] == hits[0];
      }
    }
  }

  /** What the limiter keeps of the allowed hits of a key: all but expired ones. */
  ghost predicate Keeps(all: seq<real>, kept: seq<real>, limit: nat, window: real, clock: real) {
    && Sorted(all) && Spaced(all, limit, window)
    && (forall i :: 0 <= i < |all| ==> all[i] <= clock)
    && |kept| <= |all| && all == all[..|all| - |kept|] + kept && Expired(all[..|all| - |kept|], clock, window)
  }

  lemma KeepsLater(all: seq<real>, kept: seq<real>, limit: nat, window: real, clock: real, now: real)
    requires Keeps(all, kept, limit, window, clock) && clock <= now
    ensures Keeps(all, kept, limit, window, now)
  {}

  lemma KeepsFewer(gone: seq<real>, queue: seq<real>, limit: nat, window: real, now: real)
    requires Sorted(gone + queue) && Spaced(gone + queue, limit, window) && Expired(gone, now, window)
    requires forall i :: 0 <= i < |gone + queue| ==> (gone + queue)[i] <= now
    ensures Keeps(gone + queue, queue, limit, window, now)
  {
    assert (gone + queue)[..|gone|] == gone;
  }

  lemma KeepsAdmitted(all: seq<real>, gone: seq<real>, queue: seq<real>, limit: nat, window: real, now: real)
    requires gone + queue == all && Sorted(all) && Spaced(all, limit, window) && Expired(gone, now, window) && |queue| < limit
    requires forall i :: 0 <= i < |all| ==> all[i] <= now
    ensures Keeps(all + [now], queue + [now], limit, window, now)
  {
    SpacedAppend(gone, queue, limit, window, now);
    assert gone + (queue + [now]) == all + [now];
    KeepsFewer(gone, queue + [now], limit, window, now);
  }

  /** Seconds until the oldest hit in the window leaves it, rounded down. */
  function ResetAfter(windowSeconds: nat, now: real, oldest: real): (n: int)
    ensures oldest <= now && now - oldest < windowSeconds as real ==>
      0 <= n <= windowSeconds && n as real <= windowSeconds as real - (now - oldest) < n as real + 1.0
  {
    var left := (windowSeconds as real - (now - oldest)).Floor;
    if left > 0 then left else 0
  }

  lemma KeepsNone(all: seq<real>, gone: seq<real>, queue: seq<real>, now: real, window: real)
    requires gone + queue == all && Expired(gone, now, window) && Recent(queue, now, window)
    requires forall i :: 0 <= i < |all| ==> all[i] <= now
    ensures CountRecent(all, now, window) == |queue| && all[|gone|..] == queue && all[..|gone|] == gone
    ensures queue != [] ==> queue[0] <= now
  {
    CountRecentSplit(gone, queue, now, window);
    assert queue != [] ==> all[|gone|] == queue[0];
  }

  /** The answer to a call, given how many were allowed within the window before it. */
  predicate Answers(result: RateLimitResult, recent: nat, limit: nat) {
    && (result.allowed <==> recent < limit)
    && result.remaining == (if recent < limit then limit - recent - 1 else 0)
  }

  function TimesOf(m: map<string, seq<real>>, key: string): seq<real> {
    if key in m then m[key] else []
  }

  /** `allow` for one key, given what is kept of its hits. */
  method Decide(kept: seq<real>, now: real, limit: nat, windowSeconds: nat) returns (result: RateLimitResult, queue: seq<real>)
    requires 0 < limit
    ensures queue == Admitted(kept, now, limit, windowSeconds as real)
    ensures var recent := Evicted(kept, now, windowSeconds as real);
      && Answers(result, |recent|, limit)
      && result.resetAfterSeconds == if result.allowed then windowSeconds else ResetAfter(windowSeconds, now, recent[0])
  {
    queue := Evict(kept, now, windowSeconds as real);
    if |queue| >= limit {
      result := RateLimitResult(false, 0, ResetAfter(windowSeconds, now, queue[0]));
    } else {
      result := RateLimitResult(true, limit - |queue| - 1, windowSeconds);
      queue := queue + [now];
    }
  }

  /** A reading not before the clock: the hits left by the eviction are those allowed within the
      window that ends now, so a call is allowed exactly when there are fewer than limit of
      them, and all allowed hits stay spaced. */
  lemma InOrderStep(all: seq<real>, kept: seq<real>, now: real, limit: nat, window: real, clock: real)
    requires 0 < limit && clock <= now && Keeps(all, kept, limit, window, clock)
    ensures |Evicted(kept, now, window)| == CountRecent(all, now, window)
    ensures var gone := |all| - CountRecent(all, now, window);
      0 <= gone && all[gone..] == Evicted(kept, now, window) && Expired(all[..gone], now, window) && Recent(all[gone..], now, window)
    ensures Keeps(if CountRecent(all, now, window) < limit then all + [now] else all, Admitted(kept, now, limit, window), limit, window, now)
  {
    KeepsLater(all, kept, limit, window, clock, now);
    var queue := Evicted(kept, now, window);
    var gone := EvictedSplits(all[..|all| - |kept|], kept, now, window);
    KeepsNone(all, gone, queue, now, window);
    if |queue| >= limit {
      KeepsFewer(gone, queue, limit, window, now);
    } else {
      KeepsAdmitted(all, gone, queue, limit, window, now);
    }
  }

  // ----------------------------------------------------------------- runs of one key

  /** What is kept of a key's hits, and every hit that was ever allowed. */
  datatype Hits = Hits(kept: seq<real>, allowed: seq<real>)

  function NextHits(h: Hits, now: real, limit: nat, window: real): Hits {
    Hits(Admitted(h.kept, now, limit, window), if |Evicted(h.kept, now, window)| < limit then h.allowed + [now] else h.allowed)
  }

  /** After calls with these readings, in the order in which they got the lock. */
  function HitsAfter(readings: seq<real>, limit: nat, window: real): Hits {
    if readings == [] then Hits([], [])
    else NextHits(HitsAfter(readings[..|readings| - 1], limit, window), readings[|readings| - 1], limit, window)
  }

  lemma {:induction false} InOrderKeeps(readings: seq<real>, limit: nat, window: real, clock: real)
    requires 0 < limit && Sorted(readings) && forall i :: 0 <= i < |readings| ==> readings[i] <= clock
    ensures var h := HitsAfter(readings, limit, window); Keeps(h.allowed, h.kept, limit, window, clock)
  {
    if readings != [] {
      var n := |readings| - 1;
      var h := HitsAfter(readings[..n], limit, window);
      InOrderKeeps(readings[..n], limit, window, readings[n]);
      InOrderStep(h.allowed, h.kept, readings[n], limit, window, readings[n]);
      var next := HitsAfter(readings, limit, window);
      KeepsLater(next.allowed, next.kept, limit, window, readings[n], clock);
    }
  }

  /** If calls get the lock in clock order, no window ever holds more than limit allowed ones. */
  lemma InOrderRunsHold(readings: seq<real>, limit: nat, window: real, from: real)
    requires 0 < limit && 0.0 < window && Sorted(readings)
    ensures CountIn(HitsAfter(readings, limit, window).allowed, from, window) <= limit
  {
    var clock := if readings == [] then 0.0 else readings[|readings| - 1];
    InOrderKeeps(readings, limit, window, clock);
    AnyWindowHoldsAtMostLimit(HitsAfter(readings, limit, window).allowed, limit, window, from);
  }

  lemma HitsNext(readings: seq<real>, now: real, limit: nat, window: real)
    ensures HitsAfter(readings + [now], limit, window) == NextHits(HitsAfter(readings, limit, window), now, limit, window)
  {
    assert (readings + [now])[..|readings|] == readings;
  }

  lemma LateReading()
    ensures HitsAfter([0.0, 0.1, 5.2], 3, 5.0) == Hits([5.2], [0.0, 0.1, 5.2])
  {
    HitsNext([], 0.0, 3, 5.0);
    assert [] + [0.0] == [0.0];
    HitsNext([0.0], 0.1, 3, 5.0);
    assert [0.0] + [0.1] == [0.0, 0.1];
    HitsNext([0.0, 0.1], 5.2, 3, 5.0);
    assert [0.0, 0.1] + [5.2] == [0.0, 0.1, 5.2];
    assert Evicted([0.0, 0.1], 5.2, 5.0) == Evicted([0.1], 5.2, 5.0) == Evicted([], 5.2, 5.0) == [];
  }

  /** Out of clock order the bound fails: a call that read 5.2 gets the lock before two that read
      4.9 and 4.95 and evicts the hits at 0 and 0.1, so with limit 3 four calls of the first
      five seconds are allowed. */
  lemma OutOfOrderExceeds()
    ensures var allowed := HitsAfter([0.0, 0.1, 5.2, 4.9, 4.95], 3, 5.0).allowed;
      allowed == [0.0, 0.1, 5.2, 4.9, 4.95] && CountIn(allowed, 0.0, 5.0) == 4
  {
    var early := [0.0, 0.1, 5.2];
    LateReading();
    HitsNext(early, 4.9, 3, 5.0);
    HitsNext(early + [4.9], 4.95, 3, 5.0);
    assert early + [4.9] + [4.95] == [0.0, 0.1, 5.2, 4.9, 4.95];
    FourCounted();
  }

  lemma FourCounted()
    ensures CountIn([0.0, 0.1, 5.2, 4.9, 4.95], 0.0, 5.0) == 4
  {
    assert CountIn([4.95], 0.0, 5.0) == 1;
    assert [4.9, 4.95][1..] == [4.95];
    assert CountIn([4.9, 4.95], 0.0, 5.0) == 2;
    assert [5.2, 4.9, 4.95][1..] == [4.9, 4.95];
    assert CountIn([5.2, 4.9, 4.95], 0.0, 5.0) == 2;
    assert [0.1, 5.2, 4.9, 4.95][1..] == [5.2, 4.9, 4.95];
    assert CountIn([0.1, 5.2, 4.9, 4.95], 0.0, 5.0) == 3;
    assert [0.0, 0.1, 5.2, 4.9, 4.95][1..] == [0.1, 5.2, 4.9, 4.95];
  }

  ghost predicate LimiterOk(hits: map<string, seq<real>>, allowed: map<string, seq<real>>, limit: nat, window: real, clock: real) {
    && allowed.Keys == hits.Keys
    && forall key :: key in allowed ==> Keeps(allowed[key], hits[key], limit, window, clock)
  }

  lemma LimiterStep(hits: map<string, seq<real>>, allowed: map<string, seq<real>>, limit: nat, window: real, clock: real, key: string, all: seq<real>, queue: seq<real>, now: real)
    requires LimiterOk(hits, allowed, limit, window, clock) && clock <= now && Keeps(all, queue, limit, window, now)
    ensures LimiterOk(hits[key := queue], allowed[key := all], limit, window, now)
  {
    forall k | k in allowed ensures Keeps(allowed[k], hits[k], limit, window, now) {
      KeepsLater(allowed[k], hits[k], limit, window, clock, now);
    }
  }

  lemma InOrderAllowed(hits: map<string, seq<real>>, allowed: map<string, seq<real>>, limit: nat, window: real, clock: real, key: string, now: real)
    requires 0 < limit && LimiterOk(hits, allowed, limit, window, clock) && clock <= now
    ensures var kept, all := TimesOf(hits, key), TimesOf(allowed, key);
      && |Evicted(kept, now, window)| == CountRecent(all, now, window)
      && var after := if |Evicted(kept, now, window)| < limit then all + [now] else all;
         LimiterOk(hits[key := Admitted(kept, now, limit, window)], allowed[key := after], limit, window, now)
  {
    var kept, all := TimesOf(hits, key), TimesOf(allowed, key);
    InOrderStep(all, kept, now, limit, window, clock);
    var after := if |Evicted(kept, now, window)| < limit then all + [now] else all;
    LimiterStep(hits, allowed, limit, window, clock, key, after, Admitted(kept, now, limit, window), now);
  }

  class Limiter {
    const limit: nat
    const windowSeconds: nat
    var hits: map<string, seq<real>>
    /** Every allowed call ever made, per key; the latest reading of the clock; and whether all
        readings so far came in clock order. */
    ghost var allowed: map<string, seq<real>>
    ghost var clock: real
    ghost var inOrder: bool

    ghost predicate Valid()
      reads this
    {
      && 0 < limit && 0 < windowSeconds && allowed.Keys == hits.Keys
      && (inOrder ==> LimiterOk(hits, allowed, limit, windowSeconds as real, clock))
    }

    constructor (limit: nat, windowSeconds: nat, ghost started: real)
      requires 0 < limit && 0 < windowSeconds
      ensures Valid() && allowed == map[] && clock == started && inOrder && this.limit == limit && this.windowSeconds == windowSeconds
    {
      this.limit, this.windowSeconds := limit, windowSeconds;
      hits, allowed, clock, inOrder := map[], map[], started, true;
    }

    /** `allow`, for any reading of the clock. As long as readings come in clock order, a call is
        allowed exactly when fewer than limit calls were allowed within the window that ends now. */
    method Allow(key: string, now: real) returns (result: RateLimitResult)
      requires Valid()
      modifies this
      ensures Valid() && clock == now && (inOrder <==> old(inOrder) && old(clock) <= now)
      ensures var was, next := Hits(TimesOf(old(hits), key), TimesOf(old(allowed), key)), Hits(TimesOf(hits, key), TimesOf(allowed, key));
        next == NextHits(was, now, limit, windowSeconds as real)
      ensures hits == old(hits)[key := TimesOf(hits, key)] && allowed == old(allowed)[key := TimesOf(allowed, key)]
      ensures Answers(result, |Evicted(TimesOf(old(hits), key), now, windowSeconds as real)|, limit)
      ensures inOrder ==> Answers(result, CountRecent(TimesOf(old(allowed), key), now, windowSeconds as real), limit)
    {
      var kept := TimesOf(hits, key);
      ghost var all := TimesOf(allowed, key);
      var queue;
      result, queue := Decide(kept, now, limit, windowSeconds);
      ghost var after := if result.allowed then all + [now] else all;
      var nextHits := hits[key := queue];
      ghost var nextAllowed := allowed[key := after];
      assert inOrder && clock <= now ==> LimiterOk(nextHits, nextAllowed, limit, windowSeconds as real, now)
                                         && |Evicted(kept, now, windowSeconds as real)| == CountRecent(all, now, windowSeconds as real) by {
        if inOrder && clock <= now {
          InOrderAllowed(hits, allowed, limit, windowSeconds as real, clock, key, now);
        }
      }
      hits, allowed, inOrder, clock := nextHits, nextAllowed, inOrder && clock <= now, now;
    }

    /** No half-open interval of window length holds more than limit allowed calls of a key,
        over the whole life of a limiter whose calls got the lock in clock order. */
    lemma NoWindowExceedsLimit(key: string, from: real)
      requires Valid() && inOrder && key in allowed
      ensures CountIn(allowed[key], from, windowSeconds as real) <= limit
    {
      AnyWindowHoldsAtMostLimit(allowed[key], limit, windowSeconds as real, from);
    }
  }

  /** `RateLimiter(limit, window_seconds)`: none without a positive limit and window. */
  method Create(limit: int, windowSeconds: int, ghost started: real) returns (limiter: Limiter?)
    ensures limiter == null <==> limit <= 0 || windowSeconds <= 0
    ensures limiter != null ==> fresh(limiter) && limiter.Valid() && limiter.inOrder && limiter.allowed == map[] && limiter.clock == started
    ensures limiter != null ==> limiter.limit == limit && limiter.windowSeconds == windowSeconds
  {
    if limit <= 0 || windowSeconds <= 0 {
      return null;
    }
    limiter := new Limiter(limit, windowSeconds, started);
  }
}
