/**
  The per-client token bucket of internal/api/middleware.go. Times are in seconds, and clock
  readings are parameters; they may go backwards.
 */
module RateLimiters {

  type Key = string

  datatype Bucket = Bucket(tokens: real, last: real)
  type Buckets = map<Key, Bucket>

  /** `limit` requests per `window`; the burst is the limit itself. */
  datatype Limits = Limits(limit: real, window: real) {
    ghost predicate Valid() {
      limit >= 1.0 && window > 0.0
    }

    function Rate(): real
      requires window > 0.0
    {
      limit / window
    }
  }

  datatype Call = Call(key: Key, now: real)

  /** The tokens that a stretch of time earns. */
  function Earned(cfg: Limits, elapsed: real): real
    requires cfg.window > 0.0
  {
    elapsed * cfg.Rate()
  }

  function Refill(cfg: Limits, b: Bucket, now: real): (r: Bucket)
    requires cfg.window > 0.0
  {
    var elapsed := now - b.last;
    if elapsed > 0.0 then
      var tokens := b.tokens + Earned(cfg, elapsed);
      Bucket(if tokens > cfg.limit then cfg.limit else tokens, now)
    else b
  }

  /** One decision on the bucket of a key: the bucket afterwards, and whether the request passes. */
  function Decide(cfg: Limits, buckets: Buckets, call: Call): (r: (Bucket, bool))
    requires cfg.window > 0.0
  {
    if call.key !in buckets then (Bucket(cfg.limit - 1.0, call.now), true)
    else
      var b := Refill(cfg, buckets[call.key], call.now);
      if b.tokens < 1.0 then (b, false) else (Bucket(b.tokens - 1.0, b.last), true)
  }

  class RateLimiter {
    const cfg: Limits
    var buckets: Buckets

    constructor (limit: int, window: real)
      requires limit > 0 && window > 0.0
      ensures cfg == Limits(limit as real, window) && cfg.Valid() && buckets == map[]
    {
      cfg := Limits(limit as real, window);
      buckets := map[];
    }

    method Allow(key: Key, now: real) returns (ok: bool)
      requires cfg.Valid()
      modifies this
      ensures ok == Decide(cfg, old(buckets), Call(key, now)).1
      ensures buckets == old(buckets)[key := Decide(cfg, old(buckets), Call(key, now)).0]
    {
      if key !in buckets {
        buckets := buckets[key := Bucket(cfg.limit - 1.0, now)];
        return true;
      }
      var bucket := buckets[key];
      var elapsed := now - bucket.last;
      if elapsed > 0.0 {
        var tokens := bucket.tokens + Earned(cfg, elapsed);
        if tokens > cfg.limit {
          tokens := cfg.limit;
        }
        bucket := Bucket(tokens, now);
      }
      assert bucket == Refill(cfg, buckets[key], now);
      if bucket.tokens < 1.0 {
        buckets := buckets[key := bucket];
        return false;
      }
      bucket := Bucket(bucket.tokens - 1.0, bucket.last);
      buckets := buckets[key := bucket];
      ok := true;
    }
  }

  ghost function After(cfg: Limits, buckets: Buckets, calls: seq<Call>): Buckets
    requires cfg.window > 0.0
  {
    if calls == [] then buckets
    else
      var n := |calls| - 1;
      var before := After(cfg, buckets, calls[..n]);
      before[calls[n].key := Decide(cfg, before, calls[n]).0]
  }

  /** How many of the calls of one key pass. */
  ghost function Allowed(cfg: Limits, buckets: Buckets, calls: seq<Call>, key: Key): nat
    requires cfg.window > 0.0
  {
    if calls == [] then 0
    else
      var n := |calls| - 1;
      Allowed(cfg, buckets, calls[..n], key)
      + if calls[n].key == key && Decide(cfg, After(cfg, buckets, calls[..n]), calls[n]).1 then 1 else 0
  }

  ghost function Count(calls: seq<Call>, key: Key): nat {
    if calls == [] then 0 else Count(calls[..|calls| - 1], key) + if calls[|calls| - 1].key == key then 1 else 0
  }

  /** The time of the first call of a key. */
  ghost function FirstTime(calls: seq<Call>, key: Key): real
    requires Count(calls, key) > 0
  {
    var n := |calls| - 1;
    if Count(calls[..n], key) > 0 then FirstTime(calls[..n], key) else calls[n].now
  }

  ghost function LastTime(calls: seq<Call>, key: Key): real
    requires Count(calls, key) > 0
  {
    var n := |calls| - 1;
    if calls[n].key == key then calls[n].now else LastTime(calls[..n], key)
  }

  ghost predicate InRange(cfg: Limits, buckets: Buckets) {
    forall key | key in buckets :: 0.0 <= buckets[key].tokens <= cfg.limit
  }

  lemma RateIsPositive(cfg: Limits, t: real)
    requires cfg.Valid()
    ensures cfg.Rate() > 0.0 && cfg.window / cfg.limit > 0.0 && (t >= 0.0 ==> t * cfg.Rate() >= 0.0)
    ensures t >= cfg.window / cfg.limit ==> t * cfg.Rate() >= 1.0
  {
    var spacing := cfg.window / cfg.limit;
    assert spacing * cfg.limit == cfg.window;
    assert cfg.Rate() * cfg.window == cfg.limit;
    assert spacing * cfg.Rate() == 1.0;
    if t >= spacing {
      assert (t - spacing) * cfg.Rate() >= 0.0;
      assert t * cfg.Rate() == (t - spacing) * cfg.Rate() + spacing * cfg.Rate();
    }
  }

  /** One decision keeps tokens between 0 and the burst, never turns time back, and pays for what it lets pass. */
  lemma DecideIsPaid(cfg: Limits, buckets: Buckets, call: Call)
    requires cfg.Valid() && InRange(cfg, buckets)
    ensures var (b, ok) := Decide(cfg, buckets, call);
      && 0.0 <= b.tokens <= cfg.limit && b.last >= call.now
      && (b.tokens + if ok then 1.0 else 0.0) <= cfg.limit
      && (call.key in buckets ==>
        && b.last >= buckets[call.key].last && (b.last == buckets[call.key].last || b.last == call.now)
        && b.tokens + (if ok then 1.0 else 0.0) <= buckets[call.key].tokens + (b.last - buckets[call.key].last) * cfg.Rate())
  {
    if call.key in buckets {
      RateIsPositive(cfg, call.now - buckets[call.key].last);
    }
  }

  /** Over any run tokens stay between 0 and the burst, even if the clock goes backwards. */
  lemma {:induction false} TokensStayInRange(cfg: Limits, buckets: Buckets, calls: seq<Call>)
    requires cfg.Valid() && InRange(cfg, buckets)
    ensures InRange(cfg, After(cfg, buckets, calls))
  {
    if calls != [] {
      var n := |calls| - 1;
      TokensStayInRange(cfg, buckets, calls[..n]);
      DecideIsPaid(cfg, After(cfg, buckets, calls[..n]), calls[n]);
    }
  }

  lemma EarningsAdd(rate: real, a: real, b: real, c: real)
    ensures (a - c) * rate == (a - b) * rate + (b - c) * rate
  {
  }

  lemma EarningsGrow(rate: real, a: real, b: real)
    requires rate > 0.0 && a <= b
    ensures a * rate <= b * rate
  {
    assert (b - a) * rate >= 0.0;
    assert b * rate == (b - a) * rate + a * rate;
  }

  /** Requests let through, plus tokens left, are at most the burst plus what was earned since `anchor`. */
  ghost predicate PaidFor(cfg: Limits, allowed: nat, b: Bucket, anchor: real)
    requires cfg.window > 0.0
  {
    allowed as real + b.tokens <= cfg.limit + (b.last - anchor) * cfg.Rate()
  }

  lemma NextIsPaidFor(cfg: Limits, buckets: Buckets, call: Call, allowed: nat, anchor: real)
    requires cfg.Valid() && InRange(cfg, buckets) && call.key in buckets && PaidFor(cfg, allowed, buckets[call.key], anchor)
    ensures var (b, ok) := Decide(cfg, buckets, call); PaidFor(cfg, allowed + if ok then 1 else 0, b, anchor)
  {
    DecideIsPaid(cfg, buckets, call);
    EarningsAdd(cfg.Rate(), Decide(cfg, buckets, call).0.last, buckets[call.key].last, anchor);
  }

  /** The bucket of a key after some calls, paid for since `anchor`, which is not before the first of them. */
  ghost predicate PaidUp(cfg: Limits, buckets: Buckets, calls: seq<Call>, key: Key, latest: real, anchor: real, b: Bucket)
    requires cfg.window > 0.0
  {
    && key in After(cfg, buckets, calls) && b == After(cfg, buckets, calls)[key] && b.tokens >= 0.0
    && Count(calls, key) > 0 && FirstTime(calls, key) <= anchor <= b.last && (b.last == anchor || b.last <= latest)
    && PaidFor(cfg, Allowed(cfg, buckets, calls, key), b, anchor)
  }

  lemma LaterCallIsPaid(cfg: Limits, buckets: Buckets, calls: seq<Call>, last: Call, key: Key, latest: real, anchor: real, b: Bucket, b': Bucket)
    requires cfg.Valid() && InRange(cfg, buckets) && PaidUp(cfg, buckets, calls, key, latest, anchor, b)
    requires last.key == key ==> last.now <= latest
    requires b' == if last.key == key then Decide(cfg, After(cfg, buckets, calls), last).0 else b
    ensures PaidUp(cfg, buckets, calls + [last], key, latest, anchor, b')
  {
    var before := After(cfg, buckets, calls);
    assert (calls + [last])[..|calls|] == calls;
    if last.key == key {
      TokensStayInRange(cfg, buckets, calls);
      DecideIsPaid(cfg, before, last);
      NextIsPaidFor(cfg, before, last, Allowed(cfg, buckets, calls, key), anchor);
    }
  }

  lemma FirstCallIsPaid(cfg: Limits, buckets: Buckets, calls: seq<Call>, first: Call, latest: real, b: Bucket)
    requires cfg.Valid() && InRange(cfg, buckets) && Count(calls, first.key) == 0 && first.now <= latest
    requires b == Decide(cfg, After(cfg, buckets, calls), first).0
    ensures PaidUp(cfg, buckets, calls + [first], first.key, latest, b.last, b)
  {
    assert (calls + [first])[..|calls|] == calls;
    TokensStayInRange(cfg, buckets, calls);
    DecideIsPaid(cfg, After(cfg, buckets, calls), first);
    NoneAllowed(cfg, buckets, calls, first.key);
    NothingEarned(cfg, b.last);
  }

  lemma NothingEarned(cfg: Limits, t: real)
    requires cfg.window > 0.0
    ensures (t - t) * cfg.Rate() == 0.0
  {
  }

  lemma {:induction false} AllowedIsPaidFor(cfg: Limits, buckets: Buckets, calls: seq<Call>, key: Key, latest: real) returns (anchor: real, b: Bucket)
    requires cfg.Valid() && InRange(cfg, buckets) && Count(calls, key) > 0
    requires forall i | 0 <= i < |calls| && calls[i].key == key :: calls[i].now <= latest
    ensures PaidUp(cfg, buckets, calls, key, latest, anchor, b)
  {
    var n := |calls| - 1;
    assert calls == calls[..n] + [calls[n]];
    if Count(calls[..n], key) > 0 {
      anchor, b := AllowedIsPaidFor(cfg, buckets, calls[..n], key, latest);
      var b' := if calls[n].key == key then Decide(cfg, After(cfg, buckets, calls[..n]), calls[n]).0 else b;
      LaterCallIsPaid(cfg, buckets, calls[..n], calls[n], key, latest, anchor, b, b');
      b := b';
    } else {
      b := Decide(cfg, After(cfg, buckets, calls[..n]), calls[n]).0;
      FirstCallIsPaid(cfg, buckets, calls[..n], calls[n], latest, b);
      anchor := b.last;
    }
  }

  lemma {:induction false} NoneAllowed(cfg: Limits, buckets: Buckets, calls: seq<Call>, key: Key)
    requires cfg.window > 0.0 && Count(calls, key) == 0
    ensures Allowed(cfg, buckets, calls, key) == 0
  {
    if calls != [] {
      NoneAllowed(cfg, buckets, calls[..|calls| - 1], key);
    }
  }

  /**
    For each key and any contiguous stretch of calls that lasts at most `elapsed`, from the
    key's first call to its latest reading: at most burst + rate * elapsed requests pass.
   */
  lemma AllowedIsBounded(cfg: Limits, buckets: Buckets, calls: seq<Call>, key: Key, elapsed: real, rate: real)
    requires cfg.Valid() && InRange(cfg, buckets) && Count(calls, key) > 0 && rate * cfg.window == cfg.limit
    requires forall i | 0 <= i < |calls| && calls[i].key == key :: calls[i].now <= FirstTime(calls, key) + elapsed
    ensures Allowed(cfg, buckets, calls, key) as real <= cfg.limit + elapsed * rate
  {
    var latest := FirstTime(calls, key) + elapsed;
    var anchor, b := AllowedIsPaidFor(cfg, buckets, calls, key, latest);
    FirstIsNotLater(calls, key, latest);
    PaidForIsBounded(cfg, Allowed(cfg, buckets, calls, key), b, anchor, elapsed);
    SameEarnings(cfg, elapsed, rate);
  }

  lemma SameEarnings(cfg: Limits, elapsed: real, rate: real)
    requires cfg.window > 0.0 && rate * cfg.window == cfg.limit
    ensures Earned(cfg, elapsed) == elapsed * rate
  {
    RateIsUnique(cfg, rate);
  }

  lemma RateIsUnique(cfg: Limits, rate: real)
    requires cfg.window > 0.0 && rate * cfg.window == cfg.limit
    ensures cfg.Rate() == rate
  {
    assert (rate * cfg.window) / cfg.window == rate;
  }

  lemma BoundByParts(allowed: real, tokens: real, limit: real, earned: real, most: real)
    requires allowed + tokens <= limit + earned && tokens >= 0.0 && earned <= most
    ensures allowed <= limit + most
  {
  }

  lemma PaidForIsBounded(cfg: Limits, allowed: nat, b: Bucket, anchor: real, elapsed: real)
    requires cfg.Valid() && PaidFor(cfg, allowed, b, anchor) && b.tokens >= 0.0 && b.last - anchor <= elapsed
    ensures allowed as real <= cfg.limit + Earned(cfg, elapsed)
  {
    RateIsPositive(cfg, 0.0);
    EarningsGrow(cfg.Rate(), b.last - anchor, elapsed);
    BoundByParts(allowed as real, b.tokens, cfg.limit, (b.last - anchor) * cfg.Rate(), elapsed * cfg.Rate());
  }

  lemma {:induction false} FirstIsNotLater(calls: seq<Call>, key: Key, latest: real)
    requires Count(calls, key) > 0
    requires forall i | 0 <= i < |calls| && calls[i].key == key :: calls[i].now <= latest
    ensures FirstTime(calls, key) <= latest
  {
    var n := |calls| - 1;
    if Count(calls[..n], key) > 0 {
      FirstIsNotLater(calls[..n], key, latest);
    }
  }

  /** The calls of one key are at least window/limit apart. */
  ghost predicate Spaced(cfg: Limits, calls: seq<Call>, key: Key)
    requires cfg.limit > 0.0
  {
    calls == [] ||
    (var n := |calls| - 1;
     Spaced(cfg, calls[..n], key)
     && (calls[n].key == key && Count(calls[..n], key) > 0 ==> calls[n].now - LastTime(calls[..n], key) >= cfg.window / cfg.limit))
  }

  lemma SpacedCallPasses(cfg: Limits, buckets: Buckets, call: Call)
    requires cfg.Valid() && InRange(cfg, buckets)
    requires call.key in buckets ==> call.now - buckets[call.key].last >= cfg.window / cfg.limit
    ensures Decide(cfg, buckets, call).1 && Decide(cfg, buckets, call).0.last == call.now
  {
    if call.key in buckets {
      var b := buckets[call.key];
      RateIsPositive(cfg, call.now - b.last);
      assert Refill(cfg, b, call.now).last == call.now;
      assert b.tokens + (call.now - b.last) * cfg.Rate() >= 1.0;
      assert Refill(cfg, b, call.now).tokens >= 1.0;
    }
  }

  /** The first call of a stretch keeps its distance from the last reading of the bucket it finds. */
  ghost predicate Rested(cfg: Limits, buckets: Buckets, calls: seq<Call>, key: Key)
    requires cfg.limit > 0.0
  {
    key in buckets && Count(calls, key) > 0 ==> FirstTime(calls, key) - buckets[key].last >= cfg.window / cfg.limit
  }

  /** In any stretch of calls, a client that keeps to its rate is never refused. */
  lemma {:induction false} SpacedIsNeverRefused(cfg: Limits, buckets: Buckets, calls: seq<Call>, key: Key)
    requires cfg.Valid() && InRange(cfg, buckets) && Rested(cfg, buckets, calls, key) && Spaced(cfg, calls, key)
    ensures Allowed(cfg, buckets, calls, key) == Count(calls, key)
    ensures key in After(cfg, buckets, calls) <==> key in buckets || Count(calls, key) > 0
    ensures Count(calls, key) > 0 ==> After(cfg, buckets, calls)[key].last == LastTime(calls, key)
    ensures Count(calls, key) == 0 && key in buckets ==> After(cfg, buckets, calls)[key] == buckets[key]
  {
    if calls != [] {
      var n := |calls| - 1;
      var before := After(cfg, buckets, calls[..n]);
      assert Rested(cfg, buckets, calls[..n], key);
      SpacedIsNeverRefused(cfg, buckets, calls[..n], key);
      TokensStayInRange(cfg, buckets, calls[..n]);
      if calls[n].key == key {
        SpacedCallPasses(cfg, before, calls[n]);
      }
    }
  }

  /** At least `start` tokens are there when the first call of a stretch is decided: a new or rested key has its whole burst. */
  ghost predicate StartsWith(cfg: Limits, buckets: Buckets, calls: seq<Call>, key: Key, start: real) {
    start <= cfg.limit
    && (key in buckets ==>
      start <= buckets[key].tokens || (Count(calls, key) > 0 ==> FirstTime(calls, key) - buckets[key].last >= cfg.window))
  }

  lemma RefillNeverTakes(cfg: Limits, b: Bucket, now: real)
    requires cfg.Valid() && b.tokens <= cfg.limit
    ensures Refill(cfg, b, now).tokens >= b.tokens
  {
    RateIsPositive(cfg, now - b.last);
  }

  lemma RestRefills(cfg: Limits, b: Bucket, now: real)
    requires cfg.Valid() && b.tokens >= 0.0 && now - b.last >= cfg.window
    ensures Refill(cfg, b, now).tokens == cfg.limit
  {
    RateIsPositive(cfg, 0.0);
    WindowEarnsLimit(cfg, now - b.last);
  }

  lemma WindowEarnsLimit(cfg: Limits, elapsed: real)
    requires cfg.Valid() && elapsed >= cfg.window && cfg.Rate() > 0.0
    ensures Earned(cfg, elapsed) >= cfg.limit
  {
    EarningsGrow(cfg.Rate(), cfg.window, elapsed);
  }

  /** A key that has been called keeps what it has not spent. */
  ghost predicate Outlasts(cfg: Limits, buckets: Buckets, calls: seq<Call>, key: Key, start: real)
    requires cfg.window > 0.0
  {
    && key in After(cfg, buckets, calls)
    && After(cfg, buckets, calls)[key].tokens >= start - Allowed(cfg, buckets, calls, key) as real
  }

  lemma FirstCallStarts(cfg: Limits, buckets: Buckets, calls: seq<Call>, first: Call, start: real)
    requires cfg.Valid() && InRange(cfg, buckets) && Count(calls, first.key) == 0 && StartsWith(cfg, buckets, calls + [first], first.key, start)
    ensures Outlasts(cfg, buckets, calls + [first], first.key, start)
    ensures Allowed(cfg, buckets, calls + [first], first.key) == 1 || start < 1.0
  {
    assert (calls + [first])[..|calls|] == calls;
    NoneAllowed(cfg, buckets, calls, first.key);
    UntouchedStays(cfg, buckets, calls, first.key);
    if first.key in buckets {
      RefillNeverTakes(cfg, buckets[first.key], first.now);
      if first.now - buckets[first.key].last >= cfg.window {
        RestRefills(cfg, buckets[first.key], first.now);
      }
    }
  }

  lemma {:induction false} UntouchedStays(cfg: Limits, buckets: Buckets, calls: seq<Call>, key: Key)
    requires cfg.window > 0.0 && Count(calls, key) == 0
    ensures key in After(cfg, buckets, calls) <==> key in buckets
    ensures key in buckets ==> After(cfg, buckets, calls)[key] == buckets[key]
  {
    if calls != [] {
      UntouchedStays(cfg, buckets, calls[..|calls| - 1], key);
    }
  }

  lemma NextCallOutlasts(cfg: Limits, buckets: Buckets, calls: seq<Call>, next: Call, key: Key, start: real)
    requires cfg.Valid() && InRange(cfg, buckets) && Outlasts(cfg, buckets, calls, key, start)
    ensures Outlasts(cfg, buckets, calls + [next], key, start)
    ensures next.key == key && Allowed(cfg, buckets, calls + [next], key) == Allowed(cfg, buckets, calls, key) ==>
              Allowed(cfg, buckets, calls, key) as real > start - 1.0
  {
    assert (calls + [next])[..|calls|] == calls;
    TokensStayInRange(cfg, buckets, calls);
    RefillNeverTakes(cfg, After(cfg, buckets, calls)[key], next.now);
  }

  /**
    In any stretch of calls and with any clock readings, a key is refused only after it has spent
    what it started with: either every call passes, or more than start - 1 do.
   */
  lemma {:induction false} RefusedOnlyWhenSpent(cfg: Limits, buckets: Buckets, calls: seq<Call>, key: Key, start: real)
    requires cfg.Valid() && InRange(cfg, buckets) && StartsWith(cfg, buckets, calls, key, start)
    ensures Allowed(cfg, buckets, calls, key) == Count(calls, key) || Allowed(cfg, buckets, calls, key) as real > start - 1.0
    ensures Count(calls, key) > 0 ==> Outlasts(cfg, buckets, calls, key, start)
  {
    if calls != [] {
      var n := |calls| - 1;
      assert calls == calls[..n] + [calls[n]];
      RefusedOnlyWhenSpent(cfg, buckets, calls[..n], key, start);
      if Count(calls[..n], key) > 0 {
        NextCallOutlasts(cfg, buckets, calls[..n], calls[n], key, start);
      } else {
        NoneAllowed(cfg, buckets, calls[..n], key);
        if calls[n].key == key {
          FirstCallStarts(cfg, buckets, calls[..n], calls[n], start);
        }
      }
    }
  }

  /** So a key that is new, or has rested for a whole window, gets its burst at once, whatever the clock says. */
  lemma BurstPasses(cfg: Limits, buckets: Buckets, calls: seq<Call>, key: Key)
    requires cfg.Valid() && InRange(cfg, buckets) && Count(calls, key) as real <= cfg.limit
    requires key in buckets && Count(calls, key) > 0 ==> FirstTime(calls, key) - buckets[key].last >= cfg.window
    ensures Allowed(cfg, buckets, calls, key) == Count(calls, key)
  {
    RefusedOnlyWhenSpent(cfg, buckets, calls, key, cfg.limit);
    AllowedAreCounted(cfg, buckets, calls, key);
  }

  lemma {:induction false} AllowedAreCounted(cfg: Limits, buckets: Buckets, calls: seq<Call>, key: Key)
    requires cfg.window > 0.0
    ensures Allowed(cfg, buckets, calls, key) <= Count(calls, key)
  {
    if calls != [] {
      AllowedAreCounted(cfg, buckets, calls[..|calls| - 1], key);
    }
  }

  lemma {:induction false} AfterSplits(cfg: Limits, buckets: Buckets, head: seq<Call>, tail: seq<Call>)
    requires cfg.window > 0.0
    ensures After(cfg, After(cfg, buckets, head), tail) == After(cfg, buckets, head + tail)
  {
    if tail != [] {
      var n := |tail| - 1;
      AfterSplits(cfg, buckets, head, tail[..n]);
      assert (head + tail)[..|head + tail| - 1] == head + tail[..n];
    } else {
      assert head + tail == head;
    }
  }

  /** Since `anchor`, when the bucket was full, it has earned and spent without ever overflowing. */
  ghost predicate SpentExactly(cfg: Limits, allowed: nat, b: Bucket, anchor: real)
    requires cfg.window > 0.0
  {
    b.tokens == cfg.limit - allowed as real + (b.last - anchor) * cfg.Rate()
  }

  /** The stretch from call k on, whose first call found its key's bucket full and left it at the reading `anchor`. */
  ghost predicate Busy(cfg: Limits, buckets: Buckets, calls: seq<Call>, key: Key, k: nat, anchor: real)
    requires cfg.window > 0.0
  {
    && k < |calls| && calls[k].key == key && key in After(cfg, buckets, calls)
    && calls[k].now <= anchor <= After(cfg, buckets, calls)[key].last
    && SpentExactly(cfg, Allowed(cfg, After(cfg, buckets, calls[..k]), calls[k..], key), After(cfg, buckets, calls)[key], anchor)
  }

  lemma DecideOnFull(cfg: Limits, buckets: Buckets, call: Call) returns (anchor: real)
    requires cfg.Valid() && (call.key in buckets ==> Refill(cfg, buckets[call.key], call.now).tokens == cfg.limit)
    ensures Decide(cfg, buckets, call).1 && Decide(cfg, buckets, call).0.last == anchor >= call.now
    ensures SpentExactly(cfg, 1, Decide(cfg, buckets, call).0, anchor)
  {
    anchor := Decide(cfg, buckets, call).0.last;
    assert (anchor - anchor) * cfg.Rate() == 0.0;
  }

  lemma DecideSpendsExactly(cfg: Limits, buckets: Buckets, call: Call, allowed: nat, anchor: real)
    requires cfg.Valid() && call.key in buckets && SpentExactly(cfg, allowed, buckets[call.key], anchor)
    requires Refill(cfg, buckets[call.key], call.now).tokens < cfg.limit
    ensures SpentExactly(cfg, allowed, Refill(cfg, buckets[call.key], call.now), anchor)
    ensures SpentExactly(cfg, allowed + if Decide(cfg, buckets, call).1 then 1 else 0, Decide(cfg, buckets, call).0, anchor)
  {
    EarningsAdd(cfg.Rate(), Refill(cfg, buckets[call.key], call.now).last, buckets[call.key].last, anchor);
  }

  lemma NewStretch(cfg: Limits, buckets: Buckets, calls: seq<Call>, next: Call) returns (anchor: real)
    requires cfg.Valid() && var before := After(cfg, buckets, calls);
      next.key in before ==> Refill(cfg, before[next.key], next.now).tokens == cfg.limit
    ensures Busy(cfg, buckets, calls + [next], next.key, |calls|, anchor)
  {
    var all := calls + [next];
    assert all[..|calls|] == calls && all[|calls|..] == [next] && [next][..0] == [];
    anchor := DecideOnFull(cfg, After(cfg, buckets, calls), next);
  }

  lemma NextDecision(cfg: Limits, buckets: Buckets, calls: seq<Call>, next: Call, key: Key)
    requires cfg.window > 0.0
    ensures var before := After(cfg, buckets, calls);
      && After(cfg, buckets, calls + [next]) == before[next.key := Decide(cfg, before, next).0]
      && Allowed(cfg, buckets, calls + [next], key)
        == Allowed(cfg, buckets, calls, key) + if next.key == key && Decide(cfg, before, next).1 then 1 else 0
  {
    assert (calls + [next])[..|calls|] == calls;
  }

  /** One more call adds its own decision to the stretch. */
  lemma StretchGrows(cfg: Limits, buckets: Buckets, calls: seq<Call>, next: Call, key: Key, k: nat)
    requires cfg.window > 0.0 && k < |calls|
    ensures var all, base, before := calls + [next], After(cfg, buckets, calls[..k]), After(cfg, buckets, calls);
      && all[..k] == calls[..k]
      && After(cfg, buckets, all) == before[next.key := Decide(cfg, before, next).0]
      && Allowed(cfg, base, all[k..], key)
        == Allowed(cfg, base, calls[k..], key) + if next.key == key && Decide(cfg, before, next).1 then 1 else 0
  {
    assert (calls + [next])[k..] == calls[k..] + [next] && calls[..k] + calls[k..] == calls;
    AfterSplits(cfg, buckets, calls[..k], calls[k..]);
    NextDecision(cfg, buckets, calls, next, key);
    NextDecision(cfg, After(cfg, buckets, calls[..k]), calls[k..], next, key);
  }

  lemma LongerStretch(cfg: Limits, buckets: Buckets, calls: seq<Call>, next: Call, key: Key, k: nat, anchor: real)
    requires cfg.Valid() && Busy(cfg, buckets, calls, key, k, anchor)
    requires next.key == key ==> Refill(cfg, After(cfg, buckets, calls)[key], next.now).tokens < cfg.limit
    ensures Busy(cfg, buckets, calls + [next], key, k, anchor)
  {
    StretchGrows(cfg, buckets, calls, next, key, k);
    if next.key == key {
      DecideSpendsExactly(cfg, After(cfg, buckets, calls), next, Allowed(cfg, After(cfg, buckets, calls[..k]), calls[k..], key), anchor);
    }
  }

  /** Every bucket is in such a stretch, since a new one starts full. */
  lemma {:induction false} AlwaysBusy(cfg: Limits, buckets: Buckets, calls: seq<Call>, key: Key) returns (k: nat, anchor: real)
    requires cfg.Valid() && InRange(cfg, buckets) && key !in buckets && Count(calls, key) > 0
    ensures Busy(cfg, buckets, calls, key, k, anchor)
  {
    var n := |calls| - 1;
    var before := After(cfg, buckets, calls[..n]);
    assert calls == calls[..n] + [calls[n]];
    if Count(calls[..n], key) > 0 {
      k, anchor := AlwaysBusy(cfg, buckets, calls[..n], key);
      if calls[n].key != key || Refill(cfg, before[key], calls[n].now).tokens < cfg.limit {
        LongerStretch(cfg, buckets, calls[..n], calls[n], key, k, anchor);
        return;
      }
      TokensStayInRange(cfg, buckets, calls[..n]);
      RefillIsCapped(cfg, before[key], calls[n].now);
    } else {
      UntouchedStays(cfg, buckets, calls[..n], key);
    }
    k := n;
    anchor := NewStretch(cfg, buckets, calls[..n], calls[n]);
  }

  lemma RefillIsCapped(cfg: Limits, b: Bucket, now: real)
    requires cfg.window > 0.0 && b.tokens <= cfg.limit
    ensures Refill(cfg, b, now).tokens <= cfg.limit
  {
  }

  /**
    The bound is sharp: a call is refused only if letting it pass would bring the requests of some
    stretch, from an earlier call that found the bucket full, above burst + rate * elapsed.
   */
  lemma RefusedOnlyAtTheBound(cfg: Limits, buckets: Buckets, calls: seq<Call>, call: Call, rate: real)
    returns (k: nat, anchor: real, elapsed: real)
    requires cfg.Valid() && InRange(cfg, buckets) && call.key !in buckets && rate * cfg.window == cfg.limit
    requires !Decide(cfg, After(cfg, buckets, calls), call).1
    ensures k < |calls| && calls[k].key == call.key && calls[k].now <= anchor && call.now <= anchor + elapsed
    ensures Allowed(cfg, After(cfg, buckets, calls[..k]), calls[k..], call.key) as real + 1.0 > cfg.limit + elapsed * rate
  {
    var before := After(cfg, buckets, calls);
    if Count(calls, call.key) == 0 {
      UntouchedStays(cfg, buckets, calls, call.key);
    }
    k, anchor := AlwaysBusy(cfg, buckets, calls, call.key);
    elapsed := RefusedIsBroke(cfg, before, call, Allowed(cfg, After(cfg, buckets, calls[..k]), calls[k..], call.key), anchor, rate);
  }

  lemma RefusedIsBroke(cfg: Limits, buckets: Buckets, call: Call, allowed: nat, anchor: real, rate: real) returns (elapsed: real)
    requires cfg.Valid() && rate * cfg.window == cfg.limit && !Decide(cfg, buckets, call).1
    requires call.key in buckets && SpentExactly(cfg, allowed, buckets[call.key], anchor)
    ensures allowed as real + 1.0 > cfg.limit + elapsed * rate && call.now <= anchor + elapsed
  {
    var b := Refill(cfg, buckets[call.key], call.now);
    DecideSpendsExactly(cfg, buckets, call, allowed, anchor);
    elapsed := b.last - anchor;
    SameEarnings(cfg, elapsed, rate);
    BrokeIsBound(cfg, allowed, b.tokens, elapsed * cfg.Rate(), elapsed * rate);
  }

  lemma BrokeIsBound(cfg: Limits, allowed: nat, tokens: real, earned: real, same: real)
    requires tokens == cfg.limit - allowed as real + earned && tokens < 1.0 && earned == same
    ensures allowed as real + 1.0 > cfg.limit + same
  {
  }
}
