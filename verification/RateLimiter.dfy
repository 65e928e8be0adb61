/** `healer/ratelimit.py`: token buckets per contract behind one global bucket, over the reals.

Calls carry the time read before the lock is taken; those times are taken to be
non-decreasing, which the code does not enforce (it overwrites `updated_at` regardless). */
module RateLimiter {
  import opened Collections

  type Key = string

  const IDLE_EVICTION_SECONDS: real := 900.0
  const UNATTRIBUTED_KEY: Key := "<unattributed>"

  datatype Bucket = Bucket(tokens: real, capacity: real, rate: real, updatedAt: real)

  /** `retry_after_seconds`: no wait, some seconds, or infinity. */
  datatype Wait = NoWait | Seconds(s: real) | Forever

  datatype Scope = OfKey(key: Key) | Global

  datatype Decision = Decision(allowed: bool, retryAfter: Wait, scope: Scope)

  function Max(a: real, b: real): real { if a < b then b else a }

  function Min(a: real, b: real): real { if a < b then a else b }

  function One(b: bool): real { if b then 1.0 else 0.0 }

  function Refill(b: Bucket, now: real): Bucket {
    b.(tokens := Min(b.capacity, b.tokens + Max(0.0, now - b.updatedAt) * b.rate), updatedAt := now)
  }

  /** What `_refill_and_peek` returns for a refilled bucket. */
  function Peek(b: Bucket): Wait {
    if b.tokens >= 1.0 then NoWait
    else if b.rate <= 0.0 then Forever
    else Seconds((1.0 - b.tokens) / b.rate)
  }

  function Take(b: Bucket): Bucket {
    b.(tokens := b.tokens - 1.0)
  }

  /** The configuration; `evicts` is true in the code and false for the limiter it stands for. */
  datatype Config = Config(rate: real, burst: real, globalRate: real, evicts: bool) {
    predicate Ok() {
      rate >= 0.0 && burst >= 0.0 && globalRate >= 0.0
    }

    function GlobalCapacity(): real {
      Max(1.0, globalRate * 60.0)
    }
  }

  datatype Limiter = Limiter(buckets: map<Key, Bucket>, global: Bucket)

  function Start(c: Config, now: real): Limiter {
    Limiter(map[], Bucket(c.GlobalCapacity(), c.GlobalCapacity(), c.globalRate, now))
  }

  function Evicted(c: Config, buckets: map<Key, Bucket>, now: real): map<Key, Bucket> {
    if c.evicts then
      map k | k in buckets && !(now - buckets[k].updatedAt > IDLE_EVICTION_SECONDS) :: buckets[k]
    else buckets
  }

  function BucketFor(c: Config, buckets: map<Key, Bucket>, k: Key, now: real): Bucket {
    if k in buckets then buckets[k] else Bucket(c.burst, c.burst, c.rate, now)
  }

  /** One call of `check`: the new state and the decision. */
  function Check(c: Config, l: Limiter, k: Key, now: real): (Limiter, Decision) {
    var kept := Evicted(c, l.buckets, now);
    var b := Refill(BucketFor(c, kept, k, now), now);
    if Peek(b) != NoWait then
      (Limiter(kept[k := b], l.global), Decision(false, Peek(b), OfKey(k)))
    else
      var g := Refill(l.global, now);
      if Peek(g) != NoWait then
        (Limiter(kept[k := b], g), Decision(false, Peek(g), Global))
      else
        (Limiter(kept[k := Take(b)], Take(g)), Decision(true, NoWait, OfKey(k)))
  }

  /** The object the server keeps, with its fields updated in place. */
  class TokenBucketLimiter {
    const config: Config
    var buckets: map<Key, Bucket>
    var global: Bucket

    ghost function State(): Limiter reads this {
      Limiter(buckets, global)
    }

    constructor (ratePerMinute: real, burst: real, globalRatePerMinute: real, now: real)
      ensures config == Config(ratePerMinute / 60.0, burst, globalRatePerMinute / 60.0, true)
      ensures State() == Start(config, now)
      ensures var capacity := if globalRatePerMinute < 1.0 then 1.0 else globalRatePerMinute;
        buckets == map[] && global == Bucket(capacity, capacity, globalRatePerMinute / 60.0, now)
    {
      config := Config(ratePerMinute / 60.0, burst, globalRatePerMinute / 60.0, true);
      buckets := map[];
      var capacity := Max(1.0, globalRatePerMinute / 60.0 * 60.0);
      global := Bucket(capacity, capacity, globalRatePerMinute / 60.0, now);
    }

    method CheckKey(key: Option<Key>, now: real) returns (d: Decision)
      modifies this
      ensures var k := if key.None? || key.value == "" then UNATTRIBUTED_KEY else key.value;
        (State(), d) == Check(config, old(State()), k, now)
    {
      var k := if key.None? || key.value == "" then UNATTRIBUTED_KEY else key.value;
      EvictIdle(now);
      if k !in buckets {
        buckets := buckets[k := Bucket(config.burst, config.burst, config.rate, now)];
      }
      var b := Refill(buckets[k], now);
      buckets := buckets[k := b];
      assert buckets == Evicted(config, old(buckets), now)[k := b];
      if Peek(b) != NoWait {
        return Decision(false, Peek(b), OfKey(k));
      }
      global := Refill(global, now);
      if Peek(global) != NoWait {
        return Decision(false, Peek(global), Global);
      }
      buckets := buckets[k := Take(b)];
      assert buckets == Evicted(config, old(buckets), now)[k := Take(b)];
      global := Take(global);
      d := Decision(true, NoWait, OfKey(k));
    }

    method EvictIdle(now: real)
      modifies this`buckets
      ensures buckets == Evicted(config, old(buckets), now)
    {
      if config.evicts {
        buckets := map k | k in buckets && !(now - buckets[k].updatedAt > IDLE_EVICTION_SECONDS) :: buckets[k];
      }
    }
  }

  // ----- Traces -----

  datatype Call = Call(key: Key, at: real)

  ghost predicate Ordered(start: real, calls: seq<Call>) {
    && (forall i :: 0 <= i < |calls| ==> start <= calls[i].at)
    && (forall i, j :: 0 <= i < j < |calls| ==> calls[i].at <= calls[j].at)
  }

  /** The limiter after a sequence of calls. */
  function After(c: Config, l: Limiter, calls: seq<Call>): Limiter {
    if calls == [] then l
    else
      var last := calls[|calls| - 1];
      Check(c, After(c, l, calls[..|calls| - 1]), last.key, last.at).0
  }

  function DecisionAt(c: Config, l: Limiter, calls: seq<Call>, i: nat): Decision
    requires i < |calls|
  {
    Check(c, After(c, l, calls[..i]), calls[i].key, calls[i].at).1
  }

  lemma {:induction false} AfterAppend(c: Config, l: Limiter, a: seq<Call>, b: seq<Call>)
    ensures After(c, l, a + b) == After(c, After(c, l, a), b)
  {
    if b == [] {
      assert a + b == a;
    } else {
      AfterAppend(c, l, a, b[..|b| - 1]);
      assert (a + b)[..|a + b| - 1] == a + b[..|b| - 1];
    }
  }

  // ----- What a bucket is worth -----

  ghost predicate BucketOk(b: Bucket, capacity: real, rate: real, now: real) {
    b.capacity == capacity && b.rate == rate && b.updatedAt <= now && 0.0 <= b.tokens <= capacity
  }

  /** Tokens stay within [0, capacity] and no bucket is from the future. */
  ghost predicate Ok(c: Config, l: Limiter, now: real) {
    && c.Ok()
    && (forall k <- l.buckets :: BucketOk(l.buckets[k], c.burst, c.rate, now))
    && BucketOk(l.global, c.GlobalCapacity(), c.globalRate, now)
  }

  /** The tokens key `k` would have at time `now`, whether its bucket is stored or not. */
  function Level(c: Config, l: Limiter, k: Key, now: real): real {
    if k in l.buckets then Refill(l.buckets[k], now).tokens else c.burst
  }

  function GlobalLevel(l: Limiter, now: real): real {
    Refill(l.global, now).tokens
  }

  lemma Scale(a: real, b: real, r: real)
    requires a <= b && r >= 0.0
    ensures a * r <= b * r
  {
  }

  /** Refilling now and again later is refilling once, later. */
  lemma RefillComposes(b: Bucket, mid: real, now: real)
    requires b.updatedAt <= mid <= now && b.rate >= 0.0
    ensures Refill(Refill(b, mid), now) == Refill(b, now)
  {
    assert (now - b.updatedAt) * b.rate == (mid - b.updatedAt) * b.rate + (now - mid) * b.rate;
    Scale(0.0, now - mid, b.rate);
  }

  lemma RefillOk(b: Bucket, capacity: real, rate: real, now: real)
    requires BucketOk(b, capacity, rate, now) && rate >= 0.0
    ensures BucketOk(Refill(b, now), capacity, rate, now)
  {
    Scale(0.0, now - b.updatedAt, rate);
  }

  /** A level later is a function of the level now. */
  lemma LevelGrows(c: Config, l: Limiter, k: Key, mid: real, now: real)
    requires Ok(c, l, mid) && mid <= now
    ensures Level(c, l, k, now) == Min(c.burst, Level(c, l, k, mid) + (now - mid) * c.rate)
    ensures 0.0 <= Level(c, l, k, mid) <= c.burst
  {
    Scale(0.0, now - mid, c.rate);
    if k in l.buckets {
      RefillOk(l.buckets[k], c.burst, c.rate, mid);
      RefillComposes(l.buckets[k], mid, now);
    }
  }

  lemma GlobalLevelGrows(c: Config, l: Limiter, mid: real, now: real)
    requires Ok(c, l, mid) && mid <= now
    ensures GlobalLevel(l, now) == Min(c.GlobalCapacity(), GlobalLevel(l, mid) + (now - mid) * c.globalRate)
    ensures 0.0 <= GlobalLevel(l, mid) <= c.GlobalCapacity()
  {
    RefillOk(l.global, c.GlobalCapacity(), c.globalRate, mid);
    RefillComposes(l.global, mid, now);
  }

  /** Idle for longer than the threshold means full again, given enough refill rate. */
  ghost predicate RefillsInTime(c: Config) {
    !c.evicts || c.burst <= IDLE_EVICTION_SECONDS * c.rate
  }

  lemma EvictionKeepsLevels(c: Config, l: Limiter, k: Key, now: real)
    requires Ok(c, l, now) && RefillsInTime(c)
    ensures Level(c, Limiter(Evicted(c, l.buckets, now), l.global), k, now) == Level(c, l, k, now)
  {
    if k in l.buckets && k !in Evicted(c, l.buckets, now) {
      var elapsed := now - l.buckets[k].updatedAt;
      Scale(IDLE_EVICTION_SECONDS, elapsed, c.rate);
      assert c.evicts && elapsed > IDLE_EVICTION_SECONDS;
      assert c.burst <= IDLE_EVICTION_SECONDS * c.rate <= elapsed * c.rate;
    }
  }

  /** What a decision depends on, and what it changes: levels, nothing else. */
  function Verdict(c: Config, k: Key, level: real, global: real): Decision {
    if level < 1.0 then
      Decision(false, if c.rate <= 0.0 then Forever else Seconds((1.0 - level) / c.rate), OfKey(k))
    else if global < 1.0 then
      Decision(false, if c.globalRate <= 0.0 then Forever else Seconds((1.0 - global) / c.globalRate), Global)
    else
      Decision(true, NoWait, OfKey(k))
  }

  lemma BucketLevel(c: Config, l: Limiter, k: Key, now: real)
    requires Ok(c, l, now) && RefillsInTime(c)
    ensures var b := Refill(BucketFor(c, Evicted(c, l.buckets, now), k, now), now);
      BucketOk(b, c.burst, c.rate, now) && b.tokens == Level(c, l, k, now)
  {
    EvictionKeepsLevels(c, l, k, now);
    RefillOk(BucketFor(c, Evicted(c, l.buckets, now), k, now), c.burst, c.rate, now);
  }

  /** One call, under any configuration: tokens stay in range, and the global bucket pays exactly
  for what is admitted. */
  lemma CheckKeepsOk(c: Config, l: Limiter, k: Key, now: real)
    requires Ok(c, l, now)
    ensures var (after, d) := Check(c, l, k, now);
      && Ok(c, after, now)
      && GlobalLevel(after, now) == GlobalLevel(l, now) - One(d.allowed)
  {
    var b := BucketFor(c, Evicted(c, l.buckets, now), k, now);
    RefillOk(b, c.burst, c.rate, now);
    RefillOk(l.global, c.GlobalCapacity(), c.globalRate, now);
    var (after, d) := Check(c, l, k, now);
    assert after.buckets[k] == if d.allowed then Take(Refill(b, now)) else Refill(b, now);
    forall o | o in after.buckets ensures BucketOk(after.buckets[o], c.burst, c.rate, now) {
      if o != k { assert o in l.buckets && after.buckets[o] == l.buckets[o]; }
    }
  }

  /** Forgotten: no bucket is stored, or it has been idle for too long. */
  predicate Forgotten(c: Config, l: Limiter, k: Key, now: real) {
    k !in l.buckets || (c.evicts && now - l.buckets[k].updatedAt > 900.0)
  }

  /** One call, under any configuration.  A key has what it had and what it has earned since, at
  most its burst, and all of that when it is forgotten; the call is admitted exactly when the key
  and then the global bucket have a whole token, and takes one from each; a key without one does
  not touch the global bucket; every other key keeps its bucket or is forgotten. */
  lemma CheckExactly(c: Config, l: Limiter, k: Key, now: real)
    requires Ok(c, l, now)
    ensures var (after, d) := Check(c, l, k, now);
      var own := if Forgotten(c, l, k, now) then c.burst
                 else var b := l.buckets[k]; Min(c.burst, b.tokens + (now - b.updatedAt) * c.rate);
      var all := Min(c.GlobalCapacity(), l.global.tokens + (now - l.global.updatedAt) * c.globalRate);
      && (d.allowed <==> own >= 1.0 && all >= 1.0)
      && d.scope == (if own >= 1.0 && all < 1.0 then Global else OfKey(k))
      && (forall o :: o in after.buckets <==> o == k || !Forgotten(c, l, o, now))
      && (forall o <- after.buckets :: o != k ==> after.buckets[o] == l.buckets[o])
      && after.buckets[k] == Bucket(own - One(d.allowed), c.burst, c.rate, now)
      && after.global == if own >= 1.0 then Bucket(all - One(d.allowed), c.GlobalCapacity(), c.globalRate, now)
                         else l.global
  {
    OwnTokens(c, l, k, now);
    RefillIs(l.global, now);
    hide Refill, Min, Max, Config.GlobalCapacity, BucketFor;
    var b := Refill(BucketFor(c, Evicted(c, l.buckets, now), k, now), now);
    PeekIs(b);
    PeekIs(Refill(l.global, now));
    hide Peek;
  }

  lemma PeekIs(b: Bucket)
    ensures Peek(b) == NoWait <==> b.tokens >= 1.0
  {
  }

  lemma RefillIs(b: Bucket, now: real)
    requires b.updatedAt <= now
    ensures Refill(b, now) == Bucket(Min(b.capacity, b.tokens + (now - b.updatedAt) * b.rate), b.capacity, b.rate, now)
  {
  }

  lemma OwnTokens(c: Config, l: Limiter, k: Key, now: real)
    requires Ok(c, l, now)
    ensures Refill(BucketFor(c, Evicted(c, l.buckets, now), k, now), now)
      == Bucket(if Forgotten(c, l, k, now) then c.burst
                else var b := l.buckets[k]; Min(c.burst, b.tokens + (now - b.updatedAt) * c.rate),
                c.burst, c.rate, now)
  {
    RefillIs(BucketFor(c, Evicted(c, l.buckets, now), k, now), now);
    hide Refill;
    assert (now - now) * c.rate == 0.0;
  }

  lemma CheckByLevels(c: Config, l: Limiter, k: Key, now: real)
    requires Ok(c, l, now) && RefillsInTime(c)
    ensures Check(c, l, k, now).1 == Verdict(c, k, Level(c, l, k, now), GlobalLevel(l, now))
  {
    BucketLevel(c, l, k, now);
  }

  lemma CheckChangesLevel(c: Config, l: Limiter, k: Key, now: real, o: Key)
    requires Ok(c, l, now) && RefillsInTime(c)
    ensures var (after, d) := Check(c, l, k, now);
      Level(c, after, o, now) == Level(c, l, o, now) - (if d.allowed && o == k then 1.0 else 0.0)
  {
    if o == k {
      BucketLevel(c, l, k, now);
      var b := Refill(BucketFor(c, Evicted(c, l.buckets, now), k, now), now);
      var (after, d) := Check(c, l, k, now);
      assert after.buckets[k] == if d.allowed then Take(b) else b;
    } else {
      EvictionKeepsLevels(c, l, o, now);
    }
  }

  // ----- Two limiters that cannot be told apart -----

  ghost predicate Alike(c: Config, l: Limiter, d: Config, m: Limiter, now: real) {
    && d == c.(evicts := d.evicts) && Ok(c, l, now) && Ok(d, m, now)
    && RefillsInTime(c) && RefillsInTime(d)
    && GlobalLevel(l, now) == GlobalLevel(m, now)
    && forall k :: Level(c, l, k, now) == Level(d, m, k, now)
  }

  lemma OkLater(c: Config, l: Limiter, mid: real, now: real)
    requires Ok(c, l, mid) && mid <= now
    ensures Ok(c, l, now)
  {
  }

  lemma AlikeLater(c: Config, l: Limiter, d: Config, m: Limiter, mid: real, now: real)
    requires Alike(c, l, d, m, mid) && mid <= now
    ensures Alike(c, l, d, m, now)
  {
    hide Level, Refill;
    OkLater(c, l, mid, now);
    OkLater(d, m, mid, now);
    forall o ensures Level(c, l, o, now) == Level(d, m, o, now) {
      LevelGrows(c, l, o, mid, now);
      LevelGrows(d, m, o, mid, now);
    }
    GlobalLevelGrows(c, l, mid, now);
    GlobalLevelGrows(d, m, mid, now);
  }

  lemma AlikeNow(c: Config, l: Limiter, d: Config, m: Limiter, k: Key, now: real)
    requires Alike(c, l, d, m, now)
    ensures Check(c, l, k, now).1 == Check(d, m, k, now).1
    ensures Alike(c, Check(c, l, k, now).0, d, Check(d, m, k, now).0, now)
  {
    CheckByLevels(c, l, k, now);
    CheckByLevels(d, m, k, now);
    CheckKeepsOk(c, l, k, now);
    CheckKeepsOk(d, m, k, now);
    var (after, x) := Check(c, l, k, now);
    var (after', y) := Check(d, m, k, now);
    assert x == y;
    forall o ensures Level(c, after, o, now) == Level(d, after', o, now) {
      CheckChangesLevel(c, l, k, now, o);
      CheckChangesLevel(d, m, k, now, o);
    }
  }

  lemma AlikeCheck(c: Config, l: Limiter, d: Config, m: Limiter, mid: real, k: Key, now: real)
    requires Alike(c, l, d, m, mid) && mid <= now
    ensures Check(c, l, k, now).1 == Check(d, m, k, now).1
    ensures Alike(c, Check(c, l, k, now).0, d, Check(d, m, k, now).0, now)
  {
    AlikeLater(c, l, d, m, mid, now);
    AlikeNow(c, l, d, m, k, now);
  }

  function LastTime(start: real, calls: seq<Call>): real {
    if calls == [] then start else calls[|calls| - 1].at
  }

  lemma {:induction false} AlikeRun(c: Config, l: Limiter, d: Config, m: Limiter, start: real, calls: seq<Call>)
    requires Alike(c, l, d, m, start) && Ordered(start, calls)
    ensures Alike(c, After(c, l, calls), d, After(d, m, calls), LastTime(start, calls))
  {
    if calls != [] {
      var init, last := calls[..|calls| - 1], calls[|calls| - 1];
      AlikeRun(c, l, d, m, start, init);
      AlikeCheck(c, After(c, l, init), d, After(d, m, init), LastTime(start, init), last.key, last.at);
    }
  }

  lemma AlikeDecisions(c: Config, l: Limiter, d: Config, m: Limiter, start: real, calls: seq<Call>, i: nat)
    requires Alike(c, l, d, m, start) && Ordered(start, calls) && i < |calls|
    ensures DecisionAt(c, l, calls, i) == DecisionAt(d, m, calls, i)
  {
    AlikeRun(c, l, d, m, start, calls[..i]);
    AlikeCheck(c, After(c, l, calls[..i]), d, After(d, m, calls[..i]), LastTime(start, calls[..i]),
               calls[i].key, calls[i].at);
  }

  lemma StartAlike(c: Config, start: real)
    requires c.Ok() && RefillsInTime(c)
    ensures Alike(c, Start(c, start), c.(evicts := false), Start(c, start), start)
  {
  }

  /** Dropping idle buckets is invisible: every decision of every trace is the decision of a
  limiter that never evicts. */
  lemma EvictionIsInvisible(c: Config, start: real, calls: seq<Call>, i: nat)
    requires c.Ok() && RefillsInTime(c) && Ordered(start, calls) && i < |calls|
    ensures DecisionAt(c, Start(c, start), calls, i)
      == DecisionAt(c.(evicts := false), Start(c, start), calls, i)
  {
    StartAlike(c, start);
    AlikeDecisions(c, Start(c, start), c.(evicts := false), Start(c, start), start, calls, i);
  }

  /** Whatever the configuration, tokens stay within [0, capacity] in every trace. */
  lemma {:induction false} RunOk(c: Config, start: real, calls: seq<Call>)
    requires c.Ok() && Ordered(start, calls)
    ensures Ok(c, After(c, Start(c, start), calls), LastTime(start, calls))
  {
    if calls != [] {
      var init, last := calls[..|calls| - 1], calls[|calls| - 1];
      var before := After(c, Start(c, start), init);
      RunOk(c, start, init);
      OkLater(c, before, LastTime(start, init), last.at);
      CheckKeepsOk(c, before, last.key, last.at);
    }
  }

  lemma DeniedLeavesLevels(c: Config, l: Limiter, k: Key, now: real)
    requires Ok(c, l, now) && RefillsInTime(c) && !Check(c, l, k, now).1.allowed
    ensures Alike(c, Check(c, l, k, now).0, c, l, now)
  {
    CheckKeepsOk(c, l, k, now);
    forall o ensures Level(c, Check(c, l, k, now).0, o, now) == Level(c, l, o, now) {
      CheckChangesLevel(c, l, k, now, o);
    }
  }

  /** A denied call consumes nothing: taking it out of the trace changes no other decision. */
  lemma DenialIsInvisible(c: Config, start: real, calls: seq<Call>, d: nat, i: nat)
    requires c.Ok() && RefillsInTime(c) && Ordered(start, calls) && d < |calls| && i < |calls| && i != d
    requires !DecisionAt(c, Start(c, start), calls, d).allowed
    ensures var rest := calls[..d] + calls[d + 1..];
      DecisionAt(c, Start(c, start), calls, i)
      == DecisionAt(c, Start(c, start), rest, if i < d then i else i - 1)
  {
    hide After, Check, Start, Level, GlobalLevel;
    var l := Start(c, start);
    var rest := calls[..d] + calls[d + 1..];
    if i < d {
      assert rest[..i] == calls[..i];
    } else {
      var before, tail := After(c, l, calls[..d]), calls[d + 1..];
      var now := calls[d].at;
      RunOk(c, start, calls[..d]);
      OkLater(c, before, LastTime(start, calls[..d]), now);
      DeniedLeavesLevels(c, before, calls[d].key, now);
      var after := Check(c, before, calls[d].key, now).0;
      AfterNext(c, l, calls, d);
      AlikeDecisions(c, after, c, before, now, tail, i - d - 1);
      var part := tail[..i - d - 1];
      assert calls[..i] == calls[..d + 1] + part;
      AfterAppend(c, l, calls[..d + 1], part);
      assert rest[..i - 1] == calls[..d] + part;
      AfterAppend(c, l, calls[..d], part);
    }
  }

  // ----- Sliding windows -----

  /** Calls `i` to `j - 1` that were admitted, for one key or overall. */
  function Admitted(c: Config, l: Limiter, calls: seq<Call>, of: Option<Key>, i: nat, j: nat): nat
    requires i <= j <= |calls|
  {
    if i == j then 0
    else Admitted(c, l, calls, of, i, j - 1)
         + (if DecisionAt(c, l, calls, j - 1).allowed && (of.None? || of.value == calls[j - 1].key) then 1 else 0)
  }

  lemma AfterNext(c: Config, l: Limiter, calls: seq<Call>, j: nat)
    requires j < |calls|
    ensures After(c, l, calls[..j + 1]) == Check(c, After(c, l, calls[..j]), calls[j].key, calls[j].at).0
  {
    assert calls[..j + 1][..j] == calls[..j];
  }

  /** What a rate yields between two moments. */
  ghost function Earned(rate: real, from: real, to: real): real {
    (to - from) * rate
  }

  /** The level of one key across one call. */
  lemma KeyStep(c: Config, start: real, calls: seq<Call>, k: Key, j: nat)
    requires c.Ok() && RefillsInTime(c) && Ordered(start, calls) && j < |calls|
    ensures var l, now, last := Start(c, start), calls[j].at, LastTime(start, calls[..j]);
      var admitted := DecisionAt(c, l, calls, j).allowed && calls[j].key == k;
      && Level(c, After(c, l, calls[..j + 1]), k, now)
           <= Level(c, After(c, l, calls[..j]), k, last) + Earned(c.rate, last, now) - One(admitted)
      && 0.0 <= Level(c, After(c, l, calls[..j + 1]), k, now) <= c.burst - One(admitted)
  {
    hide Level, GlobalLevel, Check, Start;
    var l, now, last := Start(c, start), calls[j].at, LastTime(start, calls[..j]);
    var before := After(c, l, calls[..j]);
    RunOk(c, start, calls[..j]);
    OkLater(c, before, last, now);
    LevelGrows(c, before, k, last, now);
    LevelGrows(c, before, k, now, now);
    AfterNext(c, l, calls, j);
    CheckChangesLevel(c, before, calls[j].key, now, k);
    CheckKeepsOk(c, before, calls[j].key, now);
    LevelGrows(c, Check(c, before, calls[j].key, now).0, k, now, now);
  }

  lemma GlobalStep(c: Config, start: real, calls: seq<Call>, j: nat)
    requires c.Ok() && Ordered(start, calls) && j < |calls|
    ensures var l, now, last := Start(c, start), calls[j].at, LastTime(start, calls[..j]);
      var admitted := DecisionAt(c, l, calls, j).allowed;
      && GlobalLevel(After(c, l, calls[..j + 1]), now)
           <= GlobalLevel(After(c, l, calls[..j]), last) + Earned(c.globalRate, last, now) - One(admitted)
      && 0.0 <= GlobalLevel(After(c, l, calls[..j + 1]), now) <= c.GlobalCapacity() - One(admitted)
  {
    hide Level, GlobalLevel, Check, Start;
    var l, now, last := Start(c, start), calls[j].at, LastTime(start, calls[..j]);
    var before := After(c, l, calls[..j]);
    RunOk(c, start, calls[..j]);
    OkLater(c, before, last, now);
    GlobalLevelGrows(c, before, last, now);
    GlobalLevelGrows(c, before, now, now);
    AfterNext(c, l, calls, j);
    CheckKeepsOk(c, before, calls[j].key, now);
    GlobalLevelGrows(c, Check(c, before, calls[j].key, now).0, now, now);
  }

  lemma EarnedAdds(rate: real, a: real, b: real, d: real)
    ensures Earned(rate, a, d) == Earned(rate, a, b) + Earned(rate, b, d)
    ensures Earned(rate, a, a) == 0.0
  {
  }

  lemma EarnedWithin(rate: real, a: real, b: real, t: real)
    requires b - a <= t && rate >= 0.0
    ensures Earned(rate, a, b) <= rate * t
  {
    Scale(b - a, t, rate);
    assert t * rate == rate * t;
  }

  /** Admissions since call `i` are paid for by the tokens there were and the refill since. */
  lemma {:induction false} KeyBudget(c: Config, start: real, calls: seq<Call>, k: Key, i: nat, j: nat)
    requires c.Ok() && RefillsInTime(c) && Ordered(start, calls) && i < j <= |calls|
    ensures var l := Start(c, start);
      Level(c, After(c, l, calls[..j]), k, calls[j - 1].at)
      <= c.burst + Earned(c.rate, calls[i].at, calls[j - 1].at) - Admitted(c, l, calls, Some(k), i, j) as real
    decreases j
  {
    hide Level, GlobalLevel, Check, Start, After, Earned;
    KeyStep(c, start, calls, k, j - 1);
    if i + 1 < j {
      KeyBudget(c, start, calls, k, i, j - 1);
      EarnedAdds(c.rate, calls[i].at, calls[j - 2].at, calls[j - 1].at);
    } else {
      EarnedAdds(c.rate, calls[i].at, calls[i].at, calls[i].at);
      assert Admitted(c, Start(c, start), calls, Some(k), i, i) == 0;
    }
  }

  lemma {:induction false} GlobalBudget(c: Config, start: real, calls: seq<Call>, i: nat, j: nat)
    requires c.Ok() && Ordered(start, calls) && i < j <= |calls|
    ensures var l := Start(c, start);
      GlobalLevel(After(c, l, calls[..j]), calls[j - 1].at)
      <= c.GlobalCapacity() + Earned(c.globalRate, calls[i].at, calls[j - 1].at)
         - Admitted(c, l, calls, None, i, j) as real
    decreases j
  {
    hide Level, GlobalLevel, Check, Start, After, Earned;
    GlobalStep(c, start, calls, j - 1);
    if i + 1 < j {
      GlobalBudget(c, start, calls, i, j - 1);
      EarnedAdds(c.globalRate, calls[i].at, calls[j - 2].at, calls[j - 1].at);
    } else {
      EarnedAdds(c.globalRate, calls[i].at, calls[i].at, calls[i].at);
      assert Admitted(c, Start(c, start), calls, None, i, i) == 0;
    }
  }

  lemma KeyWindow(c: Config, start: real, calls: seq<Call>, k: Key, i: nat, j: nat)
    requires c.Ok() && RefillsInTime(c) && Ordered(start, calls) && i < j <= |calls|
    ensures Admitted(c, Start(c, start), calls, Some(k), i, j) as real
      <= c.burst + Earned(c.rate, calls[i].at, calls[j - 1].at)
  {
    hide Level, GlobalLevel, Check, Start, After, Earned, Admitted;
    KeyStep(c, start, calls, k, j - 1);
    KeyBudget(c, start, calls, k, i, j);
  }

  lemma GlobalWindow(c: Config, start: real, calls: seq<Call>, i: nat, j: nat)
    requires c.Ok() && Ordered(start, calls) && i < j <= |calls|
    ensures Admitted(c, Start(c, start), calls, None, i, j) as real
      <= c.GlobalCapacity() + Earned(c.globalRate, calls[i].at, calls[j - 1].at)
  {
    hide Level, GlobalLevel, Check, Start, After, Earned, Admitted;
    GlobalStep(c, start, calls, j - 1);
    GlobalBudget(c, start, calls, i, j);
  }

  /** In any stretch of a trace that spans at most `t` seconds, one contract gets at most
  `burst + rate * t` calls through. */
  lemma KeyWindowBound(c: Config, start: real, calls: seq<Call>, k: Key, i: nat, j: nat, t: real)
    requires c.Ok() && RefillsInTime(c) && Ordered(start, calls) && i < j <= |calls|
    requires calls[j - 1].at - calls[i].at <= t
    ensures Admitted(c, Start(c, start), calls, Some(k), i, j) as real <= c.burst + c.rate * t
  {
    hide Level, GlobalLevel, Check, Start, After, Earned, Admitted;
    KeyWindow(c, start, calls, k, i, j);
    EarnedWithin(c.rate, calls[i].at, calls[j - 1].at, t);
  }

  /** And all contracts together at most `capacity + globalRate * t`, under any configuration. */
  lemma GlobalWindowBound(c: Config, start: real, calls: seq<Call>, i: nat, j: nat, t: real)
    requires c.Ok() && Ordered(start, calls) && i < j <= |calls|
    requires calls[j - 1].at - calls[i].at <= t
    ensures Admitted(c, Start(c, start), calls, None, i, j) as real <= c.GlobalCapacity() + c.globalRate * t
  {
    hide Level, GlobalLevel, Check, Start, After, Earned, Admitted, Config.GlobalCapacity;
    GlobalWindow(c, start, calls, i, j);
    EarnedWithin(c.globalRate, calls[i].at, calls[j - 1].at, t);
  }

  // ----- Waiting as told -----

  /** A bucket that was refused a token holds one after exactly the announced wait, if nothing
  consumes in between and it can hold one at all. */
  lemma RetryIsExact(b: Bucket, now: real, t: real)
    requires b.updatedAt == now && 0.0 <= b.tokens < 1.0 && b.rate > 0.0 && b.tokens <= b.capacity && now <= t
    ensures Peek(b).Seconds? && Peek(b).s > 0.0
    ensures Refill(b, t).tokens >= 1.0 <==> b.capacity >= 1.0 && t >= now + Peek(b).s
  {
    var s := (1.0 - b.tokens) / b.rate;
    assert s * b.rate == 1.0 - b.tokens;
    if t >= now + s { Scale(s, t - now, b.rate); } else { Stretch(t - now, s, b.rate); }
  }

  /** `max(1, int(retry_after_seconds))`: the seconds the server puts into the header. */
  function HeaderSeconds(s: real): real
    requires s >= 0.0
  {
    Max(1.0, s.Floor as real)
  }

  /** Waiting as long as the header says is enough exactly when the announced wait is at most a
  second or a whole number of them: the header rounds down. */
  lemma HeaderIsEnoughExactly(b: Bucket, now: real)
    requires b.updatedAt == now && 0.0 <= b.tokens < 1.0 <= b.capacity && b.rate > 0.0
    ensures Peek(b).Seconds? && Peek(b).s > 0.0
    ensures Refill(b, now + HeaderSeconds(Peek(b).s)).tokens >= 1.0
      <==> Peek(b).s <= 1.0 || Peek(b).s == Peek(b).s.Floor as real
  {
    hide Refill, Peek;
    RetryIsExact(b, now, now);
    RetryIsExact(b, now, now + HeaderSeconds(Peek(b).s));
  }

  /** A wait of two and a half seconds is announced as two, after which there is no token. */
  lemma HeaderCanBeShort()
    ensures var b := Bucket(0.0, 1.0, 0.4, 0.0);
      Peek(b) == Seconds(2.5) && HeaderSeconds(2.5) == 2.0 && Refill(b, 2.0).tokens == 0.8
  {
    var b := Bucket(0.0, 1.0, 0.4, 0.0);
    assert (1.0 - b.tokens) / b.rate == 2.5;
  }

  lemma Stretch(a: real, b: real, r: real)
    requires a < b && r > 0.0
    ensures a * r < b * r
  {
  }

  /** The same for a whole refusal, by the key's bucket or by the global one. */
  lemma RefusalIsHonest(c: Config, l: Limiter, k: Key, now: real, t: real)
    requires Ok(c, l, now) && now <= t
    requires Check(c, l, k, now).1.retryAfter.Seconds?
    ensures var (after, d) := Check(c, l, k, now);
      && !d.allowed
      && (d.scope == OfKey(k) ==>
            (Level(c, after, k, t) >= 1.0 <==> c.burst >= 1.0 && t >= now + d.retryAfter.s))
      && (d.scope == Global ==>
            (GlobalLevel(after, t) >= 1.0 <==> t >= now + d.retryAfter.s))
  {
    CheckKeepsOk(c, l, k, now);
    var (after, d) := Check(c, l, k, now);
    if d.scope == OfKey(k) {
      RetryIsExact(after.buckets[k], now, t);
    } else {
      RetryIsExact(after.global, now, t);
    }
  }
}
