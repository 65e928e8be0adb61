/** When dropping idle buckets can be seen: `_IDLE_EVICTION_SECONDS` is fixed at 900 seconds
(`healer/ratelimit.py` lines 32-34) while rate and burst are configurable, so "longer than it
takes any bucket to refill" holds of some configurations only.  This module finds exactly
which, for three promises that hang on it: that eviction cannot be seen, that a denied call
leaves no trace, and that no contract gets more than its burst and its rate. */
module RateLimiterEviction {
  import opened Collections
  import opened RateLimiter

  const K: Key := "k"

  /** Bucket `K` holds `tokens` and the global bucket at least `spare`. */
  ghost predicate Holds(c: Config, l: Limiter, tokens: real, spare: real, now: real) {
    && l.buckets == map[K := Bucket(tokens, c.burst, c.rate, now)]
    && l.global.rate == c.globalRate >= 0.0
    && spare <= l.global.tokens <= l.global.capacity
  }

  ghost function Regained(c: Config, tokens: real, was: real, now: real): real {
    if c.evicts && now - was > IDLE_EVICTION_SECONDS then c.burst
    else Min(c.burst, tokens + (now - was) * c.rate)
  }

  lemma NextCall(c: Config, l: Limiter, tokens: real, spare: real, was: real, now: real)
    requires Holds(c, l, tokens, spare, was) && was <= now && spare >= 1.0 && c.Ok()
    ensures var x := Regained(c, tokens, was, now);
      var (after, d) := Check(c, l, K, now);
      if x >= 1.0 then d.allowed && Holds(c, after, x - 1.0, spare - 1.0, now)
      else
        && !d.allowed && (c.rate > 0.0 ==> d.retryAfter == Seconds((1.0 - x) / c.rate))
        && Holds(c, after, x, spare, now)
  {
    var kept := Evicted(c, l.buckets, now);
    assert kept == if c.evicts && now - was > IDLE_EVICTION_SECONDS then map[] else l.buckets;
    var b := Refill(BucketFor(c, kept, K, now), now);
    assert b.tokens == Regained(c, tokens, was, now);
    Scale(0.0, Max(0.0, now - l.global.updatedAt), c.globalRate);
    assert kept[K := Take(b)] == map[K := Take(b)] && kept[K := b] == map[K := b];
  }

  function Repeat(n: nat, now: real): seq<Call> {
    seq(n, _ => Call(K, now))
  }

  lemma {:induction false} Burn(c: Config, l: Limiter, tokens: real, spare: real, now: real, n: nat)
    requires Holds(c, l, tokens, spare, now) && c.Ok() && tokens <= c.burst
    requires n as real <= tokens && n as real <= spare
    ensures Holds(c, After(c, l, Repeat(n, now)), tokens - n as real, spare - n as real, now)
  {
    if n > 0 {
      Burn(c, l, tokens, spare, now, n - 1);
      assert Repeat(n, now)[..n - 1] == Repeat(n - 1, now);
      NextCall(c, After(c, l, Repeat(n - 1, now)), tokens - (n - 1) as real, spare - (n - 1) as real, now, now);
    }
  }

  lemma FirstCall(c: Config)
    requires c.Ok() && 1.0 <= c.burst && c.burst <= c.GlobalCapacity()
    ensures Holds(c, After(c, Start(c, 0.0), Repeat(1, 0.0)), c.burst - 1.0, c.GlobalCapacity() - 1.0, 0.0)
  {
    var l := Start(c, 0.0);
    assert Repeat(1, 0.0)[..0] == [];
    var first := Check(c, l, K, 0.0).0;
    assert first.buckets == map[K := Bucket(c.burst - 1.0, c.burst, c.rate, 0.0)];
    assert After(c, l, Repeat(1, 0.0)) == first;
  }

  /** From a fresh limiter, all whole tokens at once. */
  lemma Drain(c: Config, n: nat)
    requires c.Ok() && 1 <= n && n as real <= c.burst && c.burst <= c.GlobalCapacity()
    ensures Holds(c, After(c, Start(c, 0.0), Repeat(n, 0.0)), c.burst - n as real,
                  c.GlobalCapacity() - n as real, 0.0)
  {
    hide Holds, After, Start, Config.GlobalCapacity;
    var l := Start(c, 0.0);
    FirstCall(c);
    Burn(c, After(c, l, Repeat(1, 0.0)), c.burst - 1.0, c.GlobalCapacity() - 1.0, 0.0, n - 1);
    assert Repeat(n, 0.0) == Repeat(1, 0.0) + Repeat(n - 1, 0.0);
    AfterAppend(c, l, Repeat(1, 0.0), Repeat(n - 1, 0.0));
  }

  lemma RegainedBounds(c: Config, tokens: real, was: real, now: real)
    ensures Regained(c, tokens, was, now) <= c.burst
    ensures was == now && tokens <= c.burst ==> Regained(c, tokens, was, now) == tokens
  {
  }

  /** The decision on one more call at the same moment, after `n` calls at that moment. */
  lemma CallsAt(c: Config, l: Limiter, tokens: real, spare: real, was: real, now: real, n: nat)
    requires Holds(c, l, tokens, spare, was) && was <= now && c.Ok()
    requires n as real <= Regained(c, tokens, was, now) && (n + 1) as real <= spare
    ensures var x := Regained(c, tokens, was, now) - n as real;
      var d := DecisionAt(c, l, Repeat(n + 1, now), n);
      if x >= 1.0 then d.allowed
      else !d.allowed && (c.rate > 0.0 ==> d.retryAfter == Seconds((1.0 - x) / c.rate))
  {
    hide Check, Regained, Holds, Min;
    var x := Regained(c, tokens, was, now);
    assert Repeat(n + 1, now)[..n] == Repeat(n, now);
    if n == 0 {
      NextCall(c, l, tokens, spare, was, now);
    } else {
      var first := Check(c, l, K, now).0;
      NextCall(c, l, tokens, spare, was, now);
      RegainedBounds(c, tokens, was, now);
      RegainedBounds(c, x - n as real, now, now);
      Burn(c, first, x - 1.0, spare - 1.0, now, n - 1);
      assert Repeat(n, now) == Repeat(1, now) + Repeat(n - 1, now);
      assert Repeat(1, now)[..0] == [];
      AfterAppend(c, l, Repeat(1, now), Repeat(n - 1, now));
      NextCall(c, After(c, l, Repeat(n, now)), x - n as real, spare - n as real, now, now);
    }
  }

  lemma Divides(a: real, b: real, r: real)
    requires r > 0.0 && a != b
    ensures a / r != b / r
  {
    assert a == a / r * r && b == b / r * r;
  }

  lemma DecisionAfter(c: Config, l: Limiter, a: seq<Call>, b: seq<Call>, i: nat)
    requires i < |b|
    ensures DecisionAt(c, l, a + b, |a| + i) == DecisionAt(c, After(c, l, a), b, i)
  {
    assert (a + b)[..|a| + i] == a + b[..i];
    AfterAppend(c, l, a, b[..i]);
  }

  ghost predicate Visible(c: Config, start: real, calls: seq<Call>, i: nat) {
    && Ordered(start, calls) && i < |calls|
    && DecisionAt(c.(evicts := true), Start(c, start), calls, i)
       != DecisionAt(c.(evicts := false), Start(c, start), calls, i)
  }

  /** A little longer than 900 seconds, after which a bucket is dropped although it is not full
  yet; the little alone does not bring a token back. */
  lemma Moment(c: Config, y: real) returns (extra: real)
    requires c.Ok() && 0.0 <= y < 1.0 && y + IDLE_EVICTION_SECONDS * c.rate < c.burst
    ensures 0.0 < extra <= IDLE_EVICTION_SECONDS && y + extra * c.rate < 1.0
    ensures 0.0 <= y + (IDLE_EVICTION_SECONDS + extra) * c.rate < c.burst
  {
    var slack := Min(c.burst - y - IDLE_EVICTION_SECONDS * c.rate, 1.0 - y) / 2.0;
    if c.rate == 0.0 {
      extra := 1.0;
    } else {
      extra := Min(slack / c.rate, 1.0);
      assert slack / c.rate * c.rate == slack;
      Scale(extra, slack / c.rate, c.rate);
      Scale(0.0, extra, c.rate);
    }
  }

  /** Two levels that differ give different decisions once the smaller one runs out. */
  lemma TellApartAt(c: Config, l: Limiter, m: Limiter, y: real, was: real, now: real, spare: real, n: nat)
    requires c.Ok() && now - was > IDLE_EVICTION_SECONDS && 1.0 <= c.burst
    requires 0.0 <= y + (now - was) * c.rate < c.burst && n == (y + (now - was) * c.rate).Floor
    requires c.burst + 1.0 <= spare && (c.rate == 0.0 ==> y < 1.0)
    requires Holds(c.(evicts := true), l, y, spare, was)
    requires Holds(c.(evicts := false), m, y, spare, was)
    ensures DecisionAt(c.(evicts := true), l, Repeat(n + 1, now), n)
      != DecisionAt(c.(evicts := false), m, Repeat(n + 1, now), n)
  {
    hide Holds, DecisionAt;
    var e, k := c.(evicts := true), c.(evicts := false);
    var x := y + (now - was) * c.rate;
    if c.rate == 0.0 {
      assert (now - was) * c.rate == 0.0;
      assert n == 0;
    }
    assert Regained(e, y, was, now) == c.burst && Regained(k, y, was, now) == x;
    CallsAt(e, l, y, spare, was, now, n);
    CallsAt(k, m, y, spare, was, now, n);
    if c.rate > 0.0 { Divides(1.0 - (x - n as real), 1.0 - (c.burst - n as real), c.rate); }
  }

  lemma StillOrdered(calls: seq<Call>, was: real, now: real, n: nat)
    requires Ordered(0.0, calls) && 0.0 <= was <= now && forall q <- calls :: q.at <= was
    ensures Ordered(0.0, calls + Repeat(n, now)) && |Repeat(n, now)| == n
  {
    var all := calls + Repeat(n, now);
    forall i, j | 0 <= i < j < |all| ensures all[i].at <= all[j].at {
      if i < |calls| { assert calls[i] in calls; }
    }
  }

  /** Both limiters hold too little to be full after 900 idle seconds; a burst of calls a little
  later then tells them apart. */
  lemma TellApart(c: Config, calls: seq<Call>, y: real, was: real, spare: real)
    requires c.Ok() && 0.0 <= y < 1.0 && y + IDLE_EVICTION_SECONDS * c.rate < c.burst && 1.0 <= c.burst
    requires c.burst + 1.0 <= spare && Drained(c, calls, y, was, spare)
    ensures exists trace, i: nat :: Visible(c, 0.0, trace, i)
  {
    hide Holds, DecisionAt, Start, After, Config.Ok, Ordered, Repeat;
    var e, k := c.(evicts := true), c.(evicts := false);
    var extra := Moment(c, y);
    var idle := IDLE_EVICTION_SECONDS + extra;
    var now, n := was + idle, (y + idle * c.rate).Floor;
    var more := Repeat(n + 1, now);
    StillOrdered(calls, was, now, n + 1);
    TellApartAt(c, After(e, Start(c, 0.0), calls), After(k, Start(c, 0.0), calls), y, was, now, spare, n);
    DecisionAfter(e, Start(c, 0.0), calls, more, n);
    DecisionAfter(k, Start(c, 0.0), calls, more, n);
    assert Visible(c, 0.0, calls + more, |calls| + n);
  }

  /** Roomy enough for the traces below. */
  function Roomy(rate: real, burst: real): Config {
    Config(rate, burst, 3.0 * burst + 3.0, true)
  }

  lemma DrainAll(c: Config, n: nat, t: real)
    requires c.Ok() && 1 <= n && n == c.burst.Floor && c.burst + 1.0 <= c.GlobalCapacity()
    requires 0.0 <= t <= IDLE_EVICTION_SECONDS && c.burst - n as real + Earned(c.rate, 0.0, t) == 1.0
    ensures Holds(c, After(c, Start(c, 0.0), Repeat(n, 0.0) + [Call(K, t)]), 0.0,
                  c.GlobalCapacity() - n as real - 1.0, t)
  {
    hide Holds, Start, Check;
    Drain(c, n);
    var l := After(c, Start(c, 0.0), Repeat(n, 0.0));
    assert Regained(c, c.burst - n as real, 0.0, t) == 1.0;
    NextCall(c, l, c.burst - n as real, c.GlobalCapacity() - n as real, 0.0, t);
    assert (Repeat(n, 0.0) + [Call(K, t)])[..n] == Repeat(n, 0.0);
  }

  lemma InTime(t: real, rate: real, missing: real)
    requires rate > 0.0 && Earned(rate, 0.0, t) == missing && 0.0 <= missing <= IDLE_EVICTION_SECONDS * rate
    ensures 0.0 <= t <= IDLE_EVICTION_SECONDS
  {
    if t > IDLE_EVICTION_SECONDS { Stretch(IDLE_EVICTION_SECONDS, t, rate); }
    if t < 0.0 { Stretch(t, 0.0, rate); }
  }

  /** Both limiters, with or without eviction, hold `y` tokens for `K` after `calls`. */
  ghost predicate Drained(c: Config, calls: seq<Call>, y: real, was: real, spare: real) {
    && Ordered(0.0, calls) && 0.0 <= was && (forall q <- calls :: q.at <= was)
    && Holds(c.(evicts := true), After(c.(evicts := true), Start(c, 0.0), calls), y, spare, was)
    && Holds(c.(evicts := false), After(c.(evicts := false), Start(c, 0.0), calls), y, spare, was)
  }

  /** Unless a whole burst is back in 900 seconds, a bucket can be left so empty that it is not
  full again by then: drain it, and if a token is back within 900 seconds, take that one too. */
  lemma DrainEnough(c: Config) returns (calls: seq<Call>, y: real, was: real, spare: real)
    requires c == Roomy(c.rate, c.burst) && c.rate >= 0.0
    requires c.burst >= 1.0 && IDLE_EVICTION_SECONDS * c.rate < c.burst
    ensures 0.0 <= y < 1.0 && y + IDLE_EVICTION_SECONDS * c.rate < c.burst && c.burst + 1.0 <= spare
    ensures Drained(c, calls, y, was, spare)
  {
    hide Holds, After, Start;
    var n: nat := c.burst.Floor;
    SameStart(c, 0.0, true);
    SameStart(c, 0.0, false);
    if c.burst - n as real + IDLE_EVICTION_SECONDS * c.rate < 1.0 {
      Drain(c.(evicts := true), n);
      Drain(c.(evicts := false), n);
      return Repeat(n, 0.0), c.burst - n as real, 0.0, c.GlobalCapacity() - n as real;
    }
    var missing := 1.0 - (c.burst - n as real);
    var t := missing / c.rate;
    assert Earned(c.rate, 0.0, t) == missing;
    InTime(t, c.rate, missing);
    DrainAll(c.(evicts := true), n, t);
    DrainAll(c.(evicts := false), n, t);
    return Repeat(n, 0.0) + [Call(K, t)], 0.0, t, c.GlobalCapacity() - n as real - 1.0;
  }

  // ----- A burst below one token: nothing is ever admitted -----

  ghost predicate Untouched(c: Config, l: Limiter) {
    forall k <- l.buckets :: l.buckets[k].tokens == l.buckets[k].capacity == c.burst && l.buckets[k].rate == c.rate
  }

  lemma NeverAdmits(c: Config, l: Limiter, k: Key, now: real)
    requires c.Ok() && c.burst < 1.0 && Untouched(c, l)
    ensures var (after, d) := Check(c, l, k, now);
      && Untouched(c, after)
      && d == Decision(false, if c.rate <= 0.0 then Forever else Seconds((1.0 - c.burst) / c.rate), OfKey(k))
  {
    var b := BucketFor(c, Evicted(c, l.buckets, now), k, now);
    Scale(0.0, Max(0.0, now - b.updatedAt), c.rate);
  }

  lemma {:induction false} NeverAdmitsRun(c: Config, l: Limiter, calls: seq<Call>)
    requires c.Ok() && c.burst < 1.0 && Untouched(c, l)
    ensures Untouched(c, After(c, l, calls))
  {
    if calls != [] {
      NeverAdmitsRun(c, l, calls[..|calls| - 1]);
      NeverAdmits(c, After(c, l, calls[..|calls| - 1]), calls[|calls| - 1].key, calls[|calls| - 1].at);
    }
  }

  lemma SmallBurst(c: Config, start: real, calls: seq<Call>, i: nat)
    requires c.Ok() && c.burst < 1.0 && i < |calls|
    ensures DecisionAt(c.(evicts := true), Start(c, start), calls, i)
      == DecisionAt(c.(evicts := false), Start(c, start), calls, i)
  {
    var e, k := c.(evicts := true), c.(evicts := false);
    NeverAdmitsRun(e, Start(c, start), calls[..i]);
    NeverAdmitsRun(k, Start(c, start), calls[..i]);
    NeverAdmits(e, After(e, Start(c, start), calls[..i]), calls[i].key, calls[i].at);
    NeverAdmits(k, After(k, Start(c, start), calls[..i]), calls[i].key, calls[i].at);
  }

  /** For a given rate and burst, eviction changes no decision of any trace, whatever the global
  rate, exactly when an idle bucket is full again in time or could never hold a token. */
  lemma EvictionIsInvisibleExactly(rate: real, burst: real)
    requires rate >= 0.0 && burst >= 0.0
    ensures (burst < 1.0 || burst <= IDLE_EVICTION_SECONDS * rate)
      <==> forall c: Config, start, calls, i: nat ::
             c.Ok() && c.rate == rate && c.burst == burst ==> !Visible(c, start, calls, i)
  {
    hide DecisionAt, Start;
    if burst < 1.0 || burst <= IDLE_EVICTION_SECONDS * rate {
      forall c: Config, start, calls, i: nat | c.Ok() && c.rate == rate && c.burst == burst
        ensures !Visible(c, start, calls, i)
      {
        if Ordered(start, calls) && i < |calls| {
          if burst < 1.0 {
            SmallBurst(c, start, calls, i);
          } else {
            EvictionIsInvisible(c.(evicts := true), start, calls, i);
            SameStart(c, start, true);
          }
        }
      }
    } else {
      var c := Roomy(rate, burst);
      var calls, y, was, spare := DrainEnough(c);
      TellApart(c, calls, y, was, spare);
      var trace, i: nat :| Visible(Roomy(rate, burst), 0.0, trace, i);
    }
  }

  lemma SameStart(c: Config, start: real, evicts: bool)
    ensures Start(c.(evicts := evicts), start) == Start(c, start)
  {
  }

  // ----- Taking out a denied call -----

  /** Call `d` is denied, and without it call `i` is decided otherwise. */
  ghost predicate DenialVisible(c: Config, start: real, calls: seq<Call>, d: nat, i: nat) {
    && Ordered(start, calls) && d < |calls| && i < |calls| && i != d
    && !DecisionAt(c, Start(c, start), calls, d).allowed
    && DecisionAt(c, Start(c, start), calls, i)
       != DecisionAt(c, Start(c, start), calls[..d] + calls[d + 1..], if i < d then i else i - 1)
  }

  lemma OneMore(c: Config, l: Limiter, calls: seq<Call>, call: Call)
    ensures After(c, l, calls + [call]) == Check(c, After(c, l, calls), call.key, call.at).0
    ensures DecisionAt(c, l, calls + [call], |calls|) == Check(c, After(c, l, calls), call.key, call.at).1
  {
    assert (calls + [call])[..|calls|] == calls;
  }

  function WithDenied(calls: seq<Call>, mid: real, now: real, n: nat): seq<Call> {
    calls + [Call(K, mid)] + Repeat(n + 1, now)
  }

  lemma DecisionInPrefix(c: Config, l: Limiter, a: seq<Call>, b: seq<Call>, i: nat)
    requires i < |a|
    ensures DecisionAt(c, l, a + b, i) == DecisionAt(c, l, a, i)
  {
    assert (a + b)[..i] == a[..i];
  }

  lemma DeniedOrdered(calls: seq<Call>, was: real, mid: real, now: real, n: nat)
    requires Ordered(0.0, calls) && 0.0 <= was <= mid <= now && forall q <- calls :: q.at <= was
    ensures Ordered(0.0, WithDenied(calls, mid, now, n)) && |Repeat(n + 1, now)| == n + 1
  {
    hide Ordered;
    StillOrdered(calls, was, mid, 1);
    assert Repeat(1, mid) == [Call(K, mid)];
    StillOrdered(calls + [Call(K, mid)], mid, now, n + 1);
  }

  lemma WithoutDenied(calls: seq<Call>, mid: real, now: real, n: nat)
    ensures var trace := WithDenied(calls, mid, now, n);
      trace[..|calls|] + trace[|calls| + 1..] == calls + Repeat(n + 1, now) && |trace| == |calls| + n + 2
  {
  }

  lemma DeniedDecisions(c: Config, l: Limiter, calls: seq<Call>, mid: real, now: real, n: nat)
    ensures var trace, more := WithDenied(calls, mid, now, n), Repeat(n + 1, now);
      var (l', denied) := Check(c, After(c, l, calls), K, mid);
      && DecisionAt(c, l, trace, |calls|) == denied
      && DecisionAt(c, l, trace, |calls| + 1 + n) == DecisionAt(c, l', more, n)
      && DecisionAt(c, l, calls + more, |calls| + n) == DecisionAt(c, After(c, l, calls), more, n)
  {
    hide Check, After, DecisionAt;
    var one, more := [Call(K, mid)], Repeat(n + 1, now);
    OneMore(c, l, calls, Call(K, mid));
    DecisionInPrefix(c, l, calls + one, more, |calls|);
    DecisionAfter(c, l, calls + one, more, n);
    DecisionAfter(c, l, calls, more, n);
  }

  /** The two traces, one with the denied call and one without. */
  lemma DeniedTrace(c: Config, calls: seq<Call>, was: real, mid: real, now: real, n: nat)
    requires Ordered(0.0, calls) && 0.0 <= was <= mid <= now && forall q <- calls :: q.at <= was
    requires var l := After(c, Start(c, 0.0), calls); var (l', denied) := Check(c, l, K, mid);
      && !denied.allowed
      && DecisionAt(c, l', Repeat(n + 1, now), n) != DecisionAt(c, l, Repeat(n + 1, now), n)
    ensures DenialVisible(c, 0.0, WithDenied(calls, mid, now, n), |calls|, |calls| + 1 + n)
  {
    hide Start, Check, After, Ordered, DecisionAt, Repeat, WithDenied;
    DeniedOrdered(calls, was, mid, now, n);
    DeniedDecisions(c, Start(c, 0.0), calls, mid, now, n);
    WithoutDenied(calls, mid, now, n);
  }

  /** The denied call renews the bucket's time stamp at `mid`, so 900 seconds later it is still
  there; without that call it has been dropped. */
  lemma TwoDecisions(c: Config, l: Limiter, y: real, was: real, spare: real, extra: real, n: nat)
    requires c.Ok() && c.evicts && 0.0 <= y && 0.0 < extra <= IDLE_EVICTION_SECONDS && 1.0 <= c.burst && c.burst + 1.0 <= spare
    requires y + extra * c.rate < 1.0 && (c.rate == 0.0 ==> n == 0)
    requires 0.0 <= y + (IDLE_EVICTION_SECONDS + extra) * c.rate < c.burst
    requires n == (y + (IDLE_EVICTION_SECONDS + extra) * c.rate).Floor
    requires Holds(c, l, y, spare, was)
    ensures var (l', denied) := Check(c, l, K, was + extra);
      var more := Repeat(n + 1, was + extra + IDLE_EVICTION_SECONDS);
      !denied.allowed && DecisionAt(c, l', more, n) != DecisionAt(c, l, more, n)
  {
    hide Holds, Check, DecisionAt, Repeat;
    var mid, now := was + extra, was + extra + IDLE_EVICTION_SECONDS;
    var x, z := y + extra * c.rate, y + (IDLE_EVICTION_SECONDS + extra) * c.rate;
    Scale(0.0, extra, c.rate);
    assert Regained(c, y, was, mid) == x;
    NextCall(c, l, y, spare, was, mid);
    assert x + (now - mid) * c.rate == z;
    assert Regained(c, x, mid, now) == z && Regained(c, y, was, now) == c.burst;
    CallsAt(c, Check(c, l, K, mid).0, x, spare, mid, now, n);
    CallsAt(c, l, y, spare, was, now, n);
    if c.rate > 0.0 { Divides(1.0 - (z - n as real), 1.0 - (c.burst - n as real), c.rate); }
  }

  lemma TellDenied(c: Config, calls: seq<Call>, y: real, was: real, spare: real)
    requires c.Ok() && c.evicts && 0.0 <= y < 1.0 && y + IDLE_EVICTION_SECONDS * c.rate < c.burst
    requires 1.0 <= c.burst && c.burst + 1.0 <= spare && Drained(c, calls, y, was, spare)
    ensures exists trace, d: nat, i: nat :: DenialVisible(c, 0.0, trace, d, i)
  {
    hide Holds, Start, After, Config.Ok, Ordered, Check, DecisionAt, Repeat, WithDenied;
    var extra := Moment(c, y);
    var n: nat := (y + (IDLE_EVICTION_SECONDS + extra) * c.rate).Floor;
    assert c.(evicts := true) == c;
    TwoDecisions(c, After(c, Start(c, 0.0), calls), y, was, spare, extra, n);
    DeniedTrace(c, calls, was, was + extra, was + extra + IDLE_EVICTION_SECONDS, n);
  }

  /** With one token, no refill and calls at 0, 1 and 901: the second is denied but renews the
  bucket's time stamp, so the third is denied too; without the second it is admitted. */
  lemma DenialCanBeSeen()
    ensures DenialVisible(Config(0.0, 1.0, 2.0, true), 0.0,
                          WithDenied([Call(K, 0.0)], 1.0, 901.0, 0), 1, 2)
  {
    hide Holds, Start, After, Check, DecisionAt, WithDenied;
    var c := Config(0.0, 1.0, 2.0, true);
    FirstCall(c);
    assert Repeat(1, 0.0) == [Call(K, 0.0)];
    TwoDecisions(c, After(c, Start(c, 0.0), [Call(K, 0.0)]), 0.0, 0.0, 119.0, 1.0, 0);
    DeniedTrace(c, [Call(K, 0.0)], 0.0, 1.0, 901.0, 0);
  }

  lemma SmallBurstDenies(c: Config, start: real, calls: seq<Call>, i: nat)
    requires c.Ok() && c.burst < 1.0 && i < |calls|
    ensures DecisionAt(c, Start(c, start), calls, i)
      == Decision(false, if c.rate <= 0.0 then Forever else Seconds((1.0 - c.burst) / c.rate), OfKey(calls[i].key))
  {
    NeverAdmitsRun(c, Start(c, start), calls[..i]);
    NeverAdmits(c, After(c, Start(c, start), calls[..i]), calls[i].key, calls[i].at);
  }

  /** For a given rate and burst, a denied call can be taken out of every trace unseen, whatever
  the global rate, exactly under the same condition. */
  lemma DenialIsInvisibleExactly(rate: real, burst: real)
    requires rate >= 0.0 && burst >= 0.0
    ensures (burst < 1.0 || burst <= IDLE_EVICTION_SECONDS * rate)
      <==> forall c: Config, start, calls, d: nat, i: nat ::
             c.Ok() && c.evicts && c.rate == rate && c.burst == burst ==> !DenialVisible(c, start, calls, d, i)
  {
    hide DecisionAt, Start;
    if burst < 1.0 || burst <= IDLE_EVICTION_SECONDS * rate {
      forall c: Config, start, calls, d: nat, i: nat |
        c.Ok() && c.evicts && c.rate == rate && c.burst == burst
        ensures !DenialVisible(c, start, calls, d, i)
      {
        if Ordered(start, calls) && d < |calls| && i < |calls| && i != d
           && !DecisionAt(c, Start(c, start), calls, d).allowed {
          if burst < 1.0 {
            SmallBurstDenies(c, start, calls, i);
            SmallBurstDenies(c, start, calls[..d] + calls[d + 1..], if i < d then i else i - 1);
          } else {
            DenialIsInvisible(c, start, calls, d, i);
          }
        }
      }
    } else {
      var c := Roomy(rate, burst);
      var calls, y, was, spare := DrainEnough(c);
      TellDenied(c, calls, y, was, spare);
      var trace, d: nat, i: nat :| DenialVisible(c, 0.0, trace, d, i);
    }
  }

  // ----- The bound on one key -----

  /** All calls are for `K` and admitted. */
  ghost predicate AllIn(c: Config, l: Limiter, calls: seq<Call>) {
    forall i :: 0 <= i < |calls| ==> calls[i].key == K && DecisionAt(c, l, calls, i).allowed
  }

  lemma AllAppend(c: Config, l: Limiter, a: seq<Call>, b: seq<Call>)
    requires AllIn(c, l, a) && AllIn(c, After(c, l, a), b)
    ensures AllIn(c, l, a + b)
  {
    hide DecisionAt, After;
    forall i | 0 <= i < |a + b| ensures (a + b)[i].key == K && DecisionAt(c, l, a + b, i).allowed {
      if i < |a| {
        DecisionInPrefix(c, l, a, b, i);
      } else {
        DecisionAfter(c, l, a, b, i - |a|);
      }
    }
  }

  lemma {:induction false} AllCounted(c: Config, l: Limiter, calls: seq<Call>, j: nat)
    requires AllIn(c, l, calls) && j <= |calls|
    ensures Admitted(c, l, calls, Some(K), 0, j) == j
  {
    hide DecisionAt;
    if j > 0 { AllCounted(c, l, calls, j - 1); }
  }

  /** From a bucket with `n` whole tokens at `now`, `n` calls at once. */
  lemma Volley(c: Config, l: Limiter, y: real, spare: real, was: real, now: real, n: nat)
    requires Holds(c, l, y, spare, was) && was <= now && c.Ok()
    requires 1 <= n && n as real <= Regained(c, y, was, now) && (n + 1) as real <= spare
    ensures AllIn(c, l, Repeat(n, now))
    ensures Holds(c, After(c, l, Repeat(n, now)), Regained(c, y, was, now) - n as real, spare - n as real, now)
  {
    hide DecisionAt, Holds, Check, Regained, After;
    var x := Regained(c, y, was, now);
    forall i | 0 <= i < n ensures Repeat(n, now)[i].key == K && DecisionAt(c, l, Repeat(n, now), i).allowed {
      CallsAt(c, l, y, spare, was, now, i);
      assert Repeat(n, now) == Repeat(i + 1, now) + Repeat(n - i - 1, now);
      DecisionInPrefix(c, l, Repeat(i + 1, now), Repeat(n - i - 1, now), i);
    }
    NextCall(c, l, y, spare, was, now);
    RegainedBounds(c, y, was, now);
    Burn(c, Check(c, l, K, now).0, x - 1.0, spare - 1.0, now, n - 1);
    assert Repeat(n, now) == Repeat(1, now) + Repeat(n - 1, now);
    AfterAppend(c, l, Repeat(1, now), Repeat(n - 1, now));
    AfterOne(c, l, Call(K, now));
    assert Repeat(1, now) == [Call(K, now)];
  }

  lemma AfterOne(c: Config, l: Limiter, call: Call)
    ensures After(c, l, [call]) == Check(c, l, call.key, call.at).0
    ensures DecisionAt(c, l, [call], 0) == Check(c, l, call.key, call.at).1
  {
    assert [] + [call] == [call];
    OneMore(c, l, [], call);
  }

  /** The same from a fresh limiter. */
  lemma FirstVolley(c: Config, n: nat)
    requires c.Ok() && 1 <= n && n as real <= c.burst && c.burst + 1.0 <= c.GlobalCapacity()
    ensures AllIn(c, Start(c, 0.0), Repeat(n, 0.0))
  {
    hide DecisionAt, Holds, Check, After, Start, Config.GlobalCapacity;
    var l := Start(c, 0.0);
    forall i | 0 <= i < n ensures Repeat(n, 0.0)[i].key == K && DecisionAt(c, l, Repeat(n, 0.0), i).allowed {
      if i == 0 {
        FirstIsAdmitted(c);
        assert Repeat(n, 0.0) == [Call(K, 0.0)] + Repeat(n - 1, 0.0);
        DecisionInPrefix(c, l, [Call(K, 0.0)], Repeat(n - 1, 0.0), 0);
      } else {
        Drain(c, i);
        NextCall(c, After(c, l, Repeat(i, 0.0)), c.burst - i as real, c.GlobalCapacity() - i as real, 0.0, 0.0);
        OneMore(c, l, Repeat(i, 0.0), Call(K, 0.0));
        assert Repeat(n, 0.0) == Repeat(i, 0.0) + [Call(K, 0.0)] + Repeat(n - i - 1, 0.0);
        DecisionInPrefix(c, l, Repeat(i, 0.0) + [Call(K, 0.0)], Repeat(n - i - 1, 0.0), i);
      }
    }
  }

  lemma FirstIsAdmitted(c: Config)
    requires c.Ok() && 1.0 <= c.burst && c.burst <= c.GlobalCapacity()
    ensures DecisionAt(c, Start(c, 0.0), [Call(K, 0.0)], 0).allowed
  {
    AfterOne(c, Start(c, 0.0), Call(K, 0.0));
  }

  /** More calls of `K` are admitted than its burst and its rate allow. */
  ghost predicate OverBurst(c: Config, start: real, calls: seq<Call>, k: Key, i: nat, j: nat) {
    && Ordered(start, calls) && i < j <= |calls|
    && Admitted(c, Start(c, start), calls, Some(k), i, j) as real
       > c.burst + Earned(c.rate, calls[i].at, calls[j - 1].at)
  }

  lemma AllOver(c: Config, calls: seq<Call>)
    requires Ordered(0.0, calls) && calls != [] && AllIn(c, Start(c, 0.0), calls)
    requires |calls| as real > c.burst + Earned(c.rate, calls[0].at, calls[|calls| - 1].at)
    ensures OverBurst(c, 0.0, calls, K, 0, |calls|)
  {
    AllCounted(c, Start(c, 0.0), calls, |calls|);
  }

  /** Less than one token is back after 900 seconds: two volleys, a little more than 900 seconds
  apart. */
  lemma TwoVolleys(c: Config, n: nat, idle: real)
    requires c.Ok() && c.evicts && 1 <= n == c.burst.Floor && 2.0 * c.burst + 2.0 <= c.GlobalCapacity()
    requires idle > IDLE_EVICTION_SECONDS && idle * c.rate < 1.0 - (c.burst - n as real)
    ensures exists calls, j: nat :: OverBurst(c, 0.0, calls, K, 0, j)
  {
    hide DecisionAt, Holds, After, Start, Config.GlobalCapacity, Ordered, AllIn;
    var first, second := Repeat(n, 0.0), Repeat(n, idle);
    var l := Start(c, 0.0);
    FirstVolley(c, n);
    Drain(c, n);
    Volley(c, After(c, l, first), c.burst - n as real, c.GlobalCapacity() - n as real, 0.0, idle, n);
    AllAppend(c, l, first, second);
    assert Ordered(0.0, []) by { NoCalls(); }
    assert [] + first == first;
    StillOrdered([], 0.0, 0.0, n);
    StillOrdered(first, 0.0, idle, n);
    var calls := first + second;
    assert calls[0].at == 0.0 && calls[|calls| - 1].at == idle;
    AllOver(c, calls);
    assert OverBurst(c, 0.0, calls, K, 0, |calls|);
  }

  lemma NoCalls()
    ensures Ordered(0.0, [])
  {
  }

  /** Otherwise a token is back within 900 seconds: each volley also takes that one. */
  lemma TwoLongVolleys(c: Config, n: nat, t: real, idle: real)
    requires c.Ok() && c.evicts && 1 <= n == c.burst.Floor && 3.0 * c.burst + 3.0 <= c.GlobalCapacity()
    requires 0.0 <= t <= IDLE_EVICTION_SECONDS && c.burst - n as real + Earned(c.rate, 0.0, t) == 1.0
    requires idle > IDLE_EVICTION_SECONDS && idle * c.rate < c.burst
    ensures exists calls, j: nat :: OverBurst(c, 0.0, calls, K, 0, j)
  {
    hide DecisionAt, Holds, After, Start, Config.GlobalCapacity, Ordered, AllIn, Repeat;
    var first, one := Repeat(n, 0.0), [Call(K, t)];
    var second, two := Repeat(n, t + idle), [Call(K, t + idle + t)];
    var l, y, spare := Start(c, 0.0), c.burst - n as real, c.GlobalCapacity();
    FirstVolley(c, n);
    Drain(c, n);
    LastToken(c, After(c, l, first), y, spare - n as real, 0.0, t);
    Join(c, l, first, one);
    Volley(c, After(c, l, first + one), 0.0, spare - n as real - 1.0, t, t + idle, n);
    Join(c, l, first + one, second);
    LastToken(c, After(c, l, first + one + second), y, spare - n as real - 1.0 - n as real, t + idle, t + idle + t);
    Join(c, l, first + one + second, two);
    LongOrdered(n, t, idle);
    var calls := first + one + second + two;
    LongBounds(c, n, t, idle);
    AllOver(c, calls);
    assert OverBurst(c, 0.0, calls, K, 0, |calls|);
  }

  lemma Join(c: Config, l: Limiter, a: seq<Call>, b: seq<Call>)
    requires AllIn(c, l, a) && AllIn(c, After(c, l, a), b)
    ensures AllIn(c, l, a + b) && After(c, l, a + b) == After(c, After(c, l, a), b)
  {
    hide AllIn, After;
    AllAppend(c, l, a, b);
    AfterAppend(c, l, a, b);
  }

  /** The token that came back after a volley. */
  lemma LastToken(c: Config, l: Limiter, y: real, spare: real, was: real, at: real)
    requires Holds(c, l, y, spare, was) && c.Ok() && 1.0 <= spare && 1.0 <= c.burst
    requires was <= at <= was + IDLE_EVICTION_SECONDS && y + Earned(c.rate, was, at) == 1.0
    ensures AllIn(c, l, [Call(K, at)]) && Holds(c, After(c, l, [Call(K, at)]), 0.0, spare - 1.0, at)
  {
    hide Holds, Check, After, DecisionAt;
    assert Regained(c, y, was, at) == 1.0;
    NextCall(c, l, y, spare, was, at);
    AfterOne(c, l, Call(K, at));
  }

  lemma LongOrdered(n: nat, t: real, idle: real)
    requires 0.0 <= t && 0.0 <= idle
    ensures Ordered(0.0, Repeat(n, 0.0) + [Call(K, t)] + Repeat(n, t + idle) + [Call(K, t + idle + t)])
  {
    var calls := Repeat(n, 0.0) + [Call(K, t)] + Repeat(n, t + idle) + [Call(K, t + idle + t)];
    forall i ensures 0 <= i < |calls| ==>
      calls[i].at == if i < n then 0.0 else if i == n then t else if i <= n + n then t + idle else t + idle + t {}
  }

  lemma LongBounds(c: Config, n: nat, t: real, idle: real)
    requires 1 <= n && c.burst - n as real + Earned(c.rate, 0.0, t) == 1.0 && idle * c.rate < c.burst
    ensures var calls := Repeat(n, 0.0) + [Call(K, t)] + Repeat(n, t + idle) + [Call(K, t + idle + t)];
      calls != [] && |calls| as real > c.burst + Earned(c.rate, calls[0].at, calls[|calls| - 1].at)
  {
    var calls := Repeat(n, 0.0) + [Call(K, t)] + Repeat(n, t + idle) + [Call(K, t + idle + t)];
    assert |calls| == n + 1 + n + 1 && calls[0].at == 0.0 && calls[|calls| - 1].at == t + idle + t;
    assert (t + idle + t) * c.rate == t * c.rate + idle * c.rate + t * c.rate;
    assert |calls| as real == n as real + n as real + 2.0;
  }

  /** A little more than 900 seconds. */
  lemma LittleMore(rate: real, limit: real) returns (idle: real)
    requires rate >= 0.0 && IDLE_EVICTION_SECONDS * rate < limit
    ensures idle > IDLE_EVICTION_SECONDS && idle * rate < limit
  {
    if rate == 0.0 {
      idle := IDLE_EVICTION_SECONDS + 1.0;
    } else {
      var extra := (limit - IDLE_EVICTION_SECONDS * rate) / 2.0 / rate;
      assert extra * rate == (limit - IDLE_EVICTION_SECONDS * rate) / 2.0;
      assert extra > 0.0;
      idle := IDLE_EVICTION_SECONDS + extra;
      assert idle * rate == IDLE_EVICTION_SECONDS * rate + extra * rate;
    }
  }

  lemma SmallBurstAdmitsNone(c: Config, start: real, calls: seq<Call>, k: Key, i: nat, j: nat)
    requires c.Ok() && c.burst < 1.0 && i <= j <= |calls|
    ensures Admitted(c, Start(c, start), calls, Some(k), i, j) == 0
    decreases j
  {
    if i < j {
      SmallBurstDenies(c, start, calls, j - 1);
      SmallBurstAdmitsNone(c, start, calls, k, i, j - 1);
    }
  }

  lemma OverBurstExists(rate: real, burst: real)
    requires rate >= 0.0 && burst >= 1.0 && IDLE_EVICTION_SECONDS * rate < burst
    ensures exists calls, j: nat :: OverBurst(Roomy(rate, burst), 0.0, calls, K, 0, j)
  {
    hide OverBurst;
    var c := Roomy(rate, burst);
    var n: nat := burst.Floor;
    if burst - n as real + IDLE_EVICTION_SECONDS * rate < 1.0 {
      var idle := LittleMore(rate, 1.0 - (burst - n as real));
      TwoVolleys(c, n, idle);
    } else {
      var missing := 1.0 - (burst - n as real);
      var t := missing / rate;
      assert Earned(rate, 0.0, t) == missing;
      InTime(t, rate, missing);
      var idle := LittleMore(rate, burst);
      TwoLongVolleys(c, n, t, idle);
    }
  }

  lemma WithinBurst(c: Config, start: real, calls: seq<Call>, k: Key, i: nat, j: nat)
    requires c.Ok() && (c.burst < 1.0 || c.burst <= IDLE_EVICTION_SECONDS * c.rate)
    requires Ordered(start, calls) && i < j <= |calls|
    ensures Admitted(c, Start(c, start), calls, Some(k), i, j) as real
      <= c.burst + Earned(c.rate, calls[i].at, calls[j - 1].at)
  {
    hide Admitted, Start;
    if c.burst < 1.0 {
      SmallBurstAdmitsNone(c, start, calls, k, i, j);
      var elapsed := calls[j - 1].at - calls[i].at;
      assert 0.0 <= elapsed by { if i < j - 1 { assert calls[i].at <= calls[j - 1].at; } }
      Scale(0.0, elapsed, c.rate);
    } else {
      KeyWindow(c, start, calls, k, i, j);
    }
  }

  /** For a given rate and burst, no contract ever gets more than `burst + rate * t` calls through
  in `t` seconds, whatever the global rate, exactly under the same condition once more. */
  lemma KeyWindowExactly(rate: real, burst: real)
    requires rate >= 0.0 && burst >= 0.0
    ensures (burst < 1.0 || burst <= IDLE_EVICTION_SECONDS * rate)
      <==> forall c: Config, start, calls: seq<Call>, k, i: nat, j: nat ::
             c.Ok() && c.evicts && c.rate == rate && c.burst == burst ==> !OverBurst(c, start, calls, k, i, j)
  {
    hide Admitted, Start;
    if burst < 1.0 || burst <= IDLE_EVICTION_SECONDS * rate {
      forall c: Config, start, calls: seq<Call>, k, i: nat, j: nat |
        c.Ok() && c.evicts && c.rate == rate && c.burst == burst
        ensures !OverBurst(c, start, calls, k, i, j)
      {
        if Ordered(start, calls) && i < j <= |calls| { WithinBurst(c, start, calls, k, i, j); }
      }
    } else {
      OverBurstExists(rate, burst);
      var calls, j: nat :| OverBurst(Roomy(rate, burst), 0.0, calls, K, 0, j);
    }
  }
}
