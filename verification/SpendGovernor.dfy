/** `healer/cost.py`: the budget and the breaker in front of every model call, over the usage
table of `healer/queue.py`, and the check-call-record discipline of
`healer/proposer/llm_proposer.py`. */
module SpendGovernor {
  import opened Collections

  /** One row of `llm_usage`; times are seconds. */
  datatype Usage = Usage(at: real, tokens: nat, cost: real, ok: bool)

  /** `spendLimit` is absent when no dollar ceiling is set. */
  datatype Config = Config(
    window: real, tokenBudget: int, spendLimit: Option<real>, threshold: int, cooldown: real)

  datatype Verdict = Allowed | BreakerOpen | TokensExhausted | PriceUnknown | SpendReached

  // ----- What the governor reads -----

  datatype Column = Tokens | Dollars

  function Amount(col: Column, u: Usage): real {
    if col.Tokens? then u.tokens as real else u.cost
  }

  /** `SUM(...) WHERE created_at >= cutoff`, for one column. */
  function TotalSince(col: Column, store: seq<Usage>, cutoff: real): real {
    if store == [] then 0.0
    else
      var last := store[|store| - 1];
      TotalSince(col, store[..|store| - 1], cutoff) + (if last.at >= cutoff then Amount(col, last) else 0.0)
  }

  /** `round(x, 6)`, ties to even. */
  function Round6(x: real): real {
    var floor := (x * 1000000.0).Floor;
    var rest := x * 1000000.0 - floor as real;
    (if rest < 0.5 || (rest == 0.5 && floor % 2 == 0) then floor else floor + 1) as real / 1000000.0
  }

  /** `ORDER BY id DESC LIMIT ?`, oldest first. */
  function Recent(store: seq<Usage>, limit: nat): seq<Usage> {
    if |store| <= limit then store else store[|store| - limit..]
  }

  function Newest(us: seq<Usage>): (t: real)
    requires us != []
    ensures forall u <- us :: u.at <= t
    ensures exists u :: u in us && u.at == t
  {
    var last := us[|us| - 1].at;
    if |us| == 1 then last
    else
      var t := Newest(us[..|us| - 1]);
      assert us == us[..|us| - 1] + [us[|us| - 1]];
      if t < last then last else t
  }

  /** `_breaker_decision`: closed unless the last `threshold` calls all failed too recently. */
  predicate BreakerAllows(c: Config, store: seq<Usage>, now: real) {
    c.threshold <= 0 ||
    var outcomes := Recent(store, c.threshold);
    |outcomes| < c.threshold || (exists u <- outcomes :: u.ok) || now - Newest(outcomes) >= c.cooldown
  }

  function Check(c: Config, store: seq<Usage>, now: real, priced: bool): Verdict {
    if !BreakerAllows(c, store, now) then BreakerOpen
    else if c.tokenBudget > 0 && TotalSince(Tokens, store, now - c.window) >= c.tokenBudget as real
      then TokensExhausted
    else if c.spendLimit.Some? && !priced then PriceUnknown
    else if c.spendLimit.Some? && Round6(TotalSince(Dollars, store, now - c.window)) >= c.spendLimit.value
      then SpendReached
    else Allowed
  }

  /** The usage table as the queue keeps it. */
  class UsageTable {
    var rows: seq<Usage>

    constructor ()
      ensures rows == [] && forall col, cutoff :: TotalSince(col, rows, cutoff) == 0.0
    {
      rows := [];
    }

    /** The new row is the newest outcome, and counts towards a total exactly when it is not
    older than the cutoff. */
    method RecordUsage(u: Usage)
      modifies this
      ensures rows == old(rows) + [u]
      ensures forall cutoff ::
        TotalSince(Tokens, rows, cutoff)
          == TotalSince(Tokens, old(rows), cutoff) + (if u.at >= cutoff then u.tokens as real else 0.0)
      ensures forall cutoff ::
        TotalSince(Dollars, rows, cutoff)
          == TotalSince(Dollars, old(rows), cutoff) + (if u.at >= cutoff then u.cost else 0.0)
      ensures forall n: nat :: Recent(rows, n + 1) == Recent(old(rows), n) + [u]
    {
      ghost var before := rows;
      rows := rows + [u];
      assert rows[..|rows| - 1] == before;
      forall n: nat ensures Recent(rows, n + 1) == Recent(before, n) + [u] {
        if |before| > n { assert rows[|rows| - (n + 1)..] == before[|before| - n..] + [u]; }
      }
    }

    method TotalsSince(cutoff: real) returns (tokens: nat, cost: real)
      ensures tokens as real == TotalSince(Tokens, rows, cutoff)
      ensures cost == Round6(TotalSince(Dollars, rows, cutoff))
    {
      tokens := 0;
      var spent := 0.0;
      for i := 0 to |rows|
        invariant tokens as real == TotalSince(Tokens, rows[..i], cutoff)
        invariant spent == TotalSince(Dollars, rows[..i], cutoff)
      {
        assert rows[..i + 1][..i] == rows[..i];
        if rows[i].at >= cutoff {
          tokens, spent := tokens + rows[i].tokens, spent + rows[i].cost;
        }
      }
      assert rows[..|rows|] == rows;
      cost := Round6(spent);
    }
  }

  // ----- What it decides -----

  /** The last `threshold` calls all failed, one of them less than a cooldown ago. */
  ghost predicate FailedLately(c: Config, store: seq<Usage>, now: real) {
    && 0 < c.threshold <= |store|
    && (forall i :: |store| - c.threshold <= i < |store| ==> !store[i].ok)
    && (exists i :: |store| - c.threshold <= i < |store| && now - store[i].at < c.cooldown)
  }

  lemma BreakerExactly(c: Config, store: seq<Usage>, now: real)
    ensures BreakerAllows(c, store, now) <==> !FailedLately(c, store, now)
  {
    if 0 < c.threshold <= |store| {
      var from, outcomes := |store| - c.threshold, Recent(store, c.threshold);
      assert outcomes == store[from..];
      hide Newest;
      assert forall u <- outcomes :: exists i :: from <= i < |store| && store[i] == u;
      assert forall i :: from <= i < |store| ==> store[i] == outcomes[i - from] && store[i] in outcomes;
    }
  }

  /** A call is refused exactly for these reasons, in this order: the breaker is open, the window
  has used up its tokens, a dollar ceiling is set and the model has no price, or the ceiling is
  reached; every other call is allowed. */
  lemma VerdictExactly(c: Config, store: seq<Usage>, now: real, priced: bool)
    ensures var r := Check(c, store, now, priced); var cutoff := now - c.window;
      var broken := FailedLately(c, store, now);
      var spent := c.tokenBudget > 0 && TotalSince(Tokens, store, cutoff) >= c.tokenBudget as real;
      var reached := c.spendLimit.Some? && Round6(TotalSince(Dollars, store, cutoff)) >= c.spendLimit.value;
      && (r == BreakerOpen <==> broken)
      && (r == TokensExhausted <==> !broken && spent)
      && (r == PriceUnknown <==> !broken && !spent && c.spendLimit.Some? && !priced)
      && (r == SpendReached <==> !broken && !spent && priced && reached)
      && (r == Allowed <==> !broken && !spent && !reached && (c.spendLimit.Some? ==> priced))
  {
    hide BreakerAllows, FailedLately, TotalSince, Round6;
    BreakerExactly(c, store, now);
  }

  /** The dollars are compared in whole millionths, the nearest ones, the even ones of two. */
  lemma RoundedExactly(x: real) returns (n: int)
    ensures Round6(x) == n as real / 1000000.0
    ensures n as real - 0.5 <= x * 1000000.0 <= n as real + 0.5
    ensures x * 1000000.0 == n as real - 0.5 || x * 1000000.0 == n as real + 0.5 ==> n % 2 == 0
  {
    var floor := (x * 1000000.0).Floor;
    var rest := x * 1000000.0 - floor as real;
    n := if rest < 0.5 || (rest == 0.5 && floor % 2 == 0) then floor else floor + 1;
  }

  // ----- Callers -----

  /** A call is in flight from its allowed check to the recording of its usage. */
  datatype State = State(store: seq<Usage>, inFlight: map<nat, real>, now: real)

  /** A call whose process ends is abandoned: it never records anything. */
  datatype Event =
    | Begin(call: nat, at: real, priced: bool)
    | Record(call: nat, usage: Usage)
    | Abandon(call: nat)

  /** At most `calls` calls are in flight, and each records at most so much. */
  datatype Limits = Limits(calls: nat, tokens: nat, cost: real) {
    function Most(col: Column): real {
      if col.Tokens? then tokens as real else cost
    }
  }

  ghost predicate Step(c: Config, k: Limits, s: State, e: Event, t: State) {
    match e
    case Begin(call, at, priced) =>
      && s.now <= at && call !in s.inFlight && |s.inFlight| < k.calls
      && Check(c, s.store, at, priced) == Allowed
      && t == State(s.store, s.inFlight[call := at], at)
    case Record(call, usage) =>
      && s.now <= usage.at && call in s.inFlight && usage.tokens <= k.tokens && 0.0 <= usage.cost <= k.cost
      && t == State(s.store + [usage], s.inFlight - {call}, usage.at)
    case Abandon(call) =>
      call in s.inFlight && t == s.(inFlight := s.inFlight - {call})
  }

  /** Rows in order of time, none of them from the future. */
  ghost predicate InOrder(store: seq<Usage>, now: real) {
    && (forall i :: 0 <= i < |store| ==> store[i].at <= now && store[i].cost >= 0.0)
    && (forall i, j :: 0 <= i < j < |store| ==> store[i].at <= store[j].at)
  }

  /** A run may start with any rows in the table: it outlives the process. */
  ghost predicate IsRun(c: Config, k: Limits, trace: seq<State>, events: seq<Event>) {
    && |trace| == |events| + 1
    && InOrder(trace[0].store, trace[0].now) && trace[0].inFlight == map[]
    && forall i :: 0 <= i < |events| ==> Step(c, k, trace[i], events[i], trace[i + 1])
  }

  // ----- The budget -----

  /** What was recorded between two moments. */
  function TotalBetween(col: Column, store: seq<Usage>, lo: real, hi: real): real {
    if store == [] then 0.0
    else
      var last := store[|store| - 1];
      TotalBetween(col, store[..|store| - 1], lo, hi) + (if lo <= last.at <= hi then Amount(col, last) else 0.0)
  }

  /** The column is governed at all. */
  predicate Enforced(c: Config, col: Column) {
    if col.Tokens? then c.tokenBudget > 0 else c.spendLimit.Some?
  }

  /** The most that a window may hold for a call to be allowed at its end: a whole token below
  the budget; for dollars, the ceiling and what rounding may hide. */
  function Allowance(c: Config, col: Column): real
    requires Enforced(c, col)
  {
    if col.Tokens? then (c.tokenBudget - 1) as real else c.spendLimit.value + 0.0000005
  }

  lemma {:induction false} TokensAreWhole(store: seq<Usage>, cutoff: real) returns (n: nat)
    ensures TotalSince(Tokens, store, cutoff) == n as real
  {
    if store == [] {
      n := 0;
    } else {
      n := TokensAreWhole(store[..|store| - 1], cutoff);
      if store[|store| - 1].at >= cutoff { n := n + store[|store| - 1].tokens; }
    }
  }

  lemma RoundsNearly(x: real)
    ensures x - 0.0000005 <= Round6(x) <= x + 0.0000005
  {
    assert Round6(x) * 1000000.0 <= x * 1000000.0 + 0.5;
    assert Round6(x) * 1000000.0 >= x * 1000000.0 - 0.5;
  }

  lemma AllowedMeans(c: Config, col: Column, store: seq<Usage>, now: real, priced: bool)
    requires Check(c, store, now, priced) == Allowed && Enforced(c, col)
    ensures TotalSince(col, store, now - c.window) <= Allowance(c, col)
  {
    hide BreakerAllows, Round6, TotalSince;
    if col.Tokens? {
      var n := TokensAreWhole(store, now - c.window);
      assert n < c.tokenBudget;
    } else {
      RoundsNearly(TotalSince(Dollars, store, now - c.window));
    }
  }

  ghost function BegunBy(inFlight: map<nat, real>, hi: real): set<nat> {
    set call | call in inFlight && inFlight[call] <= hi
  }

  lemma {:induction false} BetweenWithinSince(col: Column, store: seq<Usage>, lo: real, hi: real, cutoff: real)
    requires cutoff <= lo && forall i :: 0 <= i < |store| ==> store[i].cost >= 0.0
    ensures TotalBetween(col, store, lo, hi) <= TotalSince(col, store, cutoff)
  {
    if store != [] { BetweenWithinSince(col, store[..|store| - 1], lo, hi, cutoff); }
  }

  ghost function Share(n: nat, most: real): real {
    n as real * most
  }

  lemma Shares(a: nat, b: nat, most: real)
    requires a <= b && most >= 0.0
    ensures Share(a, most) <= Share(b, most)
    ensures Share(a + 1, most) == Share(a, most) + most && Share(0, most) == 0.0
  {
    assert (b - a) as real * most >= 0.0;
    assert (a + 1) as real == a as real + 1.0;
  }

  /** What a window holds in the end: what it held at the start if that was more. */
  ghost function Bound(c: Config, k: Limits, col: Column, initial: seq<Usage>, lo: real): real
    requires Enforced(c, col)
  {
    var governed := Allowance(c, col) + Share(k.calls, k.Most(col));
    var before := TotalBetween(col, initial, lo, lo + c.window);
    if governed < before then before else governed
  }

  /** Whatever is still in flight at the end of a window is already paid for. */
  ghost predicate WithinBudget(c: Config, k: Limits, col: Column, initial: seq<Usage>, s: State, lo: real)
    requires Enforced(c, col)
  {
    TotalBetween(col, s.store, lo, lo + c.window) + Share(|BegunBy(s.inFlight, lo + c.window)|, k.Most(col))
      <= Bound(c, k, col, initial, lo)
  }

  ghost predicate BudgetInv(c: Config, k: Limits, col: Column, initial: seq<Usage>, s: State)
    requires Enforced(c, col)
  {
    && |s.inFlight| <= k.calls
    && (forall call <- s.inFlight :: s.inFlight[call] <= s.now)
    && (forall i :: 0 <= i < |s.store| ==> s.store[i].cost >= 0.0)
    && forall lo :: WithinBudget(c, k, col, initial, s, lo)
  }

  lemma BegunCount(inFlight: map<nat, real>, hi: real)
    ensures |BegunBy(inFlight, hi)| <= |inFlight|
  {
    SubsetCount(BegunBy(inFlight, hi), inFlight.Keys);
  }

  lemma BeginKeepsBudget(c: Config, k: Limits, col: Column, initial: seq<Usage>, s: State, e: Event, t: State, lo: real)
    requires Enforced(c, col) && c.window >= 0.0 && k.cost >= 0.0
    requires BudgetInv(c, k, col, initial, s) && Step(c, k, s, e, t) && e.Begin?
    ensures WithinBudget(c, k, col, initial, t, lo)
  {
    hide Share, Check, Allowance, TotalBetween, TotalSince;
    var hi := lo + c.window;
    assert t.inFlight.Keys == s.inFlight.Keys + {e.call};
    BegunCount(t.inFlight, hi);
    if e.at <= hi {
      AllowedMeans(c, col, s.store, e.at, e.priced);
      BetweenWithinSince(col, s.store, lo, hi, e.at - c.window);
      Shares(|BegunBy(t.inFlight, hi)|, k.calls, k.Most(col));
    } else {
      assert BegunBy(t.inFlight, hi) == BegunBy(s.inFlight, hi);
      assert WithinBudget(c, k, col, initial, s, lo);
    }
  }

  lemma AbandonKeepsBudget(
    c: Config, k: Limits, col: Column, initial: seq<Usage>, s: State, t: State, call: nat, lo: real)
    requires Enforced(c, col) && k.cost >= 0.0 && WithinBudget(c, k, col, initial, s, lo)
    requires t.inFlight == s.inFlight - {call} && t.store == s.store
    ensures WithinBudget(c, k, col, initial, t, lo)
  {
    hide Share, Bound, TotalBetween;
    var before, after := BegunBy(s.inFlight, lo + c.window), BegunBy(t.inFlight, lo + c.window);
    SubsetCount(after, before);
    Shares(|after|, |before|, k.Most(col));
  }

  lemma RecordKeepsBudget(
    c: Config, k: Limits, col: Column, initial: seq<Usage>, s: State, t: State, call: nat, usage: Usage, lo: real)
    requires Enforced(c, col) && k.cost >= 0.0 && WithinBudget(c, k, col, initial, s, lo)
    requires call in s.inFlight && s.inFlight[call] <= usage.at && Amount(col, usage) <= k.Most(col)
    requires t.inFlight == s.inFlight - {call} && t.store == s.store + [usage]
    ensures WithinBudget(c, k, col, initial, t, lo)
  {
    hide Share, Bound;
    var hi := lo + c.window;
    assert t.store[..|t.store| - 1] == s.store;
    var before, after := BegunBy(s.inFlight, hi), BegunBy(t.inFlight, hi);
    SubsetCount(after, before);
    Shares(|after|, |before|, k.Most(col));
    if usage.at <= hi {
      assert before == after + {call} && call !in after;
    }
  }

  lemma StepKeepsBudget(c: Config, k: Limits, col: Column, initial: seq<Usage>, s: State, e: Event, t: State)
    requires Enforced(c, col) && c.window >= 0.0 && k.cost >= 0.0
    requires BudgetInv(c, k, col, initial, s) && Step(c, k, s, e, t)
    ensures BudgetInv(c, k, col, initial, t)
  {
    hide WithinBudget, Check;
    forall lo ensures WithinBudget(c, k, col, initial, t, lo) {
      if e.Begin? {
        BeginKeepsBudget(c, k, col, initial, s, e, t, lo);
      } else {
        assert WithinBudget(c, k, col, initial, s, lo);
        if e.Record? {
          RecordKeepsBudget(c, k, col, initial, s, t, e.call, e.usage, lo);
        } else {
          AbandonKeepsBudget(c, k, col, initial, s, t, e.call, lo);
        }
      }
    }
    if e.Begin? {
      assert t.inFlight.Keys == s.inFlight.Keys + {e.call};
    } else {
      assert t.inFlight.Keys == s.inFlight.Keys - {e.call};
    }
  }

  lemma StartBudget(c: Config, k: Limits, col: Column, s: State)
    requires Enforced(c, col) && InOrder(s.store, s.now) && s.inFlight == map[]
    ensures BudgetInv(c, k, col, s.store, s)
  {
    forall lo ensures WithinBudget(c, k, col, s.store, s, lo) {
      assert BegunBy(s.inFlight, lo + c.window) == {};
      assert Share(0, k.Most(col)) == 0.0;
    }
  }

  lemma {:induction false} RunKeepsBudget(
    c: Config, k: Limits, col: Column, trace: seq<State>, events: seq<Event>, i: nat)
    requires Enforced(c, col) && c.window >= 0.0 && k.cost >= 0.0
    requires IsRun(c, k, trace, events) && i < |trace|
    ensures BudgetInv(c, k, col, trace[0].store, trace[i])
  {
    hide Step, WithinBudget;
    if i == 0 {
      StartBudget(c, k, col, trace[0]);
    } else {
      RunKeepsBudget(c, k, col, trace, events, i - 1);
      StepKeepsBudget(c, k, col, trace[0].store, trace[i - 1], events[i - 1], trace[i]);
    }
  }

  /** In every window of the configured length, wherever it starts, at most
  `budget - 1 + calls * most` tokens are recorded, and at most `limit + calls * most` dollars but
  for rounding; or what the table held of that window when the run began, if that was more. */
  lemma WindowBudget(
    c: Config, k: Limits, col: Column, trace: seq<State>, events: seq<Event>, i: nat, lo: real)
    requires Enforced(c, col) && c.window >= 0.0 && k.cost >= 0.0
    requires IsRun(c, k, trace, events) && i < |trace|
    ensures var held := TotalBetween(col, trace[i].store, lo, lo + c.window);
      || held <= Allowance(c, col) + k.calls as real * k.Most(col)
      || held <= TotalBetween(col, trace[0].store, lo, lo + c.window)
  {
    RunKeepsBudget(c, k, col, trace, events, i);
    assert WithinBudget(c, k, col, trace[0].store, trace[i], lo);
    Shares(0, |BegunBy(trace[i].inFlight, lo + c.window)|, k.Most(col));
  }

  // ----- The breaker -----

  ghost predicate AllFailed(us: seq<Usage>) {
    forall u <- us :: !u.ok
  }

  /** After `threshold` failures in a row the next record is a cooldown later. */
  ghost predicate Spaced(c: Config, store: seq<Usage>, i: nat)
    requires i < |store|
  {
    c.threshold > 0 && i >= c.threshold && AllFailed(store[i - c.threshold..i]) ==>
      store[i].at >= store[i - 1].at + c.cooldown
  }

  /** Rows recorded in this run are spaced; those from before it are as they were. */
  ghost predicate BreakerInv(c: Config, initial: seq<Usage>, s: State) {
    && |s.inFlight| <= 1
    && (forall call <- s.inFlight :: s.inFlight[call] <= s.now && BreakerAllows(c, s.store, s.inFlight[call]))
    && initial <= s.store && InOrder(s.store, s.now)
    && (forall i :: |initial| <= i < |s.store| ==> Spaced(c, s.store, i))
  }

  lemma RecordSpaced(c: Config, s: State, call: nat, usage: Usage)
    requires call in s.inFlight && s.inFlight[call] <= s.now && BreakerAllows(c, s.store, s.inFlight[call])
    requires InOrder(s.store, s.now) && s.now <= usage.at
    ensures Spaced(c, s.store + [usage], |s.store|)
  {
    var n, store := |s.store|, s.store + [usage];
    if c.threshold > 0 && n >= c.threshold && AllFailed(store[n - c.threshold..n]) {
      assert store[n - c.threshold..n] == s.store[n - c.threshold..];
      var outcomes := Recent(s.store, c.threshold);
      assert outcomes == s.store[n - c.threshold..];
      assert s.store[n - 1] == outcomes[|outcomes| - 1];
      assert s.store[n - 1] in outcomes;
    }
  }

  lemma BeginKeepsBreaker(c: Config, k: Limits, initial: seq<Usage>, s: State, e: Event, t: State)
    requires k.calls == 1 && BreakerInv(c, initial, s) && Step(c, k, s, e, t) && e.Begin?
    ensures BreakerInv(c, initial, t)
  {
    hide Spaced, BreakerAllows;
    assert s.inFlight == map[] by { assert |s.inFlight.Keys| == 0; }
    assert t.inFlight == map[e.call := e.at];
    assert t.inFlight.Keys == {e.call};
  }

  lemma NoneLeft(s: State, t: State, call: nat)
    requires |s.inFlight| <= 1 && call in s.inFlight && t.inFlight == s.inFlight - {call}
    ensures t.inFlight == map[]
  {
    assert t.inFlight.Keys == s.inFlight.Keys - {call};
    assert |t.inFlight.Keys| == 0;
  }

  lemma RecordKeepsBreaker(c: Config, k: Limits, initial: seq<Usage>, s: State, e: Event, t: State)
    requires k.calls == 1 && BreakerInv(c, initial, s) && Step(c, k, s, e, t) && e.Record?
    ensures BreakerInv(c, initial, t)
  {
    hide BreakerAllows, Check;
    RecordSpaced(c, s, e.call, e.usage);
    NoneLeft(s, t, e.call);
    forall i | |initial| <= i < |s.store| ensures Spaced(c, t.store, i) {
      assert Spaced(c, s.store, i);
      if i >= c.threshold && c.threshold > 0 {
        assert t.store[i - c.threshold..i] == s.store[i - c.threshold..i];
      }
    }
  }

  lemma StepKeepsBreaker(c: Config, k: Limits, initial: seq<Usage>, s: State, e: Event, t: State)
    requires k.calls == 1 && BreakerInv(c, initial, s) && Step(c, k, s, e, t)
    ensures BreakerInv(c, initial, t)
  {
    hide Check, BreakerAllows, Spaced;
    match e
    case Begin(_, _, _) => BeginKeepsBreaker(c, k, initial, s, e, t);
    case Record(_, _) => RecordKeepsBreaker(c, k, initial, s, e, t);
    case Abandon(call) => NoneLeft(s, t, call);
  }

  lemma {:induction false} RunKeepsBreaker(c: Config, k: Limits, trace: seq<State>, events: seq<Event>, i: nat)
    requires k.calls == 1 && IsRun(c, k, trace, events) && i < |trace|
    ensures BreakerInv(c, trace[0].store, trace[i])
  {
    hide Spaced, BreakerAllows, Step;
    if i > 0 {
      RunKeepsBreaker(c, k, trace, events, i - 1);
      StepKeepsBreaker(c, k, trace[0].store, trace[i - 1], events[i - 1], trace[i]);
    }
  }

  lemma OneCooldownLater(c: Config, s: State, lo: nat, i: nat)
    requires c.threshold > 0 && i < |s.store| && Spaced(c, s.store, i)
    requires lo + c.threshold <= i && AllFailed(s.store[lo..i + 1])
    ensures s.store[i].at >= s.store[i - 1].at + c.cooldown
  {
    forall u | u in s.store[i - c.threshold..i] ensures !u.ok {
      var j :| i - c.threshold <= j < i && s.store[j] == u;
      assert s.store[lo..i + 1][j - lo] == u;
    }
  }

  ghost function Cooldowns(c: Config, n: nat): real {
    n as real * c.cooldown
  }

  lemma MoreCooldowns(c: Config, n: nat)
    ensures Cooldowns(c, n + 1) == Cooldowns(c, n) + c.cooldown && Cooldowns(c, 0) == 0.0
  {
    assert (n + 1) as real == n as real + 1.0;
  }

  /** Failures `lo` to `hi - 1` take at least a cooldown each beyond the first `threshold`. */
  lemma {:induction false} FailuresTakeTime(c: Config, s: State, lo: nat, hi: nat)
    requires InOrder(s.store, s.now) && c.threshold > 0
    requires lo < hi <= |s.store| && hi - lo >= c.threshold && AllFailed(s.store[lo..hi])
    requires forall i :: lo + c.threshold <= i < hi ==> Spaced(c, s.store, i)
    ensures s.store[hi - 1].at - s.store[lo].at >= Cooldowns(c, hi - lo - c.threshold)
    decreases hi
  {
    hide Cooldowns, Spaced, BreakerAllows;
    MoreCooldowns(c, 0);
    if hi - lo > c.threshold {
      assert forall u <- s.store[lo..hi - 1] :: u in s.store[lo..hi];
      FailuresTakeTime(c, s, lo, hi - 1);
      OneCooldownLater(c, s, lo, hi - 1);
      MoreCooldowns(c, hi - 1 - lo - c.threshold);
    }
  }

  /** Rows from before the run keep their spacing. */
  lemma OldRowsSpaced(c: Config, initial: seq<Usage>, store: seq<Usage>, i: nat)
    requires initial <= store && i < |initial|
    ensures Spaced(c, store, i) <==> Spaced(c, initial, i)
  {
    if c.threshold > 0 && i >= c.threshold {
      assert store[i - c.threshold..i] == initial[i - c.threshold..i];
    }
  }

  /** Run one call at a time, an interval of length `t` that holds only failures holds at most
  `threshold + floor(t / cooldown)` calls.  The rows the table held before the run count too, as
  far as they are themselves a cooldown apart after `threshold` failures. */
  lemma BreakerBound(c: Config, k: Limits, trace: seq<State>, events: seq<Event>, i: nat, lo: nat, hi: nat, t: real)
    requires k.calls == 1 && IsRun(c, k, trace, events) && i < |trace|
    requires c.threshold > 0 && c.cooldown > 0.0
    requires forall j :: lo + c.threshold <= j < |trace[0].store| ==> Spaced(c, trace[0].store, j)
    requires lo < hi <= |trace[i].store| && AllFailed(trace[i].store[lo..hi])
    requires trace[i].store[hi - 1].at - trace[i].store[lo].at <= t
    ensures hi - lo <= c.threshold + (t / c.cooldown).Floor
  {
    hide Step, AllFailed, Spaced, BreakerAllows;
    var s := trace[i];
    RunKeepsBreaker(c, k, trace, events, i);
    assert t >= 0.0;
    if hi - lo >= c.threshold {
      forall j | lo + c.threshold <= j < hi ensures Spaced(c, s.store, j) {
        if j < |trace[0].store| { OldRowsSpaced(c, trace[0].store, s.store, j); }
      }
      FailuresTakeTime(c, s, lo, hi);
      AtMostQuotient((hi - lo - c.threshold) as real, c.cooldown, t);
    } else {
      AtMostQuotient(0.0, c.cooldown, t);
    }
  }

  lemma AtMostQuotient(n: real, d: real, t: real)
    requires d > 0.0 && n * d <= t
    ensures n <= t / d
  {
    var q := t / d;
    assert q * d == t;
    if n > q {
      assert n * d > q * d by { assert (n - q) * d > 0.0; }
    }
  }
}
