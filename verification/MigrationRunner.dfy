/** The startup protocol of every generated worker: `_apply_schema_and_migrations`, the
template text at `forge/targets/fastapi_prod/gen_app.py` lines 220-275.

Any number of workers, possibly of different releases, boot against one database.  Every
statement outside a transaction is one step, and inside a transaction every statement is one
step on a private copy that only the commit publishes.  Between any two steps a worker may
crash, which closes its session, drops its transaction and frees the advisory lock; any
statement may also fail and send the worker through its `finally` blocks. */
module MigrationRunner {
  import opened Collections
  import opened Schemas
  import opened Differ

  /** The migration files in sorted order; running `bodies[i]` turns `states[i]` into
  `states[i + 1]`.  A release ships a prefix of the files and the schema it ends with. */
  datatype Releases = Releases(names: seq<string>, states: seq<Tables>, bodies: seq<seq<Change>>) {
    ghost predicate Ok() {
      && Distinct(names) && |names| == |bodies| && Chained(states, bodies)
      && states[0] == map[]
      && forall i :: 0 <= i < |states| && states[i] != map[] ==> EntityTables(states[i]) > 0
    }
  }

  predicate IsEntityTable(name: string) {
    name == "" || name[0] != '_'
  }

  /** `_COUNT_ENTITY_TABLES`: tables whose name does not start with an underscore. */
  ghost function EntityTables(tables: Tables): nat {
    |set t | t in tables && IsEntityTable(t)|
  }

  datatype Database = Database(ledger: set<string>, tables: Tables)

  /** `schema.sql` creates every table of a release, unguarded. */
  function ExecSchema(tables: Tables, schema: Tables): Option<Tables> {
    if exists t <- schema :: t in tables then None else Some(tables + schema)
  }

  datatype Phase =
    | Connecting                                    // waiting for the advisory lock
    | CreatingLedger                                // lock held from here on
    | Counting
    | OpeningBaseline
    | InBaseline(tx: Database, recorded: nat)       // schema run, some files recorded
    | ReadingLedger
    | Replaying(applied: set<string>, next: nat)    // the loop over the sorted files
    | InMigration(applied: set<string>, next: nat, tx: Database, inserted: bool)
    | Unlocking(ok: bool)                           // the finally block
    | Finished(ok: bool)
    | Crashed

  datatype Worker = Worker(release: nat, hasSchemaFile: bool, phase: Phase)

  datatype State = State(db: Database, lock: Option<nat>, workers: seq<Worker>)

  predicate Holding(p: Phase) {
    !p.Connecting? && !p.Finished? && !p.Crashed?
  }

  /** What one worker's next statement does, on its own phase and on the shared database. */
  ghost predicate Runs(r: Releases, w: Worker, db: Database, next: Phase, after: Database)
    requires r.Ok() && w.release <= |r.names|
  {
    match w.phase
    case CreatingLedger => next == Counting && after == db
    case Counting =>
      after == db
      && next == (if EntityTables(db.tables) == 0 && w.hasSchemaFile then OpeningBaseline else ReadingLedger)
    case OpeningBaseline =>
      after == db
      && var tables := ExecSchema(db.tables, r.states[w.release]);
      next == if tables.None? then Unlocking(false) else InBaseline(db.(tables := tables.value), 0)
    case InBaseline(tx, recorded) =>
      if recorded < w.release then
        after == db && next == InBaseline(tx.(ledger := tx.ledger + {r.names[recorded]}), recorded + 1)
      else
        after == tx && next == Unlocking(true)
    case ReadingLedger => after == db && next == Replaying(db.ledger, 0)
    case Replaying(applied, i) =>
      after == db
      && next ==
        if i >= w.release then Unlocking(true)
        else if r.names[i] in applied then Replaying(applied, i + 1)
        else
          var tables := ExecAll(db.tables, r.bodies[i]);
          if tables.None? then Unlocking(false)
          else InMigration(applied, i, db.(tables := tables.value), false)
    case InMigration(applied, i, tx, inserted) =>
      if i >= w.release then false
      else if !inserted then
        after == db
        && next ==
          // the plain INSERT violates the primary key when the name is already there
          if r.names[i] in tx.ledger then Unlocking(false)
          else InMigration(applied, i, tx.(ledger := tx.ledger + {r.names[i]}), true)
      else
        after == tx && next == Replaying(applied, i + 1)
    case _ => false
  }

  datatype Action = Acquire | Run | Fail | Unlock | Crash

  ghost predicate Step(r: Releases, s: State, t: State, i: nat, a: Action)
    requires r.Ok()
  {
    && i < |s.workers| && s.workers[i].release <= |r.names|
    && var w := s.workers[i];
    match a
    case Acquire =>
      w.phase.Connecting? && s.lock.None?
      && t == State(s.db, Some(i), s.workers[i := w.(phase := CreatingLedger)])
    case Run =>
      && Holding(w.phase) && !w.phase.Unlocking?
      && |t.workers| == |s.workers|
      && Runs(r, w, s.db, t.workers[i].phase, t.db)
      && t == State(t.db, s.lock, s.workers[i := w.(phase := t.workers[i].phase)])
    case Fail =>
      && Holding(w.phase) && !w.phase.Unlocking?
      && t == State(s.db, s.lock, s.workers[i := w.(phase := Unlocking(false))])
    case Unlock =>
      w.phase.Unlocking?
      && t == State(s.db, None, s.workers[i := w.(phase := Finished(w.phase.ok))])
    case Crash =>
      !w.phase.Finished? && !w.phase.Crashed?
      && t == State(s.db, if Holding(w.phase) then None else s.lock, s.workers[i := w.(phase := Crashed)])
  }

  // ----- What every step keeps -----

  /** How many migrations the database contains. */
  function Level(db: Database): nat {
    |db.ledger|
  }

  /** The ledger names exactly the migrations whose effect the tables show. */
  ghost predicate Consistent(r: Releases, db: Database)
    requires r.Ok()
  {
    && Level(db) <= |r.names|
    && db.ledger == Elements(r.names[..Level(db)])
    && db.tables == r.states[Level(db)]
  }

  function Max(a: nat, b: nat): nat {
    if a < b then b else a
  }

  /** What a worker knows about the database and about its open transaction. */
  ghost predicate Knows(r: Releases, w: Worker, db: Database)
    requires r.Ok() && Consistent(r, db)
  {
    && w.release <= |r.names|
    && match w.phase
       case OpeningBaseline => db.tables == map[] && w.hasSchemaFile
       case InBaseline(tx, recorded) =>
         && db.tables == map[] && w.hasSchemaFile && recorded <= w.release
         && tx.tables == r.states[w.release]
         && tx.ledger == db.ledger + Elements(r.names[..recorded])
       case Replaying(applied, i) =>
         && |applied| <= |r.names| && applied == Elements(r.names[..|applied|])
         && i <= w.release && Level(db) == Max(|applied|, i)
       case InMigration(applied, i, tx, inserted) =>
         && |applied| <= |r.names| && applied == Elements(r.names[..|applied|])
         && |applied| <= i < w.release && Level(db) == i
         && tx.tables == r.states[i + 1]
         && tx.ledger == db.ledger + (if inserted then {r.names[i]} else {})
       case Unlocking(ok) => ok ==> w.release <= Level(db)
       case Finished(ok) => ok ==> w.release <= Level(db)
       case _ => true
  }

  /** No worker would create tables in a database that is newer than itself but empty: a later
  release with an empty schema looks like no release at all. */
  ghost predicate Deployable(r: Releases, workers: seq<Worker>)
    requires r.Ok()
  {
    forall i, l: nat ::
      0 <= i < |workers| && workers[i].hasSchemaFile && workers[i].release < l < |r.states| && r.states[l] == map[]
      ==> r.states[workers[i].release] == map[]
  }

  ghost predicate Inv(r: Releases, s: State)
    requires r.Ok()
  {
    && Consistent(r, s.db) && Deployable(r, s.workers)
    && (s.lock.Some? ==> s.lock.value < |s.workers|)
    && (forall i :: 0 <= i < |s.workers| ==>
          (Holding(s.workers[i].phase) <==> s.lock == Some(i)) && Knows(r, s.workers[i], s.db))
  }

  lemma PrefixLevel(r: Releases, k: nat)
    requires r.Ok() && k <= |r.names|
    ensures |Elements(r.names[..k])| == k
  {
    DistinctCount(r.names[..k]);
  }

  lemma ExtendLedger(r: Releases, k: nat)
    requires r.Ok() && k < |r.names|
    ensures Elements(r.names[..k + 1]) == Elements(r.names[..k]) + {r.names[k]}
    ensures r.names[k] !in Elements(r.names[..k])
  {
    assert r.names[..k + 1] == r.names[..k] + [r.names[k]];
  }

  lemma MergeLedger(r: Releases, j: nat, k: nat)
    requires r.Ok() && j <= k <= |r.names|
    ensures Elements(r.names[..j]) + Elements(r.names[..k]) == Elements(r.names[..k])
  {
    assert forall i :: 0 <= i < j ==> r.names[..j][i] == r.names[..k][i];
  }

  lemma NoEntityTables(r: Releases, db: Database)
    requires r.Ok() && Consistent(r, db) && EntityTables(db.tables) == 0
    ensures db.tables == map[]
  {
  }

  lemma BaselineCommitted(r: Releases, s: State, i: nat)
    requires r.Ok() && Inv(r, s) && i < |s.workers|
    requires s.workers[i].phase.InBaseline? && s.workers[i].phase.recorded == s.workers[i].release
    ensures Consistent(r, s.workers[i].phase.tx)
    ensures Level(s.workers[i].phase.tx) == Max(Level(s.db), s.workers[i].release)
  {
    hide Chained, ExecAll, EntityTables, Elements;
    var n := s.workers[i].release;
    if Level(s.db) <= n {
      MergeLedger(r, Level(s.db), n);
      PrefixLevel(r, n);
    } else {
      StillEmpty(r, s, i);
      MergeLedger(r, n, Level(s.db));
      assert s.workers[i].phase.tx.ledger == s.db.ledger;
    }
  }

  lemma StillEmpty(r: Releases, s: State, i: nat)
    requires r.Ok() && Inv(r, s) && i < |s.workers| && s.workers[i].phase.InBaseline?
    requires s.workers[i].release < Level(s.db)
    ensures r.states[s.workers[i].release] == map[] == r.states[Level(s.db)]
  {
    hide Elements, EntityTables;
  }

  /** A commit of the lock holder: the database stays consistent and does not go back. */
  lemma Committed(r: Releases, s: State, i: nat, w: Worker)
    requires r.Ok() && Inv(r, s) && i < |s.workers| && w == s.workers[i]
    requires (w.phase.InBaseline? && w.phase.recorded == w.release)
      || (w.phase.InMigration? && w.phase.inserted)
    ensures Consistent(r, w.phase.tx) && Level(s.db) <= Level(w.phase.tx)
    ensures w.phase.InMigration? ==> Level(w.phase.tx) == w.phase.next + 1
    ensures w.phase.InBaseline? ==> Level(w.phase.tx) == Max(Level(s.db), w.release)
  {
    if w.phase.InBaseline? {
      BaselineCommitted(r, s, i);
    } else {
      ExtendLedger(r, w.phase.next);
      PrefixLevel(r, w.phase.next + 1);
    }
  }

  lemma PrefixMember(r: Releases, k: nat, n: nat)
    requires r.Ok() && k <= |r.names| && n < |r.names|
    ensures r.names[n] in Elements(r.names[..k]) <==> n < k
  {
    if n < k { assert r.names[..k][n] == r.names[n]; }
  }

  ghost predicate KeptBy(r: Releases, s: State, t: State, i: nat)
    requires r.Ok() && Inv(r, s) && i < |t.workers|
  {
    && Consistent(r, t.db) && Level(s.db) <= Level(t.db)
    && Knows(r, t.workers[i], t.db) && Holding(t.workers[i].phase)
    && t.workers[i].phase != Unlocking(false)
  }

  lemma ReplayKeeps(r: Releases, s: State, t: State, i: nat)
    requires r.Ok() && Inv(r, s) && Step(r, s, t, i, Run) && s.workers[i].phase.Replaying?
    ensures KeptBy(r, s, t, i)
  {
    hide EntityTables, ExecSchema, ExecAll;
    var next := s.workers[i].phase.next;
    if next < s.workers[i].release {
      PrefixMember(r, |s.workers[i].phase.applied|, next);
      assert Level(s.db) == next ==> ExecAll(r.states[next], r.bodies[next]) == Some(r.states[next + 1]);
    }
  }

  lemma MigrationKeeps(r: Releases, s: State, t: State, i: nat)
    requires r.Ok() && Inv(r, s) && Step(r, s, t, i, Run) && s.workers[i].phase.InMigration?
    ensures KeptBy(r, s, t, i)
  {
    ExtendLedger(r, s.workers[i].phase.next);
    if s.workers[i].phase.inserted { Committed(r, s, i, s.workers[i]); }
  }

  lemma OpeningKeeps(r: Releases, s: State, t: State, i: nat)
    requires r.Ok() && Inv(r, s) && Step(r, s, t, i, Run) && s.workers[i].phase.OpeningBaseline?
    ensures KeptBy(r, s, t, i)
  {
    hide ExecAll, EntityTables;
    var schema := r.states[s.workers[i].release];
    assert ExecSchema(map[], schema) == Some(schema) by { assert map[] + schema == schema; }
    assert r.names[..0] == [];
  }

  lemma RecordOne(r: Releases, ledger: set<string>, k: nat)
    requires r.Ok() && k < |r.names|
    ensures ledger + Elements(r.names[..k]) + {r.names[k]} == ledger + Elements(r.names[..k + 1])
  {
    hide Elements, Chained;
    ExtendLedger(r, k);
  }

  lemma RecordKeeps(r: Releases, s: State, t: State, i: nat)
    requires r.Ok() && Inv(r, s) && Step(r, s, t, i, Run)
    requires s.workers[i].phase.InBaseline? && s.workers[i].phase.recorded < s.workers[i].release
    ensures KeptBy(r, s, t, i)
  {
    hide ExecAll, EntityTables, ExecSchema, Consistent, Chained, Elements, Deployable;
    RecordOne(r, s.db.ledger, s.workers[i].phase.recorded);
  }

  lemma BaselineKeeps(r: Releases, s: State, t: State, i: nat)
    requires r.Ok() && Inv(r, s) && Step(r, s, t, i, Run)
    requires s.workers[i].phase.InBaseline? && s.workers[i].phase.recorded >= s.workers[i].release
    ensures KeptBy(r, s, t, i)
  {
    hide ExecAll, EntityTables, ExecSchema, Consistent, Chained;
    Committed(r, s, i, s.workers[i]);
  }

  /** The lock holder's own step: it publishes consistent states only, and never errs. */
  lemma RunKeeps(r: Releases, s: State, t: State, i: nat)
    requires r.Ok() && Inv(r, s) && Step(r, s, t, i, Run)
    ensures KeptBy(r, s, t, i)
  {
    var p := s.workers[i].phase;
    if p.Replaying? {
      ReplayKeeps(r, s, t, i);
    } else if p.InMigration? {
      MigrationKeeps(r, s, t, i);
    } else if p.OpeningBaseline? {
      OpeningKeeps(r, s, t, i);
    } else if p.InBaseline? {
      if p.recorded < s.workers[i].release { RecordKeeps(r, s, t, i); } else { BaselineKeeps(r, s, t, i); }
    } else if p.Counting? {
      if EntityTables(s.db.tables) == 0 { NoEntityTables(r, s.db); }
    } else if p.ReadingLedger? {
      PrefixLevel(r, Level(s.db));
    }
  }

  /** Every step of every worker, crashes and failures included. */
  lemma StepKeepsInv(r: Releases, s: State, t: State, i: nat, a: Action)
    requires r.Ok() && Inv(r, s) && Step(r, s, t, i, a)
    ensures Inv(r, t) && Level(s.db) <= Level(t.db)
  {
    hide Runs, Chained, ExecAll, EntityTables;
    if a.Run? { RunKeeps(r, s, t, i); }
    forall j | 0 <= j < |t.workers|
      ensures (Holding(t.workers[j].phase) <==> t.lock == Some(j)) && Knows(r, t.workers[j], t.db)
    {
      if j != i {
        assert t.workers[j] == s.workers[j];
        if a.Run? { assert s.lock == Some(i); }
      }
    }
    assert forall j :: 0 <= j < |t.workers| ==> t.workers[j].release == s.workers[j].release;
  }

  // ----- Whole runs -----

  /** A database at some version, and workers that have just started. */
  ghost predicate Booting(r: Releases, s: State)
    requires r.Ok()
  {
    && Consistent(r, s.db) && s.lock == None
    && forall i :: 0 <= i < |s.workers| ==> s.workers[i].release <= |r.names| && s.workers[i].phase == Connecting
  }

  /** Any run of any workers. */
  ghost predicate AnyRun(r: Releases, trace: seq<State>, moves: seq<(nat, Action)>)
    requires r.Ok()
  {
    && |trace| == |moves| + 1 && Booting(r, trace[0])
    && forall k :: 0 <= k < |moves| ==> Step(r, trace[k], trace[k + 1], moves[k].0, moves[k].1)
  }

  /** A run of workers that can be deployed. */
  ghost predicate IsRun(r: Releases, trace: seq<State>, moves: seq<(nat, Action)>)
    requires r.Ok()
  {
    AnyRun(r, trace, moves) && Deployable(r, trace[0].workers)
  }

  lemma {:induction false} RunKeepsInv(r: Releases, trace: seq<State>, moves: seq<(nat, Action)>, k: nat)
    requires r.Ok() && IsRun(r, trace, moves) && k < |trace|
    ensures Inv(r, trace[k])
  {
    if k > 0 {
      RunKeepsInv(r, trace, moves, k - 1);
      StepKeepsInv(r, trace[k - 1], trace[k], moves[k - 1].0, moves[k - 1].1);
    }
  }

  lemma {:induction false} NeverGoesBack(r: Releases, trace: seq<State>, moves: seq<(nat, Action)>, j: nat, k: nat)
    requires r.Ok() && IsRun(r, trace, moves) && j <= k < |trace|
    ensures Level(trace[j].db) <= Level(trace[k].db)
    decreases k
  {
    hide Inv, Step;
    if j < k {
      RunKeepsInv(r, trace, moves, k - 1);
      StepKeepsInv(r, trace[k - 1], trace[k], moves[k - 1].0, moves[k - 1].1);
      NeverGoesBack(r, trace, moves, j, k - 1);
    }
  }

  /** At every moment of every run the ledger names exactly the migrations the schema contains,
  and at most one worker is past the lock. */
  lemma LedgerMatchesSchema(r: Releases, trace: seq<State>, moves: seq<(nat, Action)>, k: nat)
    requires r.Ok() && IsRun(r, trace, moves) && k < |trace|
    ensures Consistent(r, trace[k].db)
    ensures var ws := trace[k].workers;
      forall i, j :: 0 <= i < j < |ws| ==> !(Holding(ws[i].phase) && Holding(ws[j].phase))
  {
    RunKeepsInv(r, trace, moves, k);
  }

  /** Once a worker has finished, the database holds at least its release, for ever; for the
  newest release it is exactly the full schema with every file recorded. */
  lemma FinishedIsUpToDate(r: Releases, trace: seq<State>, moves: seq<(nat, Action)>, j: nat, k: nat, i: nat)
    requires r.Ok() && IsRun(r, trace, moves) && j <= k < |trace| && i < |trace[j].workers|
    requires trace[j].workers[i].phase == Finished(true)
    ensures trace[j].workers[i].release <= Level(trace[k].db)
    ensures trace[j].workers[i].release == |r.names| ==>
      trace[k].db == Database(Elements(r.names), r.states[|r.names|])
  {
    RunKeepsInv(r, trace, moves, j);
    RunKeepsInv(r, trace, moves, k);
    NeverGoesBack(r, trace, moves, j, k);
    assert r.names[..|r.names|] == r.names;
  }

  /** Step `k` commits the replay of migration `m`. */
  ghost predicate Replays(trace: seq<State>, moves: seq<(nat, Action)>, k: nat, m: nat) {
    && k < |moves| && |trace| == |moves| + 1
    && moves[k].1 == Run && moves[k].0 < |trace[k].workers|
    && var p := trace[k].workers[moves[k].0].phase;
    p.InMigration? && p.inserted && p.next == m
  }

  /** Step `k` commits a baseline schema. */
  ghost predicate Baselines(trace: seq<State>, moves: seq<(nat, Action)>, k: nat) {
    && k < |moves| && |trace| == |moves| + 1
    && moves[k].1 == Run && moves[k].0 < |trace[k].workers|
    && var w := trace[k].workers[moves[k].0];
    w.phase.InBaseline? && w.phase.recorded == w.release
  }

  /** Nothing but those two kinds of commit ever changes the database, and each does exactly
  what it records: a replay runs the one next file, a baseline fills an empty schema. */
  lemma CommitsAreExact(r: Releases, trace: seq<State>, moves: seq<(nat, Action)>, k: nat)
    requires r.Ok() && IsRun(r, trace, moves) && k < |moves|
    ensures trace[k].db != trace[k + 1].db ==>
      Baselines(trace, moves, k) || exists m :: Replays(trace, moves, k, m)
    ensures Baselines(trace, moves, k) ==>
      && trace[k].db.tables == map[]
      && trace[k + 1].db.tables == r.states[trace[k].workers[moves[k].0].release]
    ensures forall m: nat :: Replays(trace, moves, k, m) ==>
      m < |r.names| && Level(trace[k].db) == m && Level(trace[k + 1].db) == m + 1
      && trace[k + 1].db.ledger == trace[k].db.ledger + {r.names[m]}
      && r.names[m] !in trace[k].db.ledger
      && ExecAll(trace[k].db.tables, r.bodies[m]) == Some(trace[k + 1].db.tables)
  {
    RunKeepsInv(r, trace, moves, k);
    var i := moves[k].0;
    assert Step(r, trace[k], trace[k + 1], i, moves[k].1);
    if moves[k].1 == Run {
      var p := trace[k].workers[i].phase;
      RunKeeps(r, trace[k], trace[k + 1], i);
      if p.InMigration? && p.inserted {
        assert Replays(trace, moves, k, p.next);
        ExtendLedger(r, p.next);
        Committed(r, trace[k], i, trace[k].workers[i]);
      }
    }
  }

  /** Each migration is replayed at most once, and they are replayed in sorted order. */
  lemma ReplaysAreOrdered(r: Releases, trace: seq<State>, moves: seq<(nat, Action)>, j: nat, k: nat, m: nat, n: nat)
    requires r.Ok() && IsRun(r, trace, moves) && j < k < |moves|
    requires Replays(trace, moves, j, m) && Replays(trace, moves, k, n)
    ensures m < n
  {
    CommitsAreExact(r, trace, moves, j);
    CommitsAreExact(r, trace, moves, k);
    NeverGoesBack(r, trace, moves, j + 1, k);
  }

  // ----- Every boot ends -----

  function Remaining(w: Worker): int {
    match w.phase
    case Connecting => 3 * w.release + 6
    case CreatingLedger => 3 * w.release + 5
    case Counting => 3 * w.release + 4
    case OpeningBaseline => w.release + 3
    case InBaseline(_, recorded) => w.release - recorded + 2
    case ReadingLedger => 3 * w.release + 3
    case Replaying(_, next) => 3 * (w.release - next) + 2
    case InMigration(_, next, _, inserted) => 3 * (w.release - next) + (if inserted then 0 else 1)
    case Unlocking(_) => 1
    case Finished(_) => 0
    case Crashed => 0
  }

  function TotalRemaining(ws: seq<Worker>): int {
    if ws == [] then 0 else TotalRemaining(ws[..|ws| - 1]) + Remaining(ws[|ws| - 1])
  }

  lemma {:induction false} TotalNonNegative(r: Releases, ws: seq<Worker>, db: Database)
    requires r.Ok() && Consistent(r, db) && forall w <- ws :: Knows(r, w, db)
    ensures TotalRemaining(ws) >= 0
  {
    if ws != [] {
      assert ws[|ws| - 1] in ws;
      TotalNonNegative(r, ws[..|ws| - 1], db);
    }
  }

  lemma {:induction false} TotalUpdate(ws: seq<Worker>, i: nat, w: Worker)
    requires i < |ws|
    ensures TotalRemaining(ws[i := w]) == TotalRemaining(ws) - Remaining(ws[i]) + Remaining(w)
  {
    if i < |ws| - 1 {
      TotalUpdate(ws[..|ws| - 1], i, w);
      assert ws[i := w][..|ws| - 1] == ws[..|ws| - 1][i := w];
    } else {
      assert ws[i := w][..|ws| - 1] == ws[..|ws| - 1];
    }
  }

  lemma RunDecreases(r: Releases, w: Worker, db: Database, next: Phase, after: Database)
    requires r.Ok() && Consistent(r, db) && Knows(r, w, db) && Runs(r, w, db, next, after)
    ensures Remaining(w.(phase := next)) < Remaining(w)
  {
  }

  lemma FailDecreases(r: Releases, w: Worker, db: Database)
    requires r.Ok() && Consistent(r, db) && Knows(r, w, db) && Holding(w.phase) && !w.phase.Unlocking?
    ensures Remaining(w) > 1
  {
  }

  lemma StepDecreases(r: Releases, s: State, t: State, i: nat, a: Action)
    requires r.Ok() && Inv(r, s) && Step(r, s, t, i, a)
    ensures TotalRemaining(t.workers) < TotalRemaining(s.workers)
  {
    hide Consistent, Chained, Runs, Knows;
    var w := s.workers[i];
    if Holding(w.phase) && !w.phase.Unlocking? { FailDecreases(r, w, s.db); }
    if a.Run? { RunDecreases(r, w, s.db, t.workers[i].phase, t.db); }
    TotalUpdate(s.workers, i, t.workers[i]);
  }

  /** No run is longer than the work there was at boot. */
  lemma {:induction false} RunsAreFinite(r: Releases, trace: seq<State>, moves: seq<(nat, Action)>, k: nat)
    requires r.Ok() && IsRun(r, trace, moves) && k < |trace|
    ensures 0 <= TotalRemaining(trace[k].workers) <= TotalRemaining(trace[0].workers) - k
  {
    hide Consistent, Chained, Runs, Knows, Step;
    RunKeepsInv(r, trace, moves, k);
    TotalNonNegative(r, trace[k].workers, trace[k].db);
    if k > 0 {
      RunKeepsInv(r, trace, moves, k - 1);
      StepDecreases(r, trace[k - 1], trace[k], moves[k - 1].0, moves[k - 1].1);
      RunsAreFinite(r, trace, moves, k - 1);
    }
  }

  ghost function RunsTo(r: Releases, w: Worker, db: Database): (Phase, Database)
    requires r.Ok() && Consistent(r, db) && Knows(r, w, db) && Holding(w.phase) && !w.phase.Unlocking?
    ensures Runs(r, w, db, RunsTo(r, w, db).0, RunsTo(r, w, db).1)
  {
    assert exists next, after :: Runs(r, w, db, next, after) by { SomethingRuns(r, w, db); }
    var next, after :| Runs(r, w, db, next, after);
    (next, after)
  }

  lemma SomethingRuns(r: Releases, w: Worker, db: Database)
    requires r.Ok() && Consistent(r, db) && Knows(r, w, db) && Holding(w.phase) && !w.phase.Unlocking?
    ensures exists next, after :: Runs(r, w, db, next, after)
  {
    hide Consistent, ExecAll, ExecSchema, EntityTables, Elements;
    match w.phase
    case CreatingLedger => assert Runs(r, w, db, Counting, db);
    case Counting =>
      assert Runs(r, w, db,
        if EntityTables(db.tables) == 0 && w.hasSchemaFile then OpeningBaseline else ReadingLedger, db);
    case OpeningBaseline =>
      var tables := ExecSchema(db.tables, r.states[w.release]);
      assert Runs(r, w, db,
        if tables.None? then Unlocking(false) else InBaseline(db.(tables := tables.value), 0), db);
    case InBaseline(tx, recorded) =>
      if recorded < w.release {
        assert Runs(r, w, db, InBaseline(tx.(ledger := tx.ledger + {r.names[recorded]}), recorded + 1), db);
      } else {
        assert Runs(r, w, db, Unlocking(true), tx);
      }
    case ReadingLedger => assert Runs(r, w, db, Replaying(db.ledger, 0), db);
    case Replaying(applied, i) =>
      if i >= w.release {
        assert Runs(r, w, db, Unlocking(true), db);
      } else if r.names[i] in applied {
        assert Runs(r, w, db, Replaying(applied, i + 1), db);
      } else {
        var tables := ExecAll(db.tables, r.bodies[i]);
        assert Runs(r, w, db,
          if tables.None? then Unlocking(false)
          else InMigration(applied, i, db.(tables := tables.value), false), db);
      }
    case InMigration(applied, i, tx, inserted) =>
      if inserted {
        assert Runs(r, w, db, Replaying(applied, i + 1), tx);
      } else {
        assert Runs(r, w, db,
          if r.names[i] in tx.ledger then Unlocking(false)
          else InMigration(applied, i, tx.(ledger := tx.ledger + {r.names[i]}), true), db);
      }
    case _ =>
  }

  /** Nobody is ever stuck: while some worker has neither finished nor crashed, somebody can
  acquire, run or unlock. */
  lemma SomebodyCanMove(r: Releases, s: State, i: nat)
    requires r.Ok() && Inv(r, s) && i < |s.workers|
    requires !s.workers[i].phase.Finished? && !s.workers[i].phase.Crashed?
    ensures exists t, j, a :: Step(r, s, t, j, a) && (a == Acquire || a == Run || a == Unlock)
  {
    if s.lock.None? {
      var t := State(s.db, Some(i), s.workers[i := s.workers[i].(phase := CreatingLedger)]);
      assert Step(r, s, t, i, Acquire);
    } else {
      var j := s.lock.value;
      var w := s.workers[j];
      if w.phase.Unlocking? {
        var t := State(s.db, None, s.workers[j := w.(phase := Finished(w.phase.ok))]);
        assert Step(r, s, t, j, Unlock);
      } else {
        var (next, after) := RunsTo(r, w, s.db);
        var t := State(after, s.lock, s.workers[j := w.(phase := next)]);
        assert Step(r, s, t, j, Run);
      }
    }
  }

  ghost predicate Clean(moves: seq<(nat, Action)>) {
    forall k :: 0 <= k < |moves| ==> moves[k].1 != Fail && moves[k].1 != Crash
  }

  predicate Fine(p: Phase) {
    p != Unlocking(false) && p != Finished(false) && p != Crashed
  }

  lemma CleanStep(r: Releases, s: State, t: State, i: nat, a: Action)
    requires r.Ok() && Inv(r, s) && Step(r, s, t, i, a) && a != Fail && a != Crash
    requires forall w <- s.workers :: Fine(w.phase)
    ensures forall w <- t.workers :: Fine(w.phase)
  {
    hide Consistent, Chained, Runs, Knows;
    if a == Run { RunKeeps(r, s, t, i); }
    assert s.workers[i] in s.workers;
    forall w | w in t.workers ensures Fine(w.phase) {
      var j :| 0 <= j < |t.workers| && t.workers[j] == w;
      if j != i { assert w == s.workers[j]; }
    }
  }

  lemma {:induction false} CleanNeverErrs(r: Releases, trace: seq<State>, moves: seq<(nat, Action)>, k: nat)
    requires r.Ok() && IsRun(r, trace, moves) && Clean(moves) && k < |trace|
    ensures forall w <- trace[k].workers :: Fine(w.phase)
  {
    hide Inv, Step;
    if k > 0 {
      CleanNeverErrs(r, trace, moves, k - 1);
      RunKeepsInv(r, trace, moves, k - 1);
      CleanStep(r, trace[k - 1], trace[k], moves[k - 1].0, moves[k - 1].1);
    }
  }

  /** When nothing crashes and no statement fails, a run that can go no further has booted every
  worker, each at its release or later. */
  lemma CleanBootCompletes(r: Releases, trace: seq<State>, moves: seq<(nat, Action)>)
    requires r.Ok() && IsRun(r, trace, moves) && Clean(moves)
    requires forall t, j, a :: Step(r, trace[|moves|], t, j, a) ==> a == Fail || a == Crash
    ensures forall w <- trace[|moves|].workers ::
      w.phase == Finished(true) && w.release <= Level(trace[|moves|].db)
  {
    var s := trace[|moves|];
    RunKeepsInv(r, trace, moves, |moves|);
    CleanNeverErrs(r, trace, moves, |moves|);
    forall i | 0 <= i < |s.workers| ensures s.workers[i].phase == Finished(true) {
      assert s.workers[i] in s.workers;
      if !s.workers[i].phase.Finished? {
        SomebodyCanMove(r, s, i);
        assert false;
      }
    }
  }

  // ----- Why the workers must be deployable -----

  lemma OneStep(r: Releases, trace: seq<State>, moves: seq<(nat, Action)>, t: State, i: nat, a: Action)
    returns (longer: seq<State>, more: seq<(nat, Action)>)
    requires r.Ok() && AnyRun(r, trace, moves) && Step(r, trace[|moves|], t, i, a)
    ensures AnyRun(r, longer, more) && longer[0] == trace[0] && longer[|more|] == t
  {
    hide Step, Booting;
    longer, more := trace + [t], moves + [(i, a)];
    forall k | 0 <= k < |more| ensures Step(r, longer[k], longer[k + 1], more[k].0, more[k].1) {
      if k < |moves| { assert longer[k] == trace[k] && longer[k + 1] == trace[k + 1] && more[k] == moves[k]; }
    }
  }

  /** The lock holder's next statement. */
  lemma OneRun(r: Releases, trace: seq<State>, moves: seq<(nat, Action)>, i: nat, next: Phase, after: Database)
    returns (longer: seq<State>, more: seq<(nat, Action)>)
    requires r.Ok() && AnyRun(r, trace, moves) && i < |trace[|moves|].workers|
    requires var s := trace[|moves|]; var w := s.workers[i];
      && s.lock == Some(i) && Holding(w.phase) && !w.phase.Unlocking? && w.release <= |r.names|
      && Runs(r, w, s.db, next, after)
    ensures AnyRun(r, longer, more) && longer[0] == trace[0]
    ensures var s := trace[|moves|];
      longer[|more|] == State(after, s.lock, s.workers[i := s.workers[i].(phase := next)])
  {
    hide Runs, AnyRun;
    RunLength(r, trace, moves);
    var s := trace[|moves|];
    var t := State(after, s.lock, s.workers[i := s.workers[i].(phase := next)]);
    assert Step(r, s, t, i, Run) by { Consequence(r, s, i, next, after); }
    longer, more := OneStep(r, trace, moves, t, i, Run);
  }

  lemma Consequence(r: Releases, s: State, i: nat, next: Phase, after: Database)
    requires r.Ok() && i < |s.workers|
    requires var w := s.workers[i];
      Holding(w.phase) && !w.phase.Unlocking? && w.release <= |r.names| && Runs(r, w, s.db, next, after)
    ensures Step(r, s, State(after, s.lock, s.workers[i := s.workers[i].(phase := next)]), i, Run)
  {
    hide Runs;
  }

  /** Worker `i` alone, up to the baseline transaction. */
  lemma OpensBaseline(r: Releases, s: State, i: nat)
    returns (trace: seq<State>, moves: seq<(nat, Action)>)
    requires r.Ok() && Booting(r, s) && i < |s.workers| && s.workers[i].hasSchemaFile && s.db.tables == map[]
    ensures AnyRun(r, trace, moves) && trace[0] == s
    ensures var w := s.workers[i];
      trace[|moves|] == State(s.db, Some(i), s.workers[i := w.(
        phase := InBaseline(s.db.(tables := r.states[w.release]), 0))])
  {
    hide ExecAll, Elements, AnyRun;
    var w := s.workers[i];
    trace, moves := [s], [];
    assert AnyRun(r, trace, moves) by { NoStep(r, s); }
    trace, moves := OneStep(r, trace, moves,
      State(s.db, Some(i), s.workers[i := w.(phase := CreatingLedger)]), i, Acquire);
    trace, moves := OneRun(r, trace, moves, i, Counting, s.db);
    assert EntityTables(s.db.tables) == 0 by { NoTablesCounted(); }
    trace, moves := OneRun(r, trace, moves, i, OpeningBaseline, s.db);
    var schema := r.states[w.release];
    assert ExecSchema(map[], schema) == Some(schema) by { assert map[] + schema == schema; }
    trace, moves := OneRun(r, trace, moves, i, InBaseline(s.db.(tables := schema), 0), s.db);
    SameWorker(s.workers, i, w.(phase := CreatingLedger), w.(phase := Counting));
    SameWorker(s.workers, i, w.(phase := Counting), w.(phase := OpeningBaseline));
    SameWorker(s.workers, i, w.(phase := OpeningBaseline), w.(phase := InBaseline(s.db.(tables := schema), 0)));
  }

  lemma NoStep(r: Releases, s: State)
    requires r.Ok() && Booting(r, s)
    ensures AnyRun(r, [s], [])
  {
  }

  lemma NoTablesCounted()
    ensures EntityTables(map[]) == 0
  {
    var none: Tables := map[];
    assert (set t | t in none && IsEntityTable(t)) == {};
  }

  lemma SameWorker(ws: seq<Worker>, i: nat, a: Worker, b: Worker)
    requires i < |ws|
    ensures ws[i := a][i := b] == ws[i := b]
  {
  }

  /** Then it records its files and commits. */
  lemma {:induction false} CommitsBaseline(
    r: Releases, trace: seq<State>, moves: seq<(nat, Action)>, i: nat, recorded: nat)
    returns (longer: seq<State>, more: seq<(nat, Action)>)
    requires r.Ok() && AnyRun(r, trace, moves) && i < |trace[|moves|].workers|
    requires var s := trace[|moves|]; var w := s.workers[i];
      && s.lock == Some(i) && w.phase.InBaseline? && w.phase.recorded == recorded <= w.release <= |r.names|
    ensures AnyRun(r, longer, more) && longer[0] == trace[0]
    ensures longer[|more|].db.tables == trace[|moves|].workers[i].phase.tx.tables
    ensures longer[|more|].db.ledger
      == trace[|moves|].workers[i].phase.tx.ledger
         + Elements(r.names[recorded..trace[|moves|].workers[i].release])
    decreases trace[|moves|].workers[i].release - recorded
  {
    hide Chained, ExecAll, AnyRun, Elements;
    RunLength(r, trace, moves);
    var s := trace[|moves|];
    var w := s.workers[i];
    var tx := w.phase.tx;
    if recorded < w.release {
      longer, more := OneRun(r, trace, moves, i, InBaseline(tx.(ledger := tx.ledger + {r.names[recorded]}), recorded + 1), s.db);
      longer, more := CommitsBaseline(r, longer, more, i, recorded + 1);
      FirstElement(r.names, recorded, w.release);
    } else {
      longer, more := OneRun(r, trace, moves, i, Unlocking(true), tx);
      NoElement(r.names[recorded..w.release]);
    }
  }

  lemma FirstElement(names: seq<string>, lo: nat, hi: nat)
    requires lo < hi <= |names|
    ensures Elements(names[lo..hi]) == {names[lo]} + Elements(names[lo + 1..hi])
  {
    assert names[lo..hi] == [names[lo]] + names[lo + 1..hi];
  }

  lemma NoElement(names: seq<string>)
    requires names == []
    ensures Elements(names) == {}
  {
  }

  /** An empty database that is newer than a worker which would create tables: it does, and the
  ledger goes on naming the newer migrations. */
  lemma NotDeployable(r: Releases, workers: seq<Worker>, i: nat, l: nat)
    returns (trace: seq<State>, moves: seq<(nat, Action)>)
    requires r.Ok() && (forall w <- workers :: w.release <= |r.names| && w.phase == Connecting)
    requires i < |workers| && workers[i].hasSchemaFile && workers[i].release < l < |r.states|
    requires r.states[l] == map[] && r.states[workers[i].release] != map[]
    ensures AnyRun(r, trace, moves) && trace[0].workers == workers && !Consistent(r, trace[|moves|].db)
  {
    hide ExecAll, AnyRun;
    PrefixLevel(r, l);
    assert workers[i] in workers;
    var s := State(Database(Elements(r.names[..l]), map[]), None, workers);
    assert Booting(r, s) by { assert forall k :: 0 <= k < |workers| ==> workers[k] in workers; }
    trace, moves := OpensBaseline(r, s, i);
    trace, moves := CommitsBaseline(r, trace, moves, i, 0);
    var n := workers[i].release;
    assert r.names[0..n] == r.names[..n];
    MergeLedger(r, n, l);
    RunLength(r, trace, moves);
    assert trace[|moves|].db == Database(Elements(r.names[..l]), r.states[n]);
  }

  /** The ledger matches the schema at every moment of every run of these workers, from every
  version of the database, exactly when they are deployable. */
  lemma DeployableExactly(r: Releases, workers: seq<Worker>)
    requires r.Ok() && (forall w <- workers :: w.release <= |r.names| && w.phase == Connecting)
    ensures Deployable(r, workers)
      <==> forall trace: seq<State>, moves, k: nat ::
             AnyRun(r, trace, moves) && k < |trace| && trace[0].workers == workers ==> Consistent(r, trace[k].db)
  {
    hide AnyRun, Consistent;
    if Deployable(r, workers) {
      forall trace: seq<State>, moves, k: nat | AnyRun(r, trace, moves) && k < |trace| && trace[0].workers == workers
        ensures Consistent(r, trace[k].db)
      {
        LedgerMatchesSchema(r, trace, moves, k);
      }
    } else {
      var i, l: nat :| 0 <= i < |workers| && workers[i].hasSchemaFile && workers[i].release < l < |r.states|
        && r.states[l] == map[] && r.states[workers[i].release] != map[];
      var trace, moves := NotDeployable(r, workers, i, l);
      assert |moves| < |trace| by { RunLength(r, trace, moves); }
    }
  }

  lemma RunLength(r: Releases, trace: seq<State>, moves: seq<(nat, Action)>)
    requires r.Ok() && AnyRun(r, trace, moves)
    ensures |trace| == |moves| + 1
  {
  }

  // ----- Together with the differ -----

  /** The releases a history of contract versions gives rise to. */
  ghost function ReleasesOf(names: seq<string>, history: seq<Version>): Releases
    requires History(history) && history != []
  {
    Releases(names, States(history), Bodies(history))
  }

  /** A version with any entity has one whose table the runner counts. */
  ghost predicate Visible(v: Version) {
    v.at != map[] ==> exists k <- v.at :: IsEntityTable(v.at[k].tableName)
  }

  lemma VisibleTables(v: Version)
    requires OneTableEach(v)
    ensures Visible(v) <==> TablesOf(v) == map[] || EntityTables(TablesOf(v)) > 0
  {
    hide TableOf;
    var counted := set t | t in TablesOf(v) && IsEntityTable(t);
    NoTables(v);
    if k :| k in v.at && IsEntityTable(v.at[k].tableName) {
      assert v.at[k].tableName in TableNames(v);
      assert v.at[k].tableName in counted;
    }
    if counted != {} {
      var t :| t in counted;
      SomeEntity(v, t);
    }
  }

  lemma NoTables(v: Version)
    requires OneTableEach(v)
    ensures TablesOf(v) == map[] <==> v.at == map[]
  {
    hide TableOf;
    if k :| k in v.at { assert v.at[k].tableName in TableNames(v); }
  }

  lemma SomeEntity(v: Version, t: string)
    requires OneTableEach(v) && t in TablesOf(v) && IsEntityTable(t)
    ensures exists k <- v.at :: IsEntityTable(v.at[k].tableName)
  {
    var k :| k in v.at && v.at[k].tableName == t;
    assert IsEntityTable(v.at[k].tableName);
  }

  /** The generated migrations of a history that starts from no entities satisfy everything the
  runner needs, exactly when the differ is exact between consecutive versions and every version
  with an entity has a table the runner counts. */
  lemma GeneratedMigrationsWork(names: seq<string>, history: seq<Version>)
    requires History(history) && history != [] && history[0] == Empty()
    requires Distinct(names) && |names| == |history| - 1
    ensures ReleasesOf(names, history).Ok() <==> Linked(history) && forall v <- history :: Visible(v)
  {
    hide ExecAll, Diff, Carries, EntityTables, Visible;
    HistoryIsChained(history);
    var states := States(history);
    forall i | 0 <= i < |history| ensures Visible(history[i]) <==> states[i] == map[] || EntityTables(states[i]) > 0 {
      VisibleTables(history[i]);
    }
    assert states[0] == map[] by { assert TableNames(history[0]) == {}; }
    assert forall i :: 0 <= i < |history| ==> history[i] in history;
  }

  /** From contracts to database, by baseline or by replay: once a worker of the newest release has
  finished, after any run of boots, the database holds exactly the tables of the newest
  contracts. */
  lemma NewestContractsAreLive(
    names: seq<string>, history: seq<Version>, trace: seq<State>, moves: seq<(nat, Action)>, j: nat, k: nat, i: nat)
    requires History(history) && history != [] && ReleasesOf(names, history).Ok()
    requires IsRun(ReleasesOf(names, history), trace, moves) && j <= k < |trace| && i < |trace[j].workers|
    requires trace[j].workers[i].phase == Finished(true) && trace[j].workers[i].release == |names|
    ensures trace[k].db == Database(Elements(names), TablesOf(history[|history| - 1]))
  {
    hide IsRun;
    FinishedIsUpToDate(ReleasesOf(names, history), trace, moves, j, k, i);
  }
}
