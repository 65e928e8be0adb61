/** The life of a ticket: `healer/pipeline.py` run by any number of workers, the approval and
rejection handlers of `healer/api/server.py`, ingestion and the drain worker, all on one
ticket table.

Each committed statement, each contract write and each in-memory decision is one step.  The
approve and reject handlers read and then write in two statements; they run synchronously on
one event loop and so are serialised with each other, but not with the workers.  Any process
may abandon its ticket between two steps, by an exception or by dying. */
module HealerProtocol {
  import opened Collections
  import opened HealerQueues

  /** The steps of `_process_ticket` and `_apply_and_notify`, with the ticket in memory. */
  datatype Phase =
    | Idle
    | Classifying(id: TicketId)
    | Classified(id: TicketId, tier: nat, order: nat, fixable: bool)
    | Proposing(id: TicketId, tier: nat)
    | Storing(id: TicketId, tier: nat, p: Proposal)
    | Deciding(id: TicketId, tier: nat, p: Proposal)
    | Applying(id: TicketId, found: Option<Proposal>)
    | Written(id: TicketId)
    | Failing(id: TicketId)
    | Holding(id: TicketId)

  /** The serialised approve and reject handlers. */
  datatype Control =
    | Free
    | Approving(id: TicketId, found: Option<Proposal>)
    | Rejecting(id: TicketId)
    | Carrying(phase: Phase)

  /** The drain worker: blocked on the wakeup signal, or emptying the queue. */
  datatype Drain = Waiting(normal: bool) | Draining

  /** One contract write, by the ticket that caused it. */
  datatype Write = Write(id: TicketId, proposal: Proposal)

  datatype State = State(
    rows: Rows,
    workers: seq<Phase>,          // worker 0 is the drain worker's thread
    control: Control,
    approvals: set<TicketId>,     // tickets a human has approved
    writes: seq<Write>,
    signal: bool, drain: Drain,
    pending: set<TicketId>,       // enqueued by an ingest that has not set the signal yet
    ingested: set<TicketId>)      // enqueued by an ingest that has completed

  datatype Move =
    | Enqueue(id: TicketId, order: nat, at: int)
    | Ingest(id: TicketId, order: nat, at: int)
    | Signal(id: TicketId)
    | Wake
    | Claim(i: nat, id: TicketId)
    | NoTicket(i: nat)
    | Classify(i: nat, tier: nat, order: nat, fixable: bool)
    | StoreClassification(i: nat)
    | Propose(i: nat, p: Option<Proposal>)
    | StoreProposal(i: nat)
    | Decide(i: nat)
    | Apply(i: nat, ok: bool)
    | Finish(i: nat, now: int)
    | Abandon(i: nat)
    | ReadToApprove(id: TicketId)
    | ReadToReject(id: TicketId)
    | Approve(now: int)
    | Reject(now: int)
    | ApplyApproved(ok: bool)
    | FinishApproved(now: int)
    | AbandonControl

  /** `propose_deterministic_fix` is certain; `_attempt_fix` scores by tier. */
  predicate Scored(tier: nat, p: Proposal) {
    p.confidence == if !p.model then 1.0 else if tier == 2 then 0.7 else 0.5
  }

  /** `apply_fix`: on success the contract is written; without a proposal, without a contract
  file or with an invalid proposal it is not. */
  function AfterApply(phase: Phase, ok: bool): Phase
    requires phase.Applying?
  {
    if phase.found.Some? && ok then Written(phase.id) else Failing(phase.id)
  }

  function WritesOf(phase: Phase, ok: bool): seq<Write>
    requires phase.Applying?
  {
    if phase.found.Some? && ok then [Write(phase.id, phase.found.value)] else []
  }

  predicate Closing(phase: Phase) {
    phase.Written? || phase.Failing? || phase.Holding?
  }

  function Outcome(phase: Phase): Status
    requires Closing(phase)
  {
    if phase.Written? then Applied else if phase.Failing? then Failed else Proposed
  }

  function PhaseOf(s: State, i: nat): Phase {
    if i < |s.workers| then s.workers[i] else Idle
  }

  ghost predicate Step(threshold: real, s: State, m: Move, t: State) {
    match m
    case Enqueue(id, order, at) =>
      id !in s.rows && t == s.(rows := s.rows[id := Fresh(order, at)])
    case Ingest(id, order, at) =>
      id !in s.rows && t == s.(rows := s.rows[id := Fresh(order, at)], pending := s.pending + {id})
    case Signal(id) =>
      id in s.pending
      && t == s.(signal := true, pending := s.pending - {id}, ingested := s.ingested + {id})
    case Wake =>
      s.drain.Waiting? && t == s.(drain := Draining, signal := false)
    case Claim(i, id) =>
      && i < |s.workers| && s.workers[i] == Idle && (i == 0 ==> s.drain == Draining)
      && Next(s.rows, id)
      && t == s.(rows := Claimed(s.rows, id), workers := s.workers[i := Classifying(id)])
    case NoTicket(i) =>
      && i < |s.workers| && s.workers[i] == Idle && (i == 0 ==> s.drain == Draining)
      && (forall id :: !InQueue(s.rows, id))
      && t == if i == 0 then s.(drain := Waiting(true)) else s
    case Classify(i, tier, order, fixable) =>
      var p := PhaseOf(s, i);
      p.Classifying? && t == s.(workers := s.workers[i := Classified(p.id, tier, order, fixable)])
    case StoreClassification(i) =>
      var p := PhaseOf(s, i);
      p.Classified?
      && t == s.(rows := WithClassification(s.rows, p.id, p.tier, p.order),
                 workers := s.workers[i := if p.fixable then Proposing(p.id, p.tier) else Failing(p.id)])
    case Propose(i, found) =>
      var p := PhaseOf(s, i);
      && p.Proposing? && (found.Some? ==> Scored(p.tier, found.value))
      && t == s.(workers := s.workers[i :=
                   if found.Some? then Storing(p.id, p.tier, found.value) else Failing(p.id)])
    case StoreProposal(i) =>
      var p := PhaseOf(s, i);
      p.Storing?
      && t == s.(rows := WithProposal(s.rows, p.id, p.p),
                 workers := s.workers[i := Deciding(p.id, p.tier, p.p)])
    case Decide(i) =>
      var p := PhaseOf(s, i);
      p.Deciding?
      && t == s.(workers := s.workers[i :=
                   if p.tier == 1 && p.p.confidence >= threshold
                   then Applying(p.id, Some(p.p)) else Holding(p.id)])
    case Apply(i, ok) =>
      var p := PhaseOf(s, i);
      p.Applying?
      && t == s.(writes := s.writes + WritesOf(p, ok), workers := s.workers[i := AfterApply(p, ok)])
    case Finish(i, now) =>
      var p := PhaseOf(s, i);
      Closing(p)
      && t == s.(rows := WithStatus(s.rows, p.id, Outcome(p), now), workers := s.workers[i := Idle])
    case Abandon(i) =>
      && i < |s.workers| && (s.workers[i] != Idle || (i == 0 && s.drain == Draining))
      && t == s.(workers := s.workers[i := Idle], drain := if i == 0 then Waiting(false) else s.drain)
    case ReadToApprove(id) =>
      && s.control.Free? && id in s.rows && s.rows[id].status == Proposed
      && t == s.(control := Approving(id, s.rows[id].proposal))
    case ReadToReject(id) =>
      && s.control.Free? && id in s.rows && s.rows[id].status == Proposed
      && t == s.(control := Rejecting(id))
    case Approve(now) =>
      s.control.Approving?
      && t == s.(rows := WithStatus(s.rows, s.control.id, Approved, now),
                 approvals := s.approvals + {s.control.id},
                 control := Carrying(Applying(s.control.id, s.control.found)))
    case Reject(now) =>
      s.control.Rejecting?
      && t == s.(rows := WithStatus(s.rows, s.control.id, Rejected, now), control := Free)
    case ApplyApproved(ok) =>
      s.control.Carrying? && s.control.phase.Applying?
      && t == s.(writes := s.writes + WritesOf(s.control.phase, ok),
                 control := Carrying(AfterApply(s.control.phase, ok)))
    case FinishApproved(now) =>
      s.control.Carrying? && Closing(s.control.phase)
      && t == s.(rows := WithStatus(s.rows, s.control.phase.id, Outcome(s.control.phase), now),
                 control := Free)
    case AbandonControl =>
      !s.control.Free? && t == s.(control := Free)
  }

  // ----- The invariant -----

  ghost function WrittenIds(s: State): set<TicketId> {
    set w <- s.writes :: w.id
  }

  /** An auto-applied proposal is certain, unless the threshold lets the lowest score through. */
  ghost predicate MayAutoApply(threshold: real, p: Proposal) {
    p.model ==> threshold <= 0.5
  }

  ghost predicate WorkerOk(threshold: real, s: State, p: Phase) {
    p == Idle ||
    (&& p.id in s.rows && s.rows[p.id].status == Analyzing
     && (p.Written? <==> p.id in WrittenIds(s))
     && (p.Storing? || p.Deciding? ==> Scored(p.tier, p.p))
     && (p.Applying? ==> p.found.Some? && MayAutoApply(threshold, p.found.value)))
  }

  ghost predicate ControlOk(s: State) {
    match s.control
    case Free => true
    case Approving(id, _) => id in s.rows && s.rows[id].status == Proposed
    case Rejecting(id) => id in s.rows && s.rows[id].status == Proposed
    case Carrying(p) =>
      && (p.Applying? || p.Written? || p.Failing?)
      && p.id in s.rows && s.rows[p.id].status == Approved && p.id in s.approvals
      && (p.Written? <==> p.id in WrittenIds(s))
  }

  /** `resolved_at` tells the terminal statuses, and only three statuses admit a write. */
  ghost predicate RowOk(s: State, id: TicketId)
    requires id in s.rows
  {
    && (s.rows[id].resolvedAt.Some? <==> s.rows[id].status.Terminal())
    && (id in WrittenIds(s) ==> s.rows[id].status in {Analyzing, Approved, Applied})
  }

  ghost predicate WriteOk(threshold: real, s: State, w: Write) {
    w.id in s.rows && (w.id in s.approvals || MayAutoApply(threshold, w.proposal))
  }

  ghost predicate OneWritePerTicket(writes: seq<Write>) {
    forall i, j :: 0 <= i < j < |writes| ==> writes[i].id != writes[j].id
  }

  ghost predicate SeparateTickets(workers: seq<Phase>) {
    forall i, j :: 0 <= i < j < |workers| && workers[i] != Idle && workers[j] != Idle
      ==> workers[i].id != workers[j].id
  }

  /** Blocked on a clear signal after a normal drain means no completed ingest is still queued. */
  ghost predicate WakeupOk(s: State) {
    && s.pending <= s.rows.Keys && s.ingested <= s.rows.Keys
    && (s.drain == Waiting(true) && !s.signal ==> forall id <- s.ingested :: !InQueue(s.rows, id))
  }

  ghost predicate Inv(threshold: real, s: State) {
    && (forall p <- s.workers :: WorkerOk(threshold, s, p))
    && SeparateTickets(s.workers) && ControlOk(s)
    && (forall id <- s.rows :: RowOk(s, id))
    && (forall w <- s.writes :: WriteOk(threshold, s, w)) && OneWritePerTicket(s.writes)
    && WakeupOk(s)
  }

  ghost predicate Starting(s: State) {
    && (forall id <- s.rows :: s.rows[id].resolvedAt.Some? <==> s.rows[id].status.Terminal())
    && (forall p <- s.workers :: p == Idle) && s.control == Free && s.approvals == {}
    && s.writes == [] && !s.signal && s.drain == Waiting(true)
    && s.pending == {} && s.ingested == {}
  }

  lemma StartingInv(threshold: real, s: State)
    requires Starting(s)
    ensures Inv(threshold, s)
  {
    assert forall i :: 0 <= i < |s.workers| ==> s.workers[i] in s.workers;
    assert WrittenIds(s) == {};
  }

  /** The worker is in the middle of ticket `id`. */
  ghost predicate Owns(s: State, i: nat, id: TicketId) {
    i < |s.workers| && s.workers[i] != Idle && s.workers[i].id == id && id in s.rows
  }

  /** `t` differs from `s` in ticket `id`, worker `i` and perhaps one new write only. */
  ghost predicate Own(s: State, t: State, i: nat, id: TicketId, more: seq<Write>) {
    && Owns(s, i, id)
    && |t.workers| == |s.workers| && t.workers == s.workers[i := t.workers[i]]
    && (t.workers[i] == Idle || t.workers[i].id == id)
    && t.rows.Keys == s.rows.Keys && (forall o <- s.rows :: o != id ==> t.rows[o] == s.rows[o])
    && t.rows[id].status != Queued
    && t == s.(rows := t.rows, workers := t.workers, writes := s.writes + more)
    && (more == [] || (|more| == 1 && more[0].id == id && id !in WrittenIds(s)))
  }

  lemma WrittenMore(s: State, t: State, more: seq<Write>)
    requires t.writes == s.writes + more
    ensures WrittenIds(t) == WrittenIds(s) + set w <- more :: w.id
  {
    forall w | w in s.writes || w in more ensures w in t.writes { }
    assert forall w <- t.writes :: w in s.writes || w in more;
  }

  lemma OneMoreWrite(s: State, t: State, id: TicketId, more: seq<Write>)
    requires t.writes == s.writes + more && OneWritePerTicket(s.writes)
    requires more == [] || (|more| == 1 && more[0].id == id && id !in WrittenIds(s))
    ensures OneWritePerTicket(t.writes)
  {
    assert forall i :: 0 <= i < |s.writes| ==> s.writes[i] in s.writes;
  }

  /** A worker's step touches its own ticket only: the rest of the invariant carries over. */
  lemma OwnStep(threshold: real, s: State, t: State, i: nat, id: TicketId, more: seq<Write>)
    requires Inv(threshold, s) && Own(s, t, i, id, more)
    requires forall w <- more :: WriteOk(threshold, t, w)
    requires WorkerOk(threshold, t, t.workers[i]) && RowOk(t, id)
    ensures Inv(threshold, t)
  {
    assert s.workers[i] in s.workers;
    WrittenMore(s, t, more);
    OneMoreWrite(s, t, id, more);
    forall p | p in t.workers ensures WorkerOk(threshold, t, p) {
      var j :| 0 <= j < |t.workers| && t.workers[j] == p;
      if j != i {
        assert s.workers[j] in s.workers && WorkerOk(threshold, s, p);
        assert p != Idle ==> p.id != id;
      }
    }
    forall o | o in t.rows ensures RowOk(t, o) {
      if o != id { assert RowOk(s, o); }
    }
    forall w | w in t.writes ensures WriteOk(threshold, t, w) {
      assert w in s.writes || w in more;
    }
  }

  lemma WorkerKeeps(threshold: real, s: State, m: Move, t: State, i: nat)
    requires Inv(threshold, s) && Step(threshold, s, m, t) && i < |s.workers|
    requires (m.Classify? || m.StoreClassification? || m.Propose? || m.StoreProposal? || m.Decide?
              || m.Apply? || m.Finish?) && m.i == i
    ensures Inv(threshold, t)
  {
    var p := s.workers[i];
    assert p in s.workers && WorkerOk(threshold, s, p) && RowOk(s, p.id);
    var more := if m.Apply? then WritesOf(p, m.ok) else [];
    WrittenMore(s, t, more);
    OwnStep(threshold, s, t, i, p.id, more);
  }

  lemma ClaimKeeps(threshold: real, s: State, m: Move, t: State)
    requires Inv(threshold, s) && Step(threshold, s, m, t) && m.Claim?
    ensures Inv(threshold, t)
  {
    assert RowOk(s, m.id);
    assert WrittenIds(t) == WrittenIds(s);
    forall p | p in t.workers ensures WorkerOk(threshold, t, p) {
      var j :| 0 <= j < |t.workers| && t.workers[j] == p;
      if j != m.i { assert s.workers[j] in s.workers && WorkerOk(threshold, s, p); }
    }
    assert SeparateTickets(t.workers) by {
      forall j | 0 <= j < |s.workers| && s.workers[j] != Idle ensures s.workers[j].id != m.id {
        assert s.workers[j] in s.workers;
      }
    }
    assert forall o <- t.rows :: o != m.id ==> RowOk(s, o);
    assert forall w <- t.writes :: WriteOk(threshold, s, w);
  }

  lemma AbandonKeeps(threshold: real, s: State, m: Move, t: State)
    requires Inv(threshold, s) && Step(threshold, s, m, t) && m.Abandon?
    ensures Inv(threshold, t)
  {
    assert WrittenIds(t) == WrittenIds(s);
    forall p | p in t.workers ensures WorkerOk(threshold, t, p) {
      var j :| 0 <= j < |t.workers| && t.workers[j] == p;
      if j != m.i { assert s.workers[j] in s.workers && WorkerOk(threshold, s, p); }
    }
    assert forall o <- t.rows :: RowOk(s, o);
    assert forall w <- t.writes :: WriteOk(threshold, s, w);
  }

  /** Steps that only add a queued ticket or move the wakeup machinery. */
  lemma QueueKeeps(threshold: real, s: State, m: Move, t: State)
    requires Inv(threshold, s) && Step(threshold, s, m, t)
    requires m.Enqueue? || m.Ingest? || m.Signal? || m.Wake? || m.NoTicket?
    ensures Inv(threshold, t)
  {
    assert WrittenIds(t) == WrittenIds(s);
    forall p | p in t.workers ensures WorkerOk(threshold, t, p) { assert WorkerOk(threshold, s, p); }
    forall o | o in t.rows ensures RowOk(t, o) {
      if o in s.rows { assert RowOk(s, o); } else { NotWritten(threshold, s, o); }
    }
    forall w | w in t.writes ensures WriteOk(threshold, t, w) { assert WriteOk(threshold, s, w); }
  }

  lemma NotWritten(threshold: real, s: State, id: TicketId)
    requires Inv(threshold, s) && id !in s.rows
    ensures id !in WrittenIds(s)
  {
    forall w | w in s.writes ensures w.id != id { assert WriteOk(threshold, s, w); }
  }

  /** The ticket the handlers are working on, if any. */
  function Handled(c: Control): Option<TicketId> {
    match c
    case Free => None
    case Approving(id, _) => Some(id)
    case Rejecting(id) => Some(id)
    case Carrying(p) => if p == Idle then None else Some(p.id)
  }

  ghost predicate Handles(s: State, t: State, id: TicketId, more: seq<Write>) {
    && Handled(s.control) == Some(id) && id in s.rows
    && t.rows.Keys == s.rows.Keys && (forall o <- s.rows :: o != id ==> t.rows[o] == s.rows[o])
    && t.rows[id].status !in {Queued, Analyzing}
    && t == s.(rows := t.rows, control := t.control, approvals := t.approvals, writes := s.writes + more)
    && s.approvals <= t.approvals
    && (more == [] || (|more| == 1 && more[0].id == id && id !in WrittenIds(s)))
  }

  /** A handler's step touches its own ticket only, which no worker is holding. */
  lemma HandlerStep(threshold: real, s: State, t: State, id: TicketId, more: seq<Write>)
    requires Inv(threshold, s) && Handles(s, t, id, more) && s.rows[id].status != Analyzing
    requires forall w <- more :: WriteOk(threshold, t, w)
    requires ControlOk(t) && RowOk(t, id)
    ensures Inv(threshold, t)
  {
    WrittenMore(s, t, more);
    OneMoreWrite(s, t, id, more);
    forall p | p in t.workers ensures WorkerOk(threshold, t, p) {
      assert WorkerOk(threshold, s, p);
      assert p != Idle ==> p.id != id;
    }
    forall o | o in t.rows ensures RowOk(t, o) {
      if o != id { assert RowOk(s, o); }
    }
    forall w | w in t.writes ensures WriteOk(threshold, t, w) {
      assert w in s.writes || w in more;
      if w in s.writes { assert WriteOk(threshold, s, w); }
    }
  }

  lemma ControlKeeps(threshold: real, s: State, m: Move, t: State)
    requires Inv(threshold, s) && Step(threshold, s, m, t)
    requires m.Approve? || m.Reject? || m.ApplyApproved? || m.FinishApproved?
    ensures Inv(threshold, t)
  {
    var id := Handled(s.control).value;
    assert RowOk(s, id);
    var more := if m.ApplyApproved? then WritesOf(s.control.phase, m.ok) else [];
    WrittenMore(s, t, more);
    HandlerStep(threshold, s, t, id, more);
  }

  lemma ReadKeeps(threshold: real, s: State, m: Move, t: State)
    requires Inv(threshold, s) && Step(threshold, s, m, t)
    requires m.ReadToApprove? || m.ReadToReject? || m.AbandonControl?
    ensures Inv(threshold, t)
  {
    assert WrittenIds(t) == WrittenIds(s);
    forall p | p in t.workers ensures WorkerOk(threshold, t, p) { assert WorkerOk(threshold, s, p); }
    forall o | o in t.rows ensures RowOk(t, o) { assert RowOk(s, o); }
    forall w | w in t.writes ensures WriteOk(threshold, t, w) { assert WriteOk(threshold, s, w); }
  }

  lemma StepKeepsInv(threshold: real, s: State, m: Move, t: State)
    requires Inv(threshold, s) && Step(threshold, s, m, t)
    ensures Inv(threshold, t)
  {
    if m.Claim? {
      ClaimKeeps(threshold, s, m, t);
    } else if m.Abandon? {
      AbandonKeeps(threshold, s, m, t);
    } else if m.Enqueue? || m.Ingest? || m.Signal? || m.Wake? || m.NoTicket? {
      QueueKeeps(threshold, s, m, t);
    } else if m.Approve? || m.Reject? || m.ApplyApproved? || m.FinishApproved? {
      ControlKeeps(threshold, s, m, t);
    } else if m.ReadToApprove? || m.ReadToReject? || m.AbandonControl? {
      ReadKeeps(threshold, s, m, t);
    } else {
      WorkerKeeps(threshold, s, m, t, m.i);
    }
  }

  // ----- What the invariant says about single steps -----

  predicate Allowed(a: Status, b: Status) {
    match a
    case Queued => b == Analyzing
    case Analyzing => b == Failed || b == Proposed || b == Applied
    case Proposed => b == Approved || b == Rejected
    case Approved => b == Applied || b == Failed
    case _ => false
  }

  /** A ticket's status moves along the allowed edges only; a resolved ticket's row is frozen;
  and `applied` is only ever reported for a contract that has been written. */
  lemma StatusMoves(threshold: real, s: State, m: Move, t: State, id: TicketId)
    requires Inv(threshold, s) && Step(threshold, s, m, t) && id in s.rows
    ensures id in t.rows
    ensures t.rows[id].status == s.rows[id].status || Allowed(s.rows[id].status, t.rows[id].status)
    ensures s.rows[id].status.Terminal() ==> t.rows[id] == s.rows[id]
    ensures t.rows[id].status == Applied && s.rows[id].status != Applied ==> id in WrittenIds(s)
  {
    if m.StoreClassification? || m.StoreProposal? || m.Finish? {
      assert s.workers[m.i] in s.workers;
    }
  }

  /** Until it is claimed a ticket keeps its place in the queue. */
  lemma QueuePlaceKept(threshold: real, s: State, m: Move, t: State, id: TicketId)
    requires Inv(threshold, s) && Step(threshold, s, m, t) && id in s.rows && id in t.rows
    requires InQueue(t.rows, id)
    ensures t.rows[id] == s.rows[id]
  {
    if m.StoreClassification? || m.StoreProposal? || m.Finish? {
      assert s.workers[m.i] in s.workers;
    }
  }

  // ----- Runs -----

  ghost predicate IsRun(threshold: real, trace: seq<State>, moves: seq<Move>) {
    && |trace| == |moves| + 1 && Starting(trace[0])
    && forall k :: 0 <= k < |moves| ==> Step(threshold, trace[k], moves[k], trace[k + 1])
  }

  lemma {:induction false} RunKeepsInv(threshold: real, trace: seq<State>, moves: seq<Move>, k: nat)
    requires IsRun(threshold, trace, moves) && k < |trace|
    ensures Inv(threshold, trace[k])
  {
    if k == 0 {
      StartingInv(threshold, trace[0]);
    } else {
      RunKeepsInv(threshold, trace, moves, k - 1);
      StepKeepsInv(threshold, trace[k - 1], moves[k - 1], trace[k]);
    }
  }

  /** Where a status can get to. */
  predicate Reaches(a: Status, b: Status) {
    a == b || Allowed(a, b)
    || (a == Queued && b != Queued) || (a == Analyzing && b != Queued)
    || (a == Proposed && (b == Applied || b == Failed))
  }

  /** What holds between a ticket's row now and at any later moment. */
  ghost predicate Later(now: Ticket, later: Ticket) {
    && Reaches(now.status, later.status)
    && (now.status.Terminal() || later.status == Queued ==> later == now)
  }

  lemma LaterStep(threshold: real, first: Ticket, s: State, m: Move, t: State, id: TicketId)
    requires Inv(threshold, s) && Step(threshold, s, m, t)
    requires id in s.rows && Later(first, s.rows[id])
    ensures id in t.rows && Later(first, t.rows[id])
  {
    StatusMoves(threshold, s, m, t, id);
    if InQueue(t.rows, id) {
      QueuePlaceKept(threshold, s, m, t, id);
    }
  }

  lemma RunStep(threshold: real, trace: seq<State>, moves: seq<Move>, k: nat, first: Ticket, id: TicketId)
    requires IsRun(threshold, trace, moves) && k < |moves|
    requires id in trace[k].rows && Later(first, trace[k].rows[id])
    ensures id in trace[k + 1].rows && Later(first, trace[k + 1].rows[id])
  {
    RunKeepsInv(threshold, trace, moves, k);
    LaterStep(threshold, first, trace[k], moves[k], trace[k + 1], id);
  }

  lemma {:induction false} NeverRequeued(threshold: real, trace: seq<State>, moves: seq<Move>, j: nat, k: nat, id: TicketId)
    requires IsRun(threshold, trace, moves) && j <= k < |trace| && id in trace[j].rows
    ensures id in trace[k].rows && Later(trace[j].rows[id], trace[k].rows[id])
    decreases k
  {
    if j < k {
      NeverRequeued(threshold, trace, moves, j, k - 1, id);
      RunStep(threshold, trace, moves, k - 1, trace[j].rows[id], id);
    }
  }

  /** At every moment of every run: `resolved_at` is set exactly on resolved tickets, no ticket
  has written its contract twice, and no failed or rejected ticket has written it at all. */
  lemma TicketsAreSafe(threshold: real, trace: seq<State>, moves: seq<Move>, k: nat)
    requires IsRun(threshold, trace, moves) && k < |trace|
    ensures var s := trace[k];
      && (forall id <- s.rows :: s.rows[id].resolvedAt.Some? <==> s.rows[id].status.Terminal())
      && OneWritePerTicket(s.writes)
      && (forall w <- s.writes :: w.id in s.rows && s.rows[w.id].status in {Analyzing, Approved, Applied})
  {
    RunKeepsInv(threshold, trace, moves, k);
    var s := trace[k];
    forall id | id in s.rows ensures s.rows[id].resolvedAt.Some? <==> s.rows[id].status.Terminal() {
      assert RowOk(s, id);
    }
    forall w | w in s.writes ensures w.id in s.rows && s.rows[w.id].status in {Analyzing, Approved, Applied} {
      assert WriteOk(threshold, s, w);
      assert w.id in WrittenIds(s);
      assert RowOk(s, w.id);
    }
  }

  /** Two workers never claim the same ticket, whatever happens in between. */
  lemma ClaimedOnce(threshold: real, trace: seq<State>, moves: seq<Move>, j: nat, k: nat)
    requires IsRun(threshold, trace, moves) && j < k < |moves|
    requires moves[j].Claim? && moves[k].Claim?
    ensures moves[j].id != moves[k].id
  {
    assert Step(threshold, trace[j], moves[j], trace[j + 1]);
    assert Step(threshold, trace[k], moves[k], trace[k + 1]);
    if moves[j].id == moves[k].id {
      NeverRequeued(threshold, trace, moves, j + 1, k, moves[j].id);
    }
  }

  lemma NoArrival(threshold: real, s: State, m: Move, t: State)
    requires Step(threshold, s, m, t) && !m.Enqueue? && !m.Ingest?
    ensures s.rows.Keys == t.rows.Keys
  {
  }

  lemma {:induction false} NoArrivals(threshold: real, trace: seq<State>, moves: seq<Move>, j: nat, k: nat)
    requires IsRun(threshold, trace, moves) && j <= k < |trace|
    requires forall i :: j <= i < k ==> !moves[i].Enqueue? && !moves[i].Ingest?
    ensures trace[j].rows.Keys == trace[k].rows.Keys
    decreases k
  {
    hide Step;
    if j < k {
      NoArrivals(threshold, trace, moves, j, k - 1);
      NoArrival(threshold, trace[k - 1], moves[k - 1], trace[k]);
    }
  }

  /** Without new arrivals, claims come out in (priority, age) order, across all workers. */
  lemma DrainIsSorted(threshold: real, trace: seq<State>, moves: seq<Move>, j: nat, k: nat)
    requires IsRun(threshold, trace, moves) && j < k < |moves|
    requires moves[j].Claim? && moves[k].Claim?
    requires forall i :: j <= i < k ==> !moves[i].Enqueue? && !moves[i].Ingest?
    ensures moves[j].id in trace[j].rows && moves[k].id in trace[k].rows
    ensures var a, b := trace[j].rows[moves[j].id], trace[k].rows[moves[k].id];
      a.priorityOrder < b.priorityOrder || (a.priorityOrder == b.priorityOrder && a.createdAt <= b.createdAt)
  {
    assert Step(threshold, trace[j], moves[j], trace[j + 1]);
    assert Step(threshold, trace[k], moves[k], trace[k + 1]);
    NoArrivals(threshold, trace, moves, j, k);
    NeverRequeued(threshold, trace, moves, j, k, moves[k].id);
    assert InQueue(trace[j].rows, moves[k].id);
  }

  /** The drain worker is never blocked on a clear signal after a normal drain while a ticket of
  a completed ingest is still queued. */
  lemma NoLostWakeup(threshold: real, trace: seq<State>, moves: seq<Move>, k: nat, id: TicketId)
    requires IsRun(threshold, trace, moves) && k < |trace|
    requires id in trace[k].ingested && InQueue(trace[k].rows, id)
    ensures trace[k].signal || trace[k].drain != Waiting(true)
  {
    RunKeepsInv(threshold, trace, moves, k);
  }

  lemma Extend(threshold: real, trace: seq<State>, moves: seq<Move>, m: Move, t: State)
    requires IsRun(threshold, trace, moves) && Step(threshold, trace[|moves|], m, t)
    ensures IsRun(threshold, trace + [t], moves + [m])
  {
    var trace', moves' := trace + [t], moves + [m];
    forall k | 0 <= k < |moves'| ensures Step(threshold, trace'[k], moves'[k], trace'[k + 1]) {
      if k < |moves| { assert Step(threshold, trace[k], moves[k], trace[k + 1]); }
    }
  }

  /** After an abnormal drain only the poll timeout wakes the worker: a ticket of a completed
  ingest can be queued while the signal is clear. */
  lemma AbnormalDrainWaits(threshold: real) returns (trace: seq<State>, moves: seq<Move>)
    ensures IsRun(threshold, trace, moves)
    ensures var s := trace[|moves|];
      s.drain == Waiting(false) && !s.signal && exists id :: id in s.ingested && InQueue(s.rows, id)
  {
    var s := State(map[], [Idle], Free, {}, [], false, Waiting(true), {}, {});
    trace, moves := [s], [];
    var t := s.(rows := map[0 := Fresh(2, 0)], pending := {0});
    Extend(threshold, trace, moves, Ingest(0, 2, 0), t);
    trace, moves, s := trace + [t], moves + [Ingest(0, 2, 0)], t;
    t := s.(signal := true, pending := s.pending - {0}, ingested := s.ingested + {0});
    Extend(threshold, trace, moves, Signal(0), t);
    trace, moves, s := trace + [t], moves + [Signal(0)], t;
    t := s.(drain := Draining, signal := false);
    Extend(threshold, trace, moves, Wake, t);
    trace, moves, s := trace + [t], moves + [Wake], t;
    t := s.(workers := s.workers[0 := Idle], drain := Waiting(false));
    Extend(threshold, trace, moves, Abandon(0), t);
    trace, moves := trace + [t], moves + [Abandon(0)];
    assert 0 in t.ingested && InQueue(t.rows, 0);
  }

  // ----- Who may write -----

  ghost predicate Unapproved(s: State) {
    exists w :: w in s.writes && w.proposal.model && w.id !in s.approvals
  }

  lemma HighThresholdIsSafe(threshold: real, trace: seq<State>, moves: seq<Move>, k: nat)
    requires threshold > 0.5 && IsRun(threshold, trace, moves) && k < |trace|
    ensures !Unapproved(trace[k])
  {
    RunKeepsInv(threshold, trace, moves, k);
    forall w | w in trace[k].writes && w.proposal.model ensures w.id in trace[k].approvals {
      assert WriteOk(threshold, trace[k], w);
    }
  }

  /** A lone drain worker takes a fresh ticket as far as a stored tier-1 classification. */
  lemma ClassifiedRun(threshold: real, id: TicketId) returns (trace: seq<State>, moves: seq<Move>)
    ensures IsRun(threshold, trace, moves)
    ensures var s := trace[|moves|];
      s.workers == [Proposing(id, 1)] && s.writes == [] && s.approvals == {} && id in s.rows
  {
    var s := State(map[], [Idle], Free, {}, [], false, Waiting(true), {}, {});
    trace, moves := [s], [];
    var t := s.(rows := map[id := Fresh(2, 0)]);
    Extend(threshold, trace, moves, Enqueue(id, 2, 0), t);
    trace, moves, s := trace + [t], moves + [Enqueue(id, 2, 0)], t;
    t := s.(drain := Draining);
    Extend(threshold, trace, moves, Wake, t);
    trace, moves, s := trace + [t], moves + [Wake], t;
    t := s.(rows := Claimed(s.rows, id), workers := s.workers[0 := Classifying(id)]);
    Extend(threshold, trace, moves, Claim(0, id), t);
    trace, moves, s := trace + [t], moves + [Claim(0, id)], t;
    t := s.(workers := s.workers[0 := Classified(id, 1, 2, true)]);
    Extend(threshold, trace, moves, Classify(0, 1, 2, true), t);
    trace, moves, s := trace + [t], moves + [Classify(0, 1, 2, true)], t;
    t := s.(rows := WithClassification(s.rows, id, 1, 2), workers := s.workers[0 := Proposing(id, 1)]);
    Extend(threshold, trace, moves, StoreClassification(0), t);
    trace, moves := trace + [t], moves + [StoreClassification(0)];
  }

  /** With a threshold of one half or less, one tier-1 ticket suffices. */
  lemma LowThresholdRun(threshold: real) returns (trace: seq<State>, moves: seq<Move>)
    requires threshold <= 0.5
    ensures IsRun(threshold, trace, moves) && Unapproved(trace[|moves|])
  {
    var id, p := 0, Proposal(true, 0.5);
    trace, moves := ClassifiedRun(threshold, id);
    var s := trace[|moves|];
    var t := s.(workers := s.workers[0 := Storing(id, 1, p)]);
    Extend(threshold, trace, moves, Propose(0, Some(p)), t);
    trace, moves, s := trace + [t], moves + [Propose(0, Some(p))], t;
    t := s.(rows := WithProposal(s.rows, id, p), workers := s.workers[0 := Deciding(id, 1, p)]);
    Extend(threshold, trace, moves, StoreProposal(0), t);
    trace, moves, s := trace + [t], moves + [StoreProposal(0)], t;
    t := s.(workers := s.workers[0 := Applying(id, Some(p))]);
    Extend(threshold, trace, moves, Decide(0), t);
    trace, moves, s := trace + [t], moves + [Decide(0)], t;
    t := s.(writes := s.writes + [Write(id, p)], workers := s.workers[0 := Written(id)]);
    Extend(threshold, trace, moves, Apply(0, true), t);
    trace, moves := trace + [t], moves + [Apply(0, true)];
    assert Write(id, p) in t.writes;
  }

  /** A model-authored proposal can reach a contract without a human exactly when the
  auto-apply threshold is one half or less. */
  lemma HumanInTheLoop(threshold: real)
    ensures threshold > 0.5 <==>
      forall trace, moves :: IsRun(threshold, trace, moves) ==> !Unapproved(trace[|moves|])
  {
    if threshold > 0.5 {
      forall trace, moves | IsRun(threshold, trace, moves) ensures !Unapproved(trace[|moves|]) {
        HighThresholdIsSafe(threshold, trace, moves, |moves|);
      }
    } else {
      var trace, moves := LowThresholdRun(threshold);
    }
  }
}
