/** `healer/pipeline.py` as its methods run when nothing interferes, over the ticket table they
update; and the proof that each such run is a run of the protocol, so that everything proved
about all interleavings holds of this code.

What the classifier, the proposers and the file system answer is an input. */
module HealerPipelines {
  import opened Collections
  import opened HealerQueues
  import opened HealerProtocol

  datatype Answers = Answers(
    tier: nat, order: nat, fixable: bool, proposal: Option<Proposal>, applies: bool, now: int)

  /** The rows after, and the contract writes of, one ticket's processing. */
  datatype Effect = Effect(rows: Rows, writes: seq<Write>)

  /** `_apply_and_notify` */
  function ApplyEffect(rows: Rows, id: TicketId, found: Option<Proposal>, applies: bool, now: int): Effect {
    if found.Some? && applies then Effect(WithStatus(rows, id, Applied, now), [Write(id, found.value)])
    else Effect(WithStatus(rows, id, Failed, now), [])
  }

  /** `_process_ticket` on a ticket just claimed. */
  function Processed(rows: Rows, id: TicketId, threshold: real, a: Answers): Effect {
    var stored := WithClassification(rows, id, a.tier, a.order);
    if !a.fixable || a.proposal.None? then Effect(WithStatus(stored, id, Failed, a.now), [])
    else
      var proposed := WithProposal(stored, id, a.proposal.value);
      if a.tier == 1 && a.proposal.value.confidence >= threshold then
        ApplyEffect(proposed, id, a.proposal, a.applies, a.now)
      else Effect(WithStatus(proposed, id, Proposed, a.now), [])
  }

  class HealerPipeline {
    const queue: HealerQueue
    const threshold: real
    var writes: seq<Write>

    constructor (queue: HealerQueue, threshold: real)
      ensures this.queue == queue && this.threshold == threshold && writes == []
    {
      this.queue, this.threshold, writes := queue, threshold, [];
    }

    method ProcessNext(a: Answers) returns (id: Option<TicketId>)
      modifies this`writes, queue`rows
      ensures id.None? ==> queue.rows == old(queue.rows) && writes == old(writes)
      ensures id.None? ==> forall o :: !InQueue(queue.rows, o)
      ensures id.Some? ==> Next(old(queue.rows), id.value)
      ensures id.Some? ==>
        var e := Processed(Claimed(old(queue.rows), id.value), id.value, threshold, a);
        queue.rows == e.rows && writes == old(writes) + e.writes
    {
      id := queue.ClaimNext();
      if id.None? { return; }
      ProcessTicket(id.value, a);
    }

    /** A ticket fails that is not fixable, for which nothing is proposed, or whose automatic fix
    does not apply; the contract is written exactly when it becomes applied; every other proposal
    waits for approval, and none is thrown away. */
    method ProcessTicket(id: TicketId, a: Answers)
      modifies this`writes, queue`rows
      ensures OnlyRow(old(queue.rows), queue.rows, id)
      ensures id in queue.rows ==> var t := queue.rows[id];
        var automatic := a.tier == 1 && a.proposal.Some? && a.proposal.value.confidence >= threshold;
        && (t.status == Failed <==> !a.fixable || a.proposal.None? || (automatic && !a.applies))
        && (t.status == Applied <==> a.fixable && automatic && a.applies)
        && (t.status == Proposed <==> a.fixable && a.proposal.Some? && !automatic)
      ensures id in queue.rows ==> var was, t := old(queue.rows)[id], queue.rows[id];
        && t.proposal == (if a.fixable && a.proposal.Some? then a.proposal else was.proposal)
        && t.resolvedAt == (if t.status == Proposed then was.resolvedAt else Some(a.now))
        && t.tier == a.tier && t.priorityOrder == a.order && t.createdAt == was.createdAt
      ensures id in queue.rows ==>
        writes == old(writes) + if queue.rows[id].status == Applied then [Write(id, a.proposal.value)] else []
      ensures var e := Processed(old(queue.rows), id, threshold, a);
        queue.rows == e.rows && writes == old(writes) + e.writes
    {
      queue.SetClassification(id, a.tier, a.order);
      if !a.fixable {
        queue.UpdateStatus(id, Failed, a.now);
        return;
      }
      if a.proposal.None? {
        queue.UpdateStatus(id, Failed, a.now);
        return;
      }
      queue.SetProposal(id, a.proposal.value);
      if a.tier == 1 && a.proposal.value.confidence >= threshold {
        ApplyAndNotify(id, a.proposal, a.applies, a.now);
      } else {
        queue.UpdateStatus(id, Proposed, a.now);
      }
    }

    method ApplyAndNotify(id: TicketId, found: Option<Proposal>, applies: bool, now: int)
      modifies this`writes, queue`rows
      ensures var e := ApplyEffect(old(queue.rows), id, found, applies, now);
        queue.rows == e.rows && writes == old(writes) + e.writes
    {
      if found.None? {
        queue.UpdateStatus(id, Failed, now);
        return;
      }
      if applies {
        writes := writes + [Write(id, found.value)];
        queue.UpdateStatus(id, Applied, now);
      } else {
        queue.UpdateStatus(id, Failed, now);
      }
    }

    /** True exactly for a ticket that was awaiting approval; any other is left alone. */
    method ApproveTicket(id: TicketId, applies: bool, now: int) returns (ok: bool)
      modifies this`writes, queue`rows
      ensures ok <==> id in old(queue.rows) && old(queue.rows)[id].status == Proposed
      ensures !ok ==> queue.rows == old(queue.rows) && writes == old(writes)
      ensures ok ==>
        var e := ApplyEffect(WithStatus(old(queue.rows), id, Approved, now), id, old(queue.rows)[id].proposal, applies, now);
        queue.rows == e.rows && writes == old(writes) + e.writes
      ensures ok ==> var was := old(queue.rows)[id]; var done := was.proposal.Some? && applies;
        && queue.rows == old(queue.rows)[id := was.(status := if done then Applied else Failed, resolvedAt := Some(now))]
        && writes == old(writes) + if done then [Write(id, was.proposal.value)] else []
    {
      ok := id in queue.rows && queue.rows[id].status == Proposed;
      if !ok { return; }
      var found := queue.rows[id].proposal;
      queue.UpdateStatus(id, Approved, now);
      ApplyAndNotify(id, found, applies, now);
    }

    method RejectTicket(id: TicketId, now: int) returns (ok: bool)
      modifies queue`rows
      ensures ok <==> id in old(queue.rows) && old(queue.rows)[id].status == Proposed
      ensures ok ==>
        queue.rows == old(queue.rows)[id := old(queue.rows)[id].(status := Rejected, resolvedAt := Some(now))]
      ensures !ok ==> queue.rows == old(queue.rows)
    {
      ok := id in queue.rows && queue.rows[id].status == Proposed;
      if ok { queue.UpdateStatus(id, Rejected, now); }
    }
  }

  // ----- Refinement -----

  /** A stretch of protocol steps. */
  ghost predicate Path(threshold: real, trace: seq<State>, moves: seq<Move>) {
    && |trace| == |moves| + 1
    && forall k :: 0 <= k < |moves| ==> Step(threshold, trace[k], moves[k], trace[k + 1])
  }

  lemma OneMove(threshold: real, trace: seq<State>, moves: seq<Move>, m: Move, t: State)
    returns (longer: seq<State>, more: seq<Move>)
    requires Path(threshold, trace, moves) && Step(threshold, trace[|moves|], m, t)
    ensures longer == trace + [t] && more == moves + [m]
    ensures Path(threshold, longer, more) && longer[0] == trace[0] && longer[|more|] == t
  {
    hide Step;
    longer, more := trace + [t], moves + [m];
    forall k | 0 <= k < |more| ensures Step(threshold, longer[k], more[k], longer[k + 1]) {
      if k < |moves| { assert longer[k] == trace[k] && longer[k + 1] == trace[k + 1] && more[k] == moves[k]; }
    }
  }

  /** From a worker that has classified its ticket to the stored outcome of a failure. */
  lemma FinishPath(threshold: real, trace: seq<State>, moves: seq<Move>, i: nat, now: int)
    returns (longer: seq<State>, more: seq<Move>)
    requires Path(threshold, trace, moves) && i < |trace[|moves|].workers| && Closing(trace[|moves|].workers[i])
    ensures Path(threshold, longer, more) && longer[0] == trace[0]
    ensures var s := trace[|moves|]; var p := s.workers[i];
      longer[|more|] == s.(rows := WithStatus(s.rows, p.id, Outcome(p), now), workers := s.workers[i := Idle])
  {
    var s := trace[|moves|];
    var p := s.workers[i];
    longer, more := OneMove(threshold, trace, moves, Finish(i, now),
      s.(rows := WithStatus(s.rows, p.id, Outcome(p), now), workers := s.workers[i := Idle]));
  }

  /** Claim and classify. */
  lemma ClassifyPath(threshold: real, s: State, i: nat, id: TicketId, a: Answers)
    returns (trace: seq<State>, moves: seq<Move>)
    requires i < |s.workers| && s.workers[i] == Idle && (i == 0 ==> s.drain == Draining) && Next(s.rows, id)
    ensures Path(threshold, trace, moves) && trace[0] == s
    ensures trace[|moves|] == s.(
      rows := WithClassification(Claimed(s.rows, id), id, a.tier, a.order),
      workers := s.workers[i := if a.fixable then Proposing(id, a.tier) else Failing(id)])
  {
    trace, moves := [s], [];
    var t := s.(rows := Claimed(s.rows, id), workers := s.workers[i := Classifying(id)]);
    trace, moves := OneMove(threshold, trace, moves, Claim(i, id), t);
    var u := t.(workers := s.workers[i := Classified(id, a.tier, a.order, a.fixable)]);
    assert u.workers == t.workers[i := Classified(id, a.tier, a.order, a.fixable)];
    trace, moves := OneMove(threshold, trace, moves, Classify(i, a.tier, a.order, a.fixable), u);
    var v := u.(rows := WithClassification(u.rows, id, a.tier, a.order),
                workers := s.workers[i := if a.fixable then Proposing(id, a.tier) else Failing(id)]);
    assert v.workers == u.workers[i := if a.fixable then Proposing(id, a.tier) else Failing(id)];
    trace, moves := OneMove(threshold, trace, moves, StoreClassification(i), v);
  }

  /** Propose, store the proposal, and decide. */
  lemma ProposePath(threshold: real, trace: seq<State>, moves: seq<Move>, i: nat, id: TicketId, tier: nat, p: Proposal)
    returns (longer: seq<State>, more: seq<Move>)
    requires Path(threshold, trace, moves) && i < |trace[|moves|].workers| && Scored(tier, p)
    requires trace[|moves|].workers[i] == Proposing(id, tier)
    ensures Path(threshold, longer, more) && longer[0] == trace[0]
    ensures var s := trace[|moves|];
      longer[|more|] == s.(rows := WithProposal(s.rows, id, p),
        workers := s.workers[i := if tier == 1 && p.confidence >= threshold then Applying(id, Some(p)) else Holding(id)])
  {
    var s := trace[|moves|];
    var t := s.(workers := s.workers[i := Storing(id, tier, p)]);
    longer, more := OneMove(threshold, trace, moves, Propose(i, Some(p)), t);
    var u := t.(rows := WithProposal(t.rows, id, p), workers := s.workers[i := Deciding(id, tier, p)]);
    assert u.workers == t.workers[i := Deciding(id, tier, p)];
    longer, more := OneMove(threshold, longer, more, StoreProposal(i), u);
    var next := if tier == 1 && p.confidence >= threshold then Applying(id, Some(p)) else Holding(id);
    var v := u.(workers := s.workers[i := next]);
    assert v.workers == u.workers[i := next];
    longer, more := OneMove(threshold, longer, more, Decide(i), v);
  }

  lemma ApplyPath(threshold: real, trace: seq<State>, moves: seq<Move>, i: nat, id: TicketId, p: Proposal, ok: bool, now: int)
    returns (longer: seq<State>, more: seq<Move>)
    requires Path(threshold, trace, moves) && i < |trace[|moves|].workers|
    requires trace[|moves|].workers[i] == Applying(id, Some(p))
    ensures Path(threshold, longer, more) && longer[0] == trace[0]
    ensures var s := trace[|moves|]; var e := ApplyEffect(s.rows, id, Some(p), ok, now);
      longer[|more|] == s.(rows := e.rows, writes := s.writes + e.writes, workers := s.workers[i := Idle])
  {
    var s := trace[|moves|];
    var next := if ok then Written(id) else Failing(id);
    var t := s.(writes := s.writes + (if ok then [Write(id, p)] else []), workers := s.workers[i := next]);
    longer, more := OneMove(threshold, trace, moves, Apply(i, ok), t);
    longer, more := FinishPath(threshold, longer, more, i, now);
    assert s.workers[i := next][i := Idle] == s.workers[i := Idle];
  }

  /** Processing a ticket without interruption is a stretch of the protocol: it starts where the
  worker is idle and ends with the rows and writes of the code. */
  lemma ProcessIsAPath(threshold: real, s: State, i: nat, id: TicketId, a: Answers)
    returns (trace: seq<State>, moves: seq<Move>)
    requires i < |s.workers| && s.workers[i] == Idle && (i == 0 ==> s.drain == Draining) && Next(s.rows, id)
    requires a.proposal.Some? ==> Scored(a.tier, a.proposal.value)
    ensures Path(threshold, trace, moves) && trace[0] == s
    ensures var e := Processed(Claimed(s.rows, id), id, threshold, a);
      trace[|moves|] == s.(rows := e.rows, writes := s.writes + e.writes)
  {
    hide Path, Step, WithStatus, WithProposal, WithClassification, Claimed, Scored, Next;
    trace, moves := ClassifyPath(threshold, s, i, id, a);
    assert s.workers[i := Idle] == s.workers;
    var u := trace[|moves|];
    if !a.fixable {
      trace, moves := FinishPath(threshold, trace, moves, i, a.now);
    } else if a.proposal.None? {
      assert Step(threshold, u, Propose(i, None), u.(workers := u.workers[i := Failing(id)])) by { NothingProposed(threshold, u, i); }
      trace, moves := OneMove(threshold, trace, moves, Propose(i, None), u.(workers := u.workers[i := Failing(id)]));
      trace, moves := FinishPath(threshold, trace, moves, i, a.now);
    } else {
      trace, moves := ProposePath(threshold, trace, moves, i, id, a.tier, a.proposal.value);
      if a.tier == 1 && a.proposal.value.confidence >= threshold {
        trace, moves := ApplyPath(threshold, trace, moves, i, id, a.proposal.value, a.applies, a.now);
      } else {
        trace, moves := FinishPath(threshold, trace, moves, i, a.now);
      }
    }
    assert trace[|moves|].workers == s.workers;
    assert s.writes + [] == s.writes;
  }

  lemma NothingProposed(threshold: real, u: State, i: nat)
    requires i < |u.workers| && u.workers[i].Proposing?
    ensures Step(threshold, u, Propose(i, None), u.(workers := u.workers[i := Failing(u.workers[i].id)]))
  {
  }

  /** Approving without interruption is one too. */
  lemma ApproveIsAPath(threshold: real, s: State, id: TicketId, applies: bool, now: int)
    returns (trace: seq<State>, moves: seq<Move>)
    requires s.control == Free && id in s.rows && s.rows[id].status == Proposed
    ensures Path(threshold, trace, moves) && trace[0] == s
    ensures var e := ApplyEffect(WithStatus(s.rows, id, Approved, now), id, s.rows[id].proposal, applies, now);
      trace[|moves|] == s.(rows := e.rows, writes := s.writes + e.writes, approvals := s.approvals + {id})
  {
    hide Path, WithStatus, Next, Claimed, WithProposal, WithClassification, Scored;
    var found := s.rows[id].proposal;
    var u := s.(rows := WithStatus(s.rows, id, Approved, now), approvals := s.approvals + {id},
                control := Carrying(Applying(id, found)));
    trace, moves := HandOver(threshold, s, id, now);
    var v := u.(writes := u.writes + WritesOf(Applying(id, found), applies),
                control := Carrying(AfterApply(Applying(id, found), applies)));
    trace, moves := OneMove(threshold, trace, moves, ApplyApproved(applies), v);
    var w := v.(rows := WithStatus(v.rows, id, Outcome(v.control.phase), now), control := Free);
    trace, moves := OneMove(threshold, trace, moves, FinishApproved(now), w);
  }

  /** And so is rejecting. */
  lemma RejectIsAPath(threshold: real, s: State, id: TicketId, now: int) returns (trace: seq<State>, moves: seq<Move>)
    requires s.control == Free && id in s.rows && s.rows[id].status == Proposed
    ensures Path(threshold, trace, moves) && trace[0] == s
    ensures trace[|moves|]
      == s.(rows := s.rows[id := s.rows[id].(status := Rejected, resolvedAt := Some(now))])
  {
    trace, moves := OneMove(threshold, [s], [], ReadToReject(id), s.(control := Rejecting(id)));
    trace, moves := OneMove(threshold, trace, moves, Reject(now), s.(rows := WithStatus(s.rows, id, Rejected, now)));
  }

  /** The read and the write that make a ticket approved. */
  lemma HandOver(threshold: real, s: State, id: TicketId, now: int) returns (trace: seq<State>, moves: seq<Move>)
    requires s.control == Free && id in s.rows && s.rows[id].status == Proposed
    ensures Path(threshold, trace, moves) && trace[0] == s
    ensures trace[|moves|] == s.(rows := WithStatus(s.rows, id, Approved, now), approvals := s.approvals + {id},
                                 control := Carrying(Applying(id, s.rows[id].proposal)))
  {
    trace, moves := [s], [];
    var found := s.rows[id].proposal;
    var t := s.(control := Approving(id, found));
    trace, moves := OneMove(threshold, trace, moves, ReadToApprove(id), t);
    var u := t.(rows := WithStatus(s.rows, id, Approved, now), approvals := s.approvals + {id},
                control := Carrying(Applying(id, found)));
    trace, moves := OneMove(threshold, trace, moves, Approve(now), u);
  }
}
