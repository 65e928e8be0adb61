/** `healer/queue.py`: the ticket table.  Every method is one committed SQL statement; the
functions say what it does to the rows, so that a protocol of many clients can use them. */
module HealerQueues {
  import opened Collections

  type TicketId = nat

  datatype Status = Queued | Analyzing | Proposed | Approved | Applied | Failed | Rejected {
    predicate Terminal() {
      Applied? || Failed? || Rejected?
    }
  }

  /** `model` is true for a proposal written by a language model. */
  datatype Proposal = Proposal(model: bool, confidence: real)

  datatype Ticket = Ticket(
    status: Status, tier: nat, priorityOrder: nat, createdAt: int,
    proposal: Option<Proposal>, resolvedAt: Option<int>)

  type Rows = map<TicketId, Ticket>

  /** `ORDER BY priority_order ASC, created_at ASC` */
  predicate Before(a: Ticket, b: Ticket) {
    a.priorityOrder < b.priorityOrder || (a.priorityOrder == b.priorityOrder && a.createdAt <= b.createdAt)
  }

  predicate InQueue(rows: Rows, id: TicketId) {
    id in rows && rows[id].status == Queued
  }

  ghost predicate Next(rows: Rows, id: TicketId) {
    InQueue(rows, id) && forall o :: InQueue(rows, o) ==> Before(rows[id], rows[o])
  }

  function Claimed(rows: Rows, id: TicketId): Rows
    requires id in rows
  {
    rows[id := rows[id].(status := Analyzing)]
  }

  /** `resolved_at = COALESCE(?, resolved_at)`: set for a terminal status, kept otherwise. */
  function WithStatus(rows: Rows, id: TicketId, status: Status, now: int): Rows {
    if id !in rows then rows
    else rows[id := rows[id].(
      status := status,
      resolvedAt := if status.Terminal() then Some(now) else rows[id].resolvedAt)]
  }

  function WithClassification(rows: Rows, id: TicketId, tier: nat, priorityOrder: nat): Rows {
    if id !in rows then rows
    else rows[id := rows[id].(tier := tier, priorityOrder := priorityOrder)]
  }

  function WithProposal(rows: Rows, id: TicketId, proposal: Proposal): Rows {
    if id !in rows then rows
    else rows[id := rows[id].(proposal := Some(proposal))]
  }

  function Fresh(priorityOrder: nat, createdAt: int): Ticket {
    Ticket(Queued, 0, priorityOrder, createdAt, None, None)
  }

  // ----- Updates of one row -----

  datatype Update =
    | ToStatus(status: Status, now: int)
    | ToTier(tier: nat, priorityOrder: nat)
    | ToProposal(proposal: Proposal)

  function Updated(rows: Rows, id: TicketId, u: Update): Rows {
    match u
    case ToStatus(status, now) => WithStatus(rows, id, status, now)
    case ToTier(tier, priorityOrder) => WithClassification(rows, id, tier, priorityOrder)
    case ToProposal(proposal) => WithProposal(rows, id, proposal)
  }

  predicate SameColumns(u: Update, v: Update) {
    u.ToStatus? == v.ToStatus? && u.ToTier? == v.ToTier?
  }

  /** Updates of different tickets commute, and so do updates of different columns of one: it
  does not matter how the statements of several workers interleave. */
  lemma UpdatesCommute(rows: Rows, a: TicketId, u: Update, b: TicketId, v: Update)
    requires a != b || !SameColumns(u, v)
    ensures Updated(Updated(rows, a, u), b, v) == Updated(Updated(rows, b, v), a, u)
  {
    assert Updated(Updated(rows, a, u), b, v).Keys == rows.Keys;
    assert Updated(Updated(rows, b, v), a, u).Keys == rows.Keys;
  }

  /** An update of a ticket that is not queued, to anything but queued, leaves the order of the
  queue alone: reclassifying a claimed ticket never moves another one. */
  lemma UpdatesKeepOrder(rows: Rows, id: TicketId, u: Update, o: TicketId)
    requires !InQueue(rows, id) && (u.ToStatus? ==> u.status != Queued)
    ensures Next(Updated(rows, id, u), o) <==> Next(rows, o)
  {
    var after := Updated(rows, id, u);
    forall x ensures InQueue(after, x) <==> InQueue(rows, x) {}
    forall x | InQueue(rows, x) ensures after[x] == rows[x] {}
  }

  /** A row after several updates. */
  function UpdatedBy(rows: Rows, id: TicketId, us: seq<Update>): Rows {
    if us == [] then rows else Updated(UpdatedBy(rows, id, us[..|us| - 1]), id, us[|us| - 1])
  }

  predicate Resolves(u: Update) {
    u.ToStatus? && u.status.Terminal()
  }

  /** When the last of several updates that resolves the ticket does so. */
  function LastResolution(us: seq<Update>): Option<int> {
    if us == [] then None
    else if Resolves(us[|us| - 1]) then Some(us[|us| - 1].now)
    else LastResolution(us[..|us| - 1])
  }

  /** Over any updates the resolution time is that of the last terminal status, and nothing ever
  takes it back; rows of other tickets stay as they were. */
  lemma {:induction false} ResolvedExactly(rows: Rows, id: TicketId, us: seq<Update>)
    requires id in rows
    ensures var after := UpdatedBy(rows, id, us);
      && after.Keys == rows.Keys && (forall o <- rows :: o != id ==> after[o] == rows[o])
      && after[id].resolvedAt
           == (if LastResolution(us).Some? then LastResolution(us) else rows[id].resolvedAt)
  {
    if us != [] { ResolvedExactly(rows, id, us[..|us| - 1]); }
  }

  /** Nothing but the row of `id` differs. */
  ghost predicate OnlyRow(was: Rows, now: Rows, id: TicketId) {
    now.Keys == was.Keys && forall o <- was :: o != id ==> now[o] == was[o]
  }

  class HealerQueue {
    var rows: Rows
    var consumedTokens: set<string>

    constructor ()
      ensures rows == map[] && consumedTokens == {}
    {
      rows, consumedTokens := map[], {};
    }

    /** A primary key: inserting an id twice is an integrity error. */
    method Enqueue(id: TicketId, priorityOrder: nat, createdAt: int) returns (ok: bool)
      modifies this`rows
      ensures ok == (id !in old(rows))
      ensures ok ==> rows == old(rows)[id := Ticket(Queued, 0, priorityOrder, createdAt, None, None)]
      ensures !ok ==> rows == old(rows)
    {
      ok := id !in rows;
      if ok { rows := rows[id := Fresh(priorityOrder, createdAt)]; }
    }

    /** `UPDATE ... WHERE id = (SELECT ... LIMIT 1) RETURNING *`: no queued ticket has a smaller
    priority number, and none of the same priority is older. */
    method ClaimNext() returns (r: Option<TicketId>)
      modifies this`rows
      ensures r.Some? <==> exists id :: id in old(rows) && old(rows)[id].status == Queued
      ensures r.Some? ==> r.value in old(rows) && old(rows)[r.value].status == Queued
      ensures r.Some? ==> rows == old(rows)[r.value := old(rows)[r.value].(status := Analyzing)]
      ensures r.Some? ==> forall o <- old(rows) :: old(rows)[o].status == Queued ==>
        old(rows)[r.value].priorityOrder < old(rows)[o].priorityOrder
        || (old(rows)[r.value].priorityOrder == old(rows)[o].priorityOrder
            && old(rows)[r.value].createdAt <= old(rows)[o].createdAt)
      ensures r.None? ==> rows == old(rows) && forall id :: !InQueue(rows, id)
      ensures r.Some? ==> Next(old(rows), r.value) && rows == Claimed(old(rows), r.value)
    {
      r := None;
      var todo := rows.Keys;
      while todo != {}
        invariant todo <= rows.Keys && rows == old(rows)
        invariant r.Some? ==> InQueue(rows, r.value)
        invariant forall o :: InQueue(rows, o) && o !in todo ==> r.Some? && Before(rows[r.value], rows[o])
        decreases todo
      {
        var id :| id in todo;
        todo := todo - {id};
        if InQueue(rows, id) && (r.None? || !Before(rows[r.value], rows[id])) {
          r := Some(id);
        }
      }
      assert r.None? ==> forall o <- rows :: !InQueue(rows, o);
      if r.Some? { rows := Claimed(rows, r.value); }
    }

    method UpdateStatus(id: TicketId, status: Status, now: int)
      modifies this`rows
      ensures OnlyRow(old(rows), rows, id) && rows == WithStatus(old(rows), id, status, now)
      ensures id in rows ==> rows[id].status == status
      ensures id in rows && status.Terminal() ==> rows[id].resolvedAt == Some(now)
      ensures id in rows && !status.Terminal() ==> rows[id].resolvedAt == old(rows)[id].resolvedAt
    {
      if id in rows {
        var resolved := if status.Terminal() then Some(now) else None;
        rows := rows[id := rows[id].(
          status := status,
          resolvedAt := if resolved.Some? then resolved else rows[id].resolvedAt)];
      }
    }

    method SetClassification(id: TicketId, tier: nat, priorityOrder: nat)
      modifies this`rows
      ensures OnlyRow(old(rows), rows, id) && rows == WithClassification(old(rows), id, tier, priorityOrder)
      ensures id in rows ==> rows[id].tier == tier && rows[id].priorityOrder == priorityOrder
      ensures id in rows ==> rows[id].status == old(rows)[id].status && rows[id].proposal == old(rows)[id].proposal
    {
      if id in rows {
        rows := rows[id := rows[id].(tier := tier, priorityOrder := priorityOrder)];
      }
    }

    method SetProposal(id: TicketId, proposal: Proposal)
      modifies this`rows
      ensures OnlyRow(old(rows), rows, id) && rows == WithProposal(old(rows), id, proposal)
      ensures id in rows ==> rows[id].proposal == Some(proposal) && rows[id].status == old(rows)[id].status
    {
      if id in rows {
        rows := rows[id := rows[id].(proposal := Some(proposal))];
      }
    }

    /** Burn a nonce; a second insert violates the primary key and is rolled back. */
    method ConsumeTokenNonce(nonce: string) returns (ok: bool)
      modifies this`consumedTokens
      ensures ok == (nonce !in old(consumedTokens))
      ensures consumedTokens == old(consumedTokens) + {nonce}
    {
      ok := nonce !in consumedTokens;
      consumedTokens := consumedTokens + {nonce};
    }
  }
}
