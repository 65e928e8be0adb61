/** `apply_fix` and `_atomic_write` (`healer/applier.py`): what may be written, and the write as
steps of one process, with a kill or a loss of power possible between any two of them. */
module AtomicWrite {
  import opened Collections
  import opened ContractTree

  // ----- apply_fix, up to the write -----

  /** The validator, the YAML library and the file system's answer about the contract file. */
  datatype World = World(valid: Yaml -> bool, dump: Yaml -> string, load: string -> Option<Yaml>, present: bool)

  datatype Refusal = Invalid | FileNotFound | NotYaml | InvalidAfterReload | DoesNotRoundTrip

  /** The bytes to write, or why nothing is written. */
  function Checked(w: World, proposed: Yaml): Result<string, Refusal> {
    var after := Strip(proposed);
    if !w.valid(after) then Err(Invalid)
    else if !w.present then Err(FileNotFound)
    else
      var bytes := w.dump(after);
      var reloaded := w.load(bytes);
      if reloaded.None? then Err(NotYaml)
      else if !w.valid(if reloaded.value.Truthy() then reloaded.value else Mapping([])) then Err(InvalidAfterReload)
      else if reloaded.value != after then Err(DoesNotRoundTrip)
      else Ok(bytes)
  }

  /** Bytes a reader may find: they load, as the stripped proposal, and that is valid. */
  ghost predicate Sound(w: World, proposed: Yaml, bytes: string) {
    && w.load(bytes) == Some(Strip(proposed)) && w.valid(Strip(proposed)) && Clean(Strip(proposed))
  }

  lemma CheckedIsSound(w: World, proposed: Yaml)
    requires Checked(w, proposed).Ok?
    ensures Sound(w, proposed, Checked(w, proposed).value)
  {
    StripIsProjection(proposed);
  }

  /** A proposal is accepted exactly when, stripped, it is valid, has a file to go to, and comes
  back from its bytes; one that strips to nothing asks for an empty contract to be valid too.
  Every refusal names the first of these that fails. */
  lemma CheckedExactly(w: World, proposed: Yaml)
    ensures var after, r := Strip(proposed), Checked(w, proposed);
      var reloaded := w.load(w.dump(after));
      && (r.Ok? ==> r.value == w.dump(after))
      && (r.Ok? <==> && w.valid(after) && w.present && reloaded == Some(after)
                     && (after.Truthy() || w.valid(Mapping([]))))
      && (r == Err(Invalid) <==> !w.valid(after))
      && (r == Err(FileNotFound) <==> w.valid(after) && !w.present)
      && (r == Err(NotYaml) <==> w.valid(after) && w.present && reloaded.None?)
      && (r == Err(DoesNotRoundTrip) ==> reloaded.Some? && reloaded.value != after)
      && (r == Err(InvalidAfterReload) ==>
            reloaded.Some? && !w.valid(if reloaded.value.Truthy() then reloaded.value else Mapping([])))
  {
    hide Strip;
  }

  // ----- The write -----

  /** What running processes read, and what the device is sure to keep. */
  datatype File = File(cached: string, durable: Option<string>)

  datatype Phase =
    | Starting
    | Writing       // the temporary file exists; some prefix of the bytes has reached it
    | Flushed
    | Synced
    | Replaced
    | Done
    | Unlinking     // the exception handler
    | Failed
    | Dead          // killed, or the machine lost power

  datatype Disk = Disk(
    phase: Phase,
    prior: string,           // the contract file when the write began
    temp: Option<File>,    // the temporary file, while it has its own name
    target: Option<File>)  // the file that replaced the contract file, if any

  function Begin(prior: string): Disk {
    Disk(Starting, prior, None, None)
  }

  /** What a reader of the contract file finds. */
  function Contents(d: Disk): string {
    if d.target.None? then d.prior else d.target.value.cached
  }

  datatype Event =
    | Create | WriteSome(n: nat) | Flush | Sync | Replace | Return
    | Raise | Unlink | UnlinkFails | Kill | PowerLoss

  predicate Running(d: Disk) {
    !d.phase.Done? && !d.phase.Failed? && !d.phase.Dead?
  }

  /** Power comes back to what was durable: a file not yet synced holds anything, and a rename
  may or may not have reached the device. */
  ghost predicate Restarted(d: Disk, e: Disk) {
    && e.phase == Dead && e.prior == d.prior
    && (e.target.Some? ==>
          && d.target.Some? && e.target.value.durable == Some(e.target.value.cached)
          && (d.target.value.durable.Some? ==> e.target.value.durable == d.target.value.durable))
  }

  /** The steps of the write; `syncs` is true in the code, and false for a write that renames
  without `fsync`.  An exception, which a signal can raise at any point of the `try` block, even
  right after the rename, leads to the handler. */
  ghost predicate Step(bytes: string, syncs: bool, d: Disk, e: Disk, event: Event) {
    match event
    case Create => d.phase.Starting? && e == d.(phase := Writing, temp := Some(File("", None)))
    case WriteSome(n) =>
      && d.phase.Writing? && d.temp.Some? && |d.temp.value.cached| <= n <= |bytes|
      && e == d.(temp := Some(File(bytes[..n], None)))
    case Flush =>
      d.phase.Writing? && d.temp.Some? && e == d.(phase := Flushed, temp := Some(File(bytes, None)))
    case Sync =>
      d.phase.Flushed? && d.temp.Some?
      && e == d.(phase := Synced, temp := Some(File(d.temp.value.cached, Some(d.temp.value.cached))))
    case Replace =>
      && (if syncs then d.phase.Synced? else d.phase.Flushed?)
      && d.temp.Some? && e == d.(phase := Replaced, temp := None, target := d.temp)
    case Return => d.phase.Replaced? && e == d.(phase := Done)
    case Raise =>
      if d.phase.Starting? then e == d.(phase := Failed)
      else
        && (d.phase.Writing? || d.phase.Flushed? || d.phase.Synced? || d.phase.Replaced?)
        && e == d.(phase := Unlinking)
    case Unlink => d.phase.Unlinking? && e == d.(phase := Failed, temp := None)
    case UnlinkFails => d.phase.Unlinking? && e == d.(phase := Failed)
    case Kill => Running(d) && e == d.(phase := Dead)
    case PowerLoss => Restarted(d, e)
  }

  ghost predicate IsRun(bytes: string, syncs: bool, prior: string, trace: seq<Disk>, events: seq<Event>) {
    && |trace| == |events| + 1 && trace[0] == Begin(prior)
    && forall k :: 0 <= k < |events| ==> Step(bytes, syncs, trace[k], trace[k + 1], events[k])
  }

  /** Only a file that is whole, and safely on the device, ever gets the contract's name. */
  ghost predicate Inv(bytes: string, prior: string, d: Disk) {
    && d.prior == prior
    && (d.target.Some? ==> d.target.value == File(bytes, Some(bytes)))
    && (d.phase.Done? || d.phase.Replaced? ==> d.target.Some?)
    && (d.phase.Flushed? ==> d.temp.Some? && d.temp.value.cached == bytes)
    && (d.phase.Synced? ==> d.temp.Some? && d.temp.value == File(bytes, Some(bytes)))
    && (d.phase.Writing? || d.phase.Flushed? || d.phase.Synced? || d.phase.Starting? ==> d.target.None?)
    && (d.phase.Done? || d.phase.Replaced? || d.phase.Starting? ==> d.temp.None?)
  }

  lemma StepKeepsInv(bytes: string, prior: string, d: Disk, e: Disk, event: Event)
    requires Inv(bytes, prior, d) && Step(bytes, true, d, e, event)
    ensures Inv(bytes, prior, e)
  {
  }

  /** Before moment `k`, an exception arrived between the rename and the end of the `try`. */
  ghost predicate RaisedLate(trace: seq<Disk>, events: seq<Event>, k: nat)
    requires |trace| == |events| + 1 && k < |trace|
  {
    exists j :: 0 <= j < k && events[j] == Raise && trace[j].phase.Replaced?
  }

  ghost predicate Caught(d: Disk) {
    d.phase.Unlinking? || d.phase.Failed?
  }

  lemma {:induction false} RunKeepsInv(bytes: string, prior: string, trace: seq<Disk>, events: seq<Event>, k: nat)
    requires IsRun(bytes, true, prior, trace, events) && k < |trace|
    ensures Inv(bytes, prior, trace[k])
    ensures RaisedLate(trace, events, k) ==> Caught(trace[k]) || trace[k].phase.Dead?
    ensures Caught(trace[k]) ==> (trace[k].target.Some? <==> RaisedLate(trace, events, k))
    ensures trace[k].phase.Failed? && trace[k].temp.Some? ==> UnlinkFails in events[..k]
  {
    if k > 0 {
      RunKeepsInv(bytes, prior, trace, events, k - 1);
      StepKeepsInv(bytes, prior, trace[k - 1], trace[k], events[k - 1]);
      assert Step(bytes, true, trace[k - 1], trace[k], events[k - 1]);
      assert RaisedLate(trace, events, k) <==>
        RaisedLate(trace, events, k - 1) || (events[k - 1] == Raise && trace[k - 1].phase.Replaced?);
      assert events[..k] == events[..k - 1] + [events[k - 1]];
    }
  }

  /** At every moment of every run, exceptions, kills and power losses included, the contract
  file holds the old bytes or all of the new ones.  It holds the new ones once the write has
  returned; once it has raised, it holds the new ones exactly when the exception came after the
  rename, and no temporary file is left unless removing it failed too. */
  lemma OldOrNew(bytes: string, prior: string, trace: seq<Disk>, events: seq<Event>, k: nat)
    requires IsRun(bytes, true, prior, trace, events) && k < |trace|
    ensures Contents(trace[k]) == prior || Contents(trace[k]) == bytes
    ensures trace[k].phase.Done? ==> Contents(trace[k]) == bytes && trace[k].temp.None?
    ensures trace[k].phase.Failed? ==>
      Contents(trace[k]) == if RaisedLate(trace, events, k) then bytes else prior
    ensures trace[k].phase.Failed? ==> trace[k].temp.None? || UnlinkFails in events[..k]
  {
    RunKeepsInv(bytes, prior, trace, events, k);
  }

  /** Undisturbed, the write returns and the file holds the new bytes. */
  lemma WriteCompletes(bytes: string, prior: string) returns (trace: seq<Disk>, events: seq<Event>)
    ensures IsRun(bytes, true, prior, trace, events)
    ensures trace[|events|].phase.Done? && Contents(trace[|events|]) == bytes && trace[|events|].temp.None?
  {
    events := [Create, Flush, Sync, Replace, Return];
    trace := [
      Begin(prior), Disk(Writing, prior, Some(File("", None)), None),
      Disk(Flushed, prior, Some(File(bytes, None)), None), Disk(Synced, prior, Some(File(bytes, Some(bytes))), None),
      Disk(Replaced, prior, None, Some(File(bytes, Some(bytes)))),
      Disk(Done, prior, None, Some(File(bytes, Some(bytes))))];
  }

  /** Renaming without the sync, a loss of power can leave anything in the contract file. */
  lemma UnsyncedRenameIsUnsafe(bytes: string, prior: string, junk: string)
    returns (trace: seq<Disk>, events: seq<Event>)
    ensures IsRun(bytes, false, prior, trace, events) && Contents(trace[|events|]) == junk
  {
    events := [Create, Flush, Replace, PowerLoss];
    trace := [
      Begin(prior), Disk(Writing, prior, Some(File("", None)), None),
      Disk(Flushed, prior, Some(File(bytes, None)), None), Disk(Replaced, prior, None, Some(File(bytes, None))),
      Disk(Dead, prior, None, Some(File(junk, Some(junk))))];
    assert Restarted(trace[3], trace[4]);
  }

  ghost predicate AlwaysOldOrNew(bytes: string, syncs: bool, prior: string) {
    forall trace, events, k: nat :: IsRun(bytes, syncs, prior, trace, events) && k < |trace|
      ==> Contents(trace[k]) == prior || Contents(trace[k]) == bytes
  }

  /** So the guarantee hangs on the sync before the rename. */
  lemma TheSyncDecides(bytes: string, prior: string, syncs: bool)
    ensures AlwaysOldOrNew(bytes, syncs, prior) <==> syncs
  {
    hide IsRun;
    if syncs {
      forall trace, events, k: nat | IsRun(bytes, true, prior, trace, events) && k < |trace|
        ensures Contents(trace[k]) == prior || Contents(trace[k]) == bytes
      {
        OldOrNew(bytes, prior, trace, events, k);
      }
    } else {
      var junk := bytes + prior + "!";
      var trace, events := UnsyncedRenameIsUnsafe(bytes, prior, junk);
      assert |junk| > |bytes| && |junk| > |prior|;
    }
  }

  /** From the proposal to the file: whatever happens during the write, a reader finds the bytes
  from before or bytes that load as exactly the validated proposal. */
  lemma ReaderFindsSoundBytes(w: World, proposed: Yaml, prior: string, trace: seq<Disk>, events: seq<Event>, k: nat)
    requires Checked(w, proposed).Ok? && IsRun(Checked(w, proposed).value, true, prior, trace, events) && k < |trace|
    ensures Contents(trace[k]) == prior || Sound(w, proposed, Contents(trace[k]))
  {
    CheckedIsSound(w, proposed);
    OldOrNew(Checked(w, proposed).value, prior, trace, events, k);
  }

  /** The healing loop: once a deterministic fix has been applied, reading the file back and
  proposing again finds nothing exactly when one round of normalisation was enough. */
  lemma HealingFixpoint(w: World, contract: Yaml, prior: string, trace: seq<Disk>, events: seq<Event>, k: nat)
    requires ProposeDeterministicFix(contract).Fix?
    requires var after := ProposeDeterministicFix(contract).after;
      Checked(w, after).Ok? && IsRun(Checked(w, after).value, true, prior, trace, events)
    requires k < |trace| && trace[k].phase.Done?
    ensures w.load(Contents(trace[k])).Some?
    ensures var reloaded := w.load(Contents(trace[k])).value;
      ProposeDeterministicFix(reloaded) == NothingToFix <==> OneRound(Strip(contract))
  {
    hide ProposeDeterministicFix, OneRound, Strip;
    var after := ProposeDeterministicFix(contract).after;
    ProposalFixpoint(contract);
    CheckedIsSound(w, after);
    OldOrNew(Checked(w, after).value, prior, trace, events, k);
  }
}
