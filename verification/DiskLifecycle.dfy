/** The disk inventory: health states, qualification and evacuation. */
module DiskLifecycle {
  import opened Base
  import opened DiskStates

  // ---------- Telemetry ----------

  datatype Telemetry = Telemetry(
    readErrors: nat, writeErrors: nat, checksumMismatches: nat, mediaErrors: nat, timeouts: nat,
    temperature: Option<nat>, latencyP99Us: Option<nat>)

  const NO_TELEMETRY := Telemetry(0, 0, 0, 0, 0, None, None)

  datatype HealthPolicy = HealthPolicy(
    suspectErrors: nat, degradedErrors: nat, failedErrors: nat, warningTemperature: nat, criticalTemperature: nat)

  const DEFAULT_POLICY := HealthPolicy(5, 20, 100, 60, 75)

  function Accumulated(t: Telemetry, more: Telemetry): Telemetry {
    Telemetry(t.readErrors + more.readErrors, t.writeErrors + more.writeErrors,
              t.checksumMismatches + more.checksumMismatches, t.mediaErrors + more.mediaErrors,
              t.timeouts + more.timeouts,
              if more.temperature.Some? then more.temperature else t.temperature,
              if more.latencyP99Us.Some? then more.latencyP99Us else t.latencyP99Us)
  }

  // Timeouts are counted but do not bear on the state.
  function Errors(t: Telemetry): nat {
    t.readErrors + t.writeErrors + t.checksumMismatches + t.mediaErrors
  }

  function DerivedState(t: Telemetry, policy: HealthPolicy): Option<DiskState> {
    var errors := Errors(t);
    if errors >= policy.failedErrors then Some(Failed)
    else if t.temperature.Some? && t.temperature.value >= policy.criticalTemperature then Some(Failed)
    else if errors >= policy.degradedErrors then Some(Degraded)
    else if t.temperature.Some? && t.temperature.value >= policy.warningTemperature then Some(Suspect)
    else if errors >= policy.suspectErrors then Some(Suspect)
    else None
  }

  // ---------- The inventory ----------

  datatype Qualification = Pending | BurnInRunning(startedAt: nat) | Qualified

  datatype ManagedDisk = ManagedDisk(
    state: DiskState, qualification: Qualification, health: Telemetry, policy: HealthPolicy)

  datatype Inventory = Inventory(disks: map<DiskId, ManagedDisk>, drainQueue: seq<DiskId>)

  datatype DiskError = UnknownDisk | DuplicateDisk | InvalidTransition

  datatype Op =
    | Discover(disk: DiskId, requireQualification: bool)
    | TransitionState(disk: DiskId, to: DiskState)
    | RecordTelemetry(disk: DiskId, telemetry: Telemetry)
    | CompleteQualification(disk: DiskId)
    | StartBurnIn(disk: DiskId, now: nat)
    | TakeDrainQueue

  datatype Answer = Fine | Was(state: DiskState) | Taken(disks: seq<DiskId>) | Refused(error: DiskError)

  function Put(inv: Inventory, id: DiskId, disk: ManagedDisk): Inventory {
    inv.(disks := inv.disks[id := disk])
  }

  function NewDisk(requireQualification: bool): ManagedDisk {
    if requireQualification then ManagedDisk(Suspect, Pending, NO_TELEMETRY, DEFAULT_POLICY)
    else ManagedDisk(Healthy, Qualified, NO_TELEMETRY, DEFAULT_POLICY)
  }

  // A degraded disk goes straight on to draining and is queued for evacuation.
  function Transitioned(inv: Inventory, id: DiskId, to: DiskState): (Inventory, Answer)
    requires id in inv.disks
  {
    var disk := inv.disks[id];
    if !disk.state.CanBecome(to) then (inv, Refused(InvalidTransition))
    else if to.Degraded? then
      (Put(inv, id, disk.(state := Draining)).(drainQueue := inv.drainQueue + [id]), Was(disk.state))
    else (Put(inv, id, disk.(state := to)), Was(disk.state))
  }

  function Telemetered(disk: ManagedDisk, telemetry: Telemetry): ManagedDisk {
    var health := Accumulated(disk.health, telemetry);
    var derived := DerivedState(health, disk.policy);
    disk.(health := health,
          state := if derived.Some? && derived.value != disk.state && disk.state.CanBecome(derived.value)
                   then derived.value else disk.state)
  }

  function Qualify(disk: ManagedDisk): ManagedDisk {
    if disk.qualification.Qualified? then disk
    else disk.(qualification := Qualified, state := if disk.state.Suspect? then Healthy else disk.state)
  }

  function Step(inv: Inventory, op: Op): (Inventory, Answer) {
    match op
    case TakeDrainQueue => (inv.(drainQueue := []), Taken(inv.drainQueue))
    case Discover(id, requireQualification) =>
      if id in inv.disks then (inv, Refused(DuplicateDisk))
      else (Put(inv, id, NewDisk(requireQualification)), Fine)
    case TransitionState(id, to) =>
      if id !in inv.disks then (inv, Refused(UnknownDisk)) else Transitioned(inv, id, to)
    case RecordTelemetry(id, telemetry) =>
      if id !in inv.disks then (inv, Refused(UnknownDisk))
      else (Put(inv, id, Telemetered(inv.disks[id], telemetry)), Fine)
    case CompleteQualification(id) =>
      if id !in inv.disks then (inv, Refused(UnknownDisk))
      else (Put(inv, id, Qualify(inv.disks[id])), Fine)
    case StartBurnIn(id, now) =>
      if id !in inv.disks then (inv, Refused(UnknownDisk))
      else if !inv.disks[id].qualification.Pending? then (inv, Refused(InvalidTransition))
      else (Put(inv, id, inv.disks[id].(qualification := BurnInRunning(now))), Fine)
  }

  function AllowsAllocation(inv: Inventory, id: DiskId): Result<bool, DiskError> {
    if id !in inv.disks then Err(UnknownDisk)
    else Ok(inv.disks[id].state.AllowsAllocation() && inv.disks[id].qualification.Qualified?)
  }

  function AllowsReads(inv: Inventory, id: DiskId): Result<bool, DiskError> {
    if id !in inv.disks then Err(UnknownDisk) else Ok(inv.disks[id].state.AllowsReads())
  }

  class DiskInventory {
    var disks: map<DiskId, ManagedDisk>
    var drainQueue: seq<DiskId>

    function Value(): Inventory
      reads this
    {
      Inventory(disks, drainQueue)
    }

    constructor ()
      ensures Value() == Inventory(map[], [])
    {
      disks, drainQueue := map[], [];
    }

    method DiscoverDisk(id: DiskId, requireQualification: bool) returns (a: Answer)
      modifies this
      ensures (Value(), a) == Step(old(Value()), Discover(id, requireQualification))
    {
      if id in disks {
        return Refused(DuplicateDisk);
      }
      disks := disks[id := NewDisk(requireQualification)];
      a := Fine;
    }

    method Transition(id: DiskId, to: DiskState) returns (a: Answer)
      modifies this
      ensures (Value(), a) == Step(old(Value()), TransitionState(id, to))
    {
      if id !in disks {
        return Refused(UnknownDisk);
      }
      var disk := disks[id];
      var oldState := disk.state;
      if !oldState.CanBecome(to) {
        return Refused(InvalidTransition);
      }
      disk := disk.(state := to);
      if to.Degraded? {
        if disk.state.CanBecome(Draining) {
          disk := disk.(state := Draining);
        }
        drainQueue := drainQueue + [id];
      }
      disks := disks[id := disk];
      a := Was(oldState);
    }

    method Telemeter(id: DiskId, telemetry: Telemetry) returns (a: Answer)
      modifies this
      ensures (Value(), a) == Step(old(Value()), RecordTelemetry(id, telemetry))
    {
      if id !in disks {
        return Refused(UnknownDisk);
      }
      var disk := disks[id];
      disk := disk.(health := Accumulated(disk.health, telemetry));
      var derived := DerivedState(disk.health, disk.policy);
      if derived.Some? && derived.value != disk.state && disk.state.CanBecome(derived.value) {
        disk := disk.(state := derived.value);
      }
      disks := disks[id := disk];
      a := Fine;
    }

    method FinishQualification(id: DiskId) returns (a: Answer)
      modifies this
      ensures (Value(), a) == Step(old(Value()), CompleteQualification(id))
    {
      if id !in disks {
        return Refused(UnknownDisk);
      }
      var disk := disks[id];
      if !disk.qualification.Qualified? {
        disk := disk.(qualification := Qualified);
        if disk.state.Suspect? {
          disk := disk.(state := Healthy);
        }
      }
      disks := disks[id := disk];
      a := Fine;
    }

    method BeginBurnIn(id: DiskId, now: nat) returns (a: Answer)
      modifies this
      ensures (Value(), a) == Step(old(Value()), StartBurnIn(id, now))
    {
      if id !in disks {
        return Refused(UnknownDisk);
      }
      if !disks[id].qualification.Pending? {
        return Refused(InvalidTransition);
      }
      disks := disks[id := disks[id].(qualification := BurnInRunning(now))];
      a := Fine;
    }

    method TakeQueue() returns (a: Answer)
      modifies this
      ensures (Value(), a) == Step(old(Value()), TakeDrainQueue)
    {
      a := Taken(drainQueue);
      drainQueue := [];
    }
  }

  // ---------- Runs ----------

  const EMPTY_INVENTORY := Inventory(map[], [])

  function After(ops: seq<Op>, n: nat): Inventory
    requires n <= |ops|
  {
    if n == 0 then EMPTY_INVENTORY else Step(After(ops, n - 1), ops[n - 1]).0
  }

  // How far a disk has gone down.
  function Severity(state: DiskState): nat {
    match state
    case Healthy => 0
    case Suspect => 0
    case Degraded => 1
    case Draining => 2
    case Failed => 3
    case Removed => 4
  }

  lemma StepOnlyWorsens(inv: Inventory, op: Op, id: DiskId)
    requires id in inv.disks
    ensures id in Step(inv, op).0.disks
    ensures Severity(inv.disks[id].state) <= Severity(Step(inv, op).0.disks[id].state)
  {
  }

  // No sequence of operations brings a disk back to a less severe state.
  lemma {:induction false} SeverityNeverDrops(ops: seq<Op>, i: nat, j: nat, id: DiskId)
    requires i <= j <= |ops| && id in After(ops, i).disks
    ensures id in After(ops, j).disks
    ensures Severity(After(ops, i).disks[id].state) <= Severity(After(ops, j).disks[id].state)
    decreases j
  {
    if i < j {
      SeverityNeverDrops(ops, i, j - 1, id);
      StepOnlyWorsens(After(ops, j - 1), ops[j - 1], id);
    }
  }

  // Once a disk has left Healthy and Suspect, it is never allocated from again,
  // and once it has failed it is never read again.
  lemma DenialIsForEver(ops: seq<Op>, i: nat, j: nat, id: DiskId)
    requires i <= j <= |ops| && id in After(ops, i).disks
    ensures !After(ops, i).disks[id].state.AllowsAllocation() ==> AllowsAllocation(After(ops, j), id) == Ok(false)
    ensures AllowsReads(After(ops, i), id) == Ok(false) ==> AllowsReads(After(ops, j), id) == Ok(false)
  {
    SeverityNeverDrops(ops, i, j, id);
  }

  lemma StepKeepsUnqualified(inv: Inventory, op: Op, id: DiskId)
    requires id in inv.disks && !inv.disks[id].qualification.Qualified?
    requires op != CompleteQualification(id)
    ensures id in Step(inv, op).0.disks && !Step(inv, op).0.disks[id].qualification.Qualified?
  {
  }

  // A disk that needs qualification cannot be allocated from until its
  // qualification is completed.
  lemma {:induction false} UnqualifiedNeverAllocates(ops: seq<Op>, i: nat, j: nat, id: DiskId)
    requires i <= j <= |ops| && id in After(ops, i).disks
    requires !After(ops, i).disks[id].qualification.Qualified?
    requires forall k | i <= k < j :: ops[k] != CompleteQualification(id)
    ensures id in After(ops, j).disks && !After(ops, j).disks[id].qualification.Qualified?
    ensures AllowsAllocation(After(ops, j), id) == Ok(false)
    decreases j
  {
    if i < j {
      UnqualifiedNeverAllocates(ops, i, j - 1, id);
      StepKeepsUnqualified(After(ops, j - 1), ops[j - 1], id);
    }
  }

  // ---------- Evacuation ----------

  // The disk that operation k of the run puts into the drain queue, if any.
  function Enqueued(inv: Inventory, op: Op): seq<DiskId> {
    if op.TransitionState? && op.to.Degraded? && Step(inv, op).1.Was? then [op.disk] else []
  }

  // Everything put into the queue by the first n operations, in order.
  function AllEnqueued(ops: seq<Op>, n: nat): seq<DiskId>
    requires n <= |ops|
  {
    if n == 0 then [] else AllEnqueued(ops, n - 1) + Enqueued(After(ops, n - 1), ops[n - 1])
  }

  // What an operation hands out for evacuation.
  function HandedOut(answer: Answer): seq<DiskId> {
    if answer.Taken? then answer.disks else []
  }

  // Everything handed out by the first n operations, in order.
  function AllTaken(ops: seq<Op>, n: nat): seq<DiskId>
    requires n <= |ops|
  {
    if n == 0 then []
    else AllTaken(ops, n - 1) + HandedOut(Step(After(ops, n - 1), ops[n - 1]).1)
  }

  lemma QueueStep(inv: Inventory, op: Op)
    ensures Step(inv, op).0.drainQueue == if op.TakeDrainQueue? then [] else inv.drainQueue + Enqueued(inv, op)
    ensures HandedOut(Step(inv, op).1) == if op.TakeDrainQueue? then inv.drainQueue else []
    ensures op.TakeDrainQueue? ==> Enqueued(inv, op) == []
  {
  }

  // Nothing put into the queue is lost, invented, repeated or reordered.
  lemma {:induction false} QueueConserves(ops: seq<Op>, n: nat)
    requires n <= |ops|
    ensures AllTaken(ops, n) + After(ops, n).drainQueue == AllEnqueued(ops, n)
  {
    if n > 0 {
      var inv, op := After(ops, n - 1), ops[n - 1];
      QueueConserves(ops, n - 1);
      QueueStep(inv, op);
      StillConserved(AllTaken(ops, n - 1), inv.drainQueue, AllEnqueued(ops, n - 1), HandedOut(Step(inv, op).1),
                     Step(inv, op).0.drainQueue, Enqueued(inv, op));
    }
  }

  lemma StillConserved(taken: seq<DiskId>, queue: seq<DiskId>, enqueued: seq<DiskId>,
                       out: seq<DiskId>, next: seq<DiskId>, added: seq<DiskId>)
    requires taken + queue == enqueued
    requires (out == queue && next == [] && added == []) || (out == [] && next == queue + added)
    ensures (taken + out) + next == enqueued + added
  {
  }

  lemma EnqueuedIsDraining(inv: Inventory, op: Op, id: DiskId)
    requires id in Enqueued(inv, op)
    ensures id in inv.disks && Severity(inv.disks[id].state) < Severity(Draining)
    ensures id in Step(inv, op).0.disks && Step(inv, op).0.disks[id].state.Draining?
  {
  }

  lemma {:induction false} EnqueuedStaysDraining(ops: seq<Op>, n: nat, id: DiskId)
    requires n <= |ops| && id in AllEnqueued(ops, n)
    ensures id in After(ops, n).disks && Severity(After(ops, n).disks[id].state) >= Severity(Draining)
    decreases n
  {
    var inv, op := After(ops, n - 1), ops[n - 1];
    if id in AllEnqueued(ops, n - 1) {
      EnqueuedStaysDraining(ops, n - 1, id);
      StepOnlyWorsens(inv, op, id);
    } else {
      EnqueuedIsDraining(inv, op, id);
    }
  }

  lemma EnqueuedIsNew(ops: seq<Op>, n: nat, id: DiskId)
    requires n < |ops| && id in Enqueued(After(ops, n), ops[n])
    ensures id !in AllEnqueued(ops, n)
  {
    EnqueuedIsDraining(After(ops, n), ops[n], id);
    if id in AllEnqueued(ops, n) {
      EnqueuedStaysDraining(ops, n, id);
    }
  }

  lemma DistinctAppend(ids: seq<DiskId>, id: DiskId)
    requires Distinct(ids) && id !in ids
    ensures Distinct(ids + [id])
  {
  }

  // Over a whole run, each disk is queued for evacuation at most once.
  lemma {:induction false} EnqueuedAtMostOnce(ops: seq<Op>, n: nat)
    requires n <= |ops|
    ensures Distinct(AllEnqueued(ops, n))
  {
    if n > 0 {
      EnqueuedAtMostOnce(ops, n - 1);
      var before, added := AllEnqueued(ops, n - 1), Enqueued(After(ops, n - 1), ops[n - 1]);
      if added == [] {
        assert before + added == before;
      } else {
        EnqueuedIsNew(ops, n - 1, added[0]);
        DistinctAppend(before, added[0]);
        assert added == [added[0]];
      }
    }
  }

  // ---------- Which disks are queued ----------

  predicate QueuesOnRequest(inv: Inventory, id: DiskId) {
    id in inv.disks && Severity(inv.disks[id].state) < Severity(Draining)
  }

  // The operation asks for the disk to be degraded while it is not yet draining.
  predicate QueuedBy(inv: Inventory, op: Op, id: DiskId) {
    op == TransitionState(id, Degraded) && QueuesOnRequest(inv, id)
  }

  lemma EnqueuedIff(inv: Inventory, op: Op, id: DiskId)
    ensures id in Enqueued(inv, op) <==> QueuedBy(inv, op, id)
  {
  }

  lemma {:induction false} QueuedBySome(ops: seq<Op>, n: nat, id: DiskId) returns (k: nat)
    requires n <= |ops| && id in AllEnqueued(ops, n)
    ensures k < n && QueuedBy(After(ops, k), ops[k], id)
  {
    if id in AllEnqueued(ops, n - 1) {
      k := QueuedBySome(ops, n - 1, id);
    } else {
      k := n - 1;
      EnqueuedIff(After(ops, k), ops[k], id);
    }
  }

  lemma {:induction false} QueuedIsEnqueued(ops: seq<Op>, k: nat, n: nat, id: DiskId)
    requires k < n <= |ops| && id in Enqueued(After(ops, k), ops[k])
    ensures id in AllEnqueued(ops, n)
    decreases n
  {
    if k < n - 1 {
      QueuedIsEnqueued(ops, k, n - 1, id);
    }
  }

  // Over a whole run, a disk has been queued exactly if it was asked to become
  // degraded while it was not yet draining.
  lemma {:induction false} QueuedIff(ops: seq<Op>, n: nat, id: DiskId)
    requires n <= |ops|
    ensures id in AllEnqueued(ops, n) <==> exists k :: 0 <= k < n && QueuedBy(After(ops, k), ops[k], id)
  {
    if id in AllEnqueued(ops, n) {
      var k := QueuedBySome(ops, n, id);
    }
    forall k | 0 <= k < n && QueuedBy(After(ops, k), ops[k], id) ensures id in AllEnqueued(ops, n) {
      EnqueuedIff(After(ops, k), ops[k], id);
      QueuedIsEnqueued(ops, k, n, id);
    }
  }

  // An operation that worsens a disk not yet draining queues it exactly if it is
  // the request to degrade it.
  lemma WorseningQueuesIff(inv: Inventory, op: Op, id: DiskId)
    requires QueuesOnRequest(inv, id)
    requires Severity(inv.disks[id].state) < Severity(Step(inv, op).0.disks[id].state)
    ensures id in Enqueued(inv, op) <==> op == TransitionState(id, Degraded)
    ensures Step(inv, op).0.drainQueue == inv.drainQueue + (if op == TransitionState(id, Degraded) then [id] else [])
  {
  }

  // Telemetry degrades a disk exactly if it is healthy or suspect, the errors
  // accumulated reach the degraded threshold but not the failed one, and it is
  // not critically hot.
  lemma TelemetryDegradesIff(disk: ManagedDisk, telemetry: Telemetry)
    requires !disk.state.Degraded?
    ensures var health := Accumulated(disk.health, telemetry);
            Telemetered(disk, telemetry).state.Degraded? <==>
            && disk.state.AllowsAllocation()
            && disk.policy.degradedErrors <= Errors(health) < disk.policy.failedErrors
            && (health.temperature.None? || health.temperature.value < disk.policy.criticalTemperature)
  {
  }

  lemma StepDegradesByTelemetry(inv: Inventory, op: Op, id: DiskId)
    requires id in Step(inv, op).0.disks && Step(inv, op).0.disks[id].state.Degraded?
    requires id !in inv.disks || !inv.disks[id].state.Degraded?
    ensures id in inv.disks && inv.disks[id].state.AllowsAllocation() && op.RecordTelemetry? && op.disk == id
  {
  }

  // Over a whole run, a disk that is found degraded was degraded by telemetry
  // and has never been queued.
  lemma {:induction false} DegradedIsUnqueued(ops: seq<Op>, n: nat, id: DiskId)
    requires n <= |ops| && id in After(ops, n).disks && After(ops, n).disks[id].state.Degraded?
    ensures id !in AllEnqueued(ops, n)
    ensures exists k :: 0 <= k < n && ops[k].RecordTelemetry? && ops[k].disk == id
                        && id in After(ops, k).disks && After(ops, k).disks[id].state.AllowsAllocation()
    decreases n
  {
    if id in AllEnqueued(ops, n) {
      EnqueuedStaysDraining(ops, n, id);
    }
    var before := After(ops, n - 1);
    if id in before.disks && before.disks[id].state.Degraded? {
      DegradedIsUnqueued(ops, n - 1, id);
    } else {
      StepDegradesByTelemetry(before, ops[n - 1], id);
    }
  }

  lemma TwoSteps(ops: seq<Op>, one: Inventory)
    requires |ops| == 2 && one == Step(EMPTY_INVENTORY, ops[0]).0
    ensures After(ops, 2) == Step(one, ops[1]).0
    ensures AllEnqueued(ops, 2) == Enqueued(EMPTY_INVENTORY, ops[0]) + Enqueued(one, ops[1])
  {
    assert After(ops, 0) == EMPTY_INVENTORY && After(ops, 1) == one;
    assert AllEnqueued(ops, 1) == AllEnqueued(ops, 0) + Enqueued(EMPTY_INVENTORY, ops[0]);
  }

  // So not every degraded disk is queued: any report with enough errors degrades
  // a new disk and leaves the queue empty.
  lemma TelemetryDegradesUnqueued(id: DiskId, telemetry: Telemetry, ops: seq<Op>)
    requires ops == [Discover(id, false), RecordTelemetry(id, telemetry)]
    requires DEFAULT_POLICY.degradedErrors <= Errors(telemetry) < DEFAULT_POLICY.failedErrors
    requires telemetry.temperature.None? || telemetry.temperature.value < DEFAULT_POLICY.criticalTemperature
    ensures id in After(ops, 2).disks && After(ops, 2).disks[id].state.Degraded?
    ensures AllEnqueued(ops, 2) == [] && After(ops, 2).drainQueue == []
  {
    var newDisk := NewDisk(false);
    TelemetryDegradesIff(newDisk, telemetry);
    TwoSteps(ops, Put(EMPTY_INVENTORY, id, newDisk));
  }
}
