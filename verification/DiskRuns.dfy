/** What each operation makes of a disk, and what a run's reports and requests add up to. */
module DiskRuns {
  import opened Base
  import opened DiskStates
  import opened DiskLifecycle

  // ---------- One operation ----------

  // The legal transitions: to the state itself, between healthy and suspect, and to
  // any worse state, except that a disk is removed only once it is degraded.
  lemma TransitionRule(from: DiskState, to: DiskState)
    ensures from.CanBecome(to) <==>
            || from == to
            || (Severity(from) == 0 && Severity(to) == 0)
            || (Severity(from) < Severity(to) && (to.Removed? ==> Severity(from) > 0))
  {
  }

  // No operation touches any other disk.
  lemma OtherDisksStay(inv: Inventory, op: Op, id: DiskId)
    requires op.TakeDrainQueue? || op.disk != id
    ensures id in Step(inv, op).0.disks <==> id in inv.disks
    ensures id in inv.disks ==> Step(inv, op).0.disks[id] == inv.disks[id]
  {
  }

  // Why an operation is refused: the disk is unknown, or known already, or what is
  // asked for is not possible from where it stands. A refusal changes nothing.
  lemma RefusedIff(inv: Inventory, op: Op)
    requires !op.TakeDrainQueue?
    ensures var (next, answer) := Step(inv, op);
            && (answer == Refused(DuplicateDisk) <==> op.Discover? && op.disk in inv.disks)
            && (answer == Refused(UnknownDisk) <==> !op.Discover? && op.disk !in inv.disks)
            && (answer == Refused(InvalidTransition) <==>
                  && op.disk in inv.disks
                  && (|| (op.TransitionState? && !inv.disks[op.disk].state.CanBecome(op.to))
                      || (op.StartBurnIn? && !inv.disks[op.disk].qualification.Pending?)))
            && (answer.Refused? ==> next == inv)
            && (!answer.Refused? ==>
                  op.disk in next.disks
                  && answer == if op.TransitionState? then Was(inv.disks[op.disk].state) else Fine)
  {
  }

  // A transition that is not refused leaves the disk in the state asked for, or
  // draining if that was degraded, and the rest of its record alone.
  lemma TransitionOutcome(inv: Inventory, id: DiskId, to: DiskState)
    requires id in inv.disks && inv.disks[id].state.CanBecome(to)
    ensures Step(inv, TransitionState(id, to)).0.disks[id]
         == inv.disks[id].(state := if to.Degraded? then Draining else to)
  {
  }

  // How a disk starts, goes through burn-in and is qualified.
  lemma QualificationOutcome(inv: Inventory, id: DiskId, require: bool, now: nat)
    ensures id !in inv.disks ==>
            Step(inv, Discover(id, require)).0.disks[id]
            == ManagedDisk(if require then Suspect else Healthy, if require then Pending else Qualified,
                           NO_TELEMETRY, DEFAULT_POLICY)
    ensures id in inv.disks && inv.disks[id].qualification.Pending? ==>
            Step(inv, StartBurnIn(id, now)).0.disks[id] == inv.disks[id].(qualification := BurnInRunning(now))
    ensures id in inv.disks ==>
            var disk := inv.disks[id];
            Step(inv, CompleteQualification(id)).0.disks[id]
            == if disk.qualification.Qualified? then disk
               else disk.(qualification := Qualified, state := if disk.state.Suspect? then Healthy else disk.state)
  {
  }

  // ---------- Telemetry ----------

  predicate HotFrom(t: Telemetry, limit: nat) {
    t.temperature.Some? && t.temperature.value >= limit
  }

  // The health calls for failing the disk.
  predicate CallsFailed(t: Telemetry, policy: HealthPolicy) {
    Errors(t) >= policy.failedErrors || HotFrom(t, policy.criticalTemperature)
  }

  predicate CallsSuspect(t: Telemetry, policy: HealthPolicy) {
    Errors(t) >= policy.suspectErrors || HotFrom(t, policy.warningTemperature)
  }

  // For every policy, history and state: which state a report leaves the disk in.
  lemma TelemetryOutcome(disk: ManagedDisk, telemetry: Telemetry)
    ensures var health := Accumulated(disk.health, telemetry);
            var failing, degrading := CallsFailed(health, disk.policy), Errors(health) >= disk.policy.degradedErrors;
            var next := Telemetered(disk, telemetry);
            && next == disk.(health := health, state := next.state)
            && (next.state.Failed? <==> disk.state.Failed? || (failing && !disk.state.Removed?))
            && (next.state.Degraded? <==>
                  !failing && (disk.state.Degraded? || (degrading && disk.state.AllowsAllocation())))
            && (next.state.Suspect? <==>
                  && !failing && !degrading
                  && (disk.state.Suspect? || (disk.state.Healthy? && CallsSuspect(health, disk.policy))))
            && (next.state.Healthy? <==>
                  disk.state.Healthy? && !failing && !degrading && !CallsSuspect(health, disk.policy))
            && (next.state.Draining? <==> disk.state.Draining? && !failing)
            && (next.state.Removed? <==> disk.state.Removed?)
  {
  }

  // All errors reported for the disk since it was discovered.
  function TotalErrors(ops: seq<Op>, n: nat, id: DiskId): nat
    requires n <= |ops|
  {
    if n == 0 then 0
    else TotalErrors(ops, n - 1, id) + (if Reports(ops, n - 1, id) then Errors(ops[n - 1].telemetry) else 0)
  }

  // Operation k reports telemetry of the disk, which is known.
  predicate Reports(ops: seq<Op>, k: nat, id: DiskId)
    requires k < |ops|
  {
    ops[k].RecordTelemetry? && ops[k].disk == id && id in After(ops, k).disks
  }

  // The temperature last reported for the disk.
  function LastTemperature(ops: seq<Op>, n: nat, id: DiskId): Option<nat>
    requires n <= |ops|
  {
    if n == 0 then None
    else if Reports(ops, n - 1, id) && ops[n - 1].telemetry.temperature.Some? then ops[n - 1].telemetry.temperature
    else LastTemperature(ops, n - 1, id)
  }

  // Each count is added up; of temperature and latency the last report stands.
  lemma AccumulatedErrors(t: Telemetry, more: Telemetry)
    ensures var sum := Accumulated(t, more);
            && sum.readErrors == t.readErrors + more.readErrors && sum.writeErrors == t.writeErrors + more.writeErrors
            && sum.checksumMismatches == t.checksumMismatches + more.checksumMismatches
            && sum.mediaErrors == t.mediaErrors + more.mediaErrors && sum.timeouts == t.timeouts + more.timeouts
            && Errors(sum) == Errors(t) + Errors(more)
            && sum.temperature == (if more.temperature.Some? then more.temperature else t.temperature)
            && sum.latencyP99Us == (if more.latencyP99Us.Some? then more.latencyP99Us else t.latencyP99Us)
  {
  }

  lemma StepHealth(inv: Inventory, op: Op, id: DiskId)
    requires id in Step(inv, op).0.disks
    ensures var disk := Step(inv, op).0.disks[id];
            if id !in inv.disks then disk.health == NO_TELEMETRY && disk.policy == DEFAULT_POLICY
            else
              && disk.policy == inv.disks[id].policy
              && disk.health == (if op.RecordTelemetry? && op.disk == id
                                 then Accumulated(inv.disks[id].health, op.telemetry) else inv.disks[id].health)
  {
  }

  lemma StepKnown(inv: Inventory, op: Op, id: DiskId)
    requires id in Step(inv, op).0.disks && id !in inv.disks
    ensures op.Discover? && op.disk == id
  {
  }

  lemma {:induction false} UnknownHasNothing(ops: seq<Op>, n: nat, id: DiskId)
    requires n <= |ops| && id !in After(ops, n).disks
    ensures TotalErrors(ops, n, id) == 0 && LastTemperature(ops, n, id).None?
  {
    if n > 0 {
      if id in After(ops, n - 1).disks {
        StepOnlyWorsens(After(ops, n - 1), ops[n - 1], id);
      }
      UnknownHasNothing(ops, n - 1, id);
    }
  }

  // In any run, the errors kept of a disk are the sum over all reports since its
  // discovery, and the temperature is the last one reported.
  lemma {:induction false} HealthAddsUp(ops: seq<Op>, n: nat, id: DiskId)
    requires n <= |ops| && id in After(ops, n).disks
    ensures var disk := After(ops, n).disks[id];
            && Errors(disk.health) == TotalErrors(ops, n, id)
            && disk.health.temperature == LastTemperature(ops, n, id)
            && disk.policy == DEFAULT_POLICY
    decreases n
  {
    var inv, op := After(ops, n - 1), ops[n - 1];
    StepHealth(inv, op, id);
    if id in inv.disks {
      HealthAddsUp(ops, n - 1, id);
      if op.RecordTelemetry? && op.disk == id {
        AccumulatedErrors(inv.disks[id].health, op.telemetry);
      }
    } else {
      StepKnown(inv, op, id);
      UnknownHasNothing(ops, n - 1, id);
    }
  }

  lemma FailingReport(ops: seq<Op>, k: nat, id: DiskId)
    requires k < |ops| && Reports(ops, k, id)
    requires TotalErrors(ops, k + 1, id) >= DEFAULT_POLICY.failedErrors
          || (LastTemperature(ops, k + 1, id).Some?
              && LastTemperature(ops, k + 1, id).value >= DEFAULT_POLICY.criticalTemperature)
    ensures id in After(ops, k + 1).disks
    ensures Severity(After(ops, k + 1).disks[id].state) >= Severity(Failed)
  {
    var inv := After(ops, k);
    StepOnlyWorsens(inv, ops[k], id);
    HealthAddsUp(ops, k, id);
    HealthAddsUp(ops, k + 1, id);
    StepHealth(inv, ops[k], id);
    TelemetryOutcome(inv.disks[id], ops[k].telemetry);
  }

  lemma {:induction false} LastCounted(ops: seq<Op>, n: nat, id: DiskId) returns (k: nat)
    requires n <= |ops| && TotalErrors(ops, n, id) > 0
    ensures k < n && Reports(ops, k, id) && TotalErrors(ops, k + 1, id) == TotalErrors(ops, n, id)
  {
    if Reports(ops, n - 1, id) {
      k := n - 1;
    } else {
      k := LastCounted(ops, n - 1, id);
    }
  }

  // A disk whose reports add up to the failed threshold is not read from again.
  lemma EnoughErrorsDenyReads(ops: seq<Op>, n: nat, id: DiskId)
    requires n <= |ops| && TotalErrors(ops, n, id) >= DEFAULT_POLICY.failedErrors
    ensures AllowsReads(After(ops, n), id) == Ok(false)
  {
    var k := LastCounted(ops, n, id);
    FailingReport(ops, k, id);
    SeverityNeverDrops(ops, k + 1, n, id);
  }

  // Nor is a disk that was once reported critically hot.
  lemma HeatDeniesReads(ops: seq<Op>, k: nat, n: nat, id: DiskId)
    requires k < n <= |ops| && Reports(ops, k, id)
    requires HotFrom(ops[k].telemetry, DEFAULT_POLICY.criticalTemperature)
    ensures AllowsReads(After(ops, n), id) == Ok(false)
  {
    FailingReport(ops, k, id);
    SeverityNeverDrops(ops, k + 1, n, id);
  }

  // ---------- Reads and allocation ----------

  // Operation k discovers the disk without qualification, or completes it.
  ghost predicate Qualifies(ops: seq<Op>, k: nat, id: DiskId)
    requires k < |ops|
  {
    || (ops[k] == Discover(id, false) && id !in After(ops, k).disks)
    || (ops[k] == CompleteQualification(id) && id in After(ops, k).disks)
  }

  lemma StepQualifies(ops: seq<Op>, k: nat, id: DiskId)
    requires k < |ops| && id in After(ops, k + 1).disks
    ensures After(ops, k + 1).disks[id].qualification.Qualified? <==>
            || Qualifies(ops, k, id)
            || (id in After(ops, k).disks && After(ops, k).disks[id].qualification.Qualified?)
  {
  }

  lemma {:induction false} QualifiedBy(ops: seq<Op>, n: nat, id: DiskId) returns (k: nat)
    requires n <= |ops| && id in After(ops, n).disks && After(ops, n).disks[id].qualification.Qualified?
    ensures k < n && Qualifies(ops, k, id)
  {
    StepQualifies(ops, n - 1, id);
    if Qualifies(ops, n - 1, id) {
      k := n - 1;
    } else {
      k := QualifiedBy(ops, n - 1, id);
    }
  }

  lemma {:induction false} StaysQualified(ops: seq<Op>, k: nat, n: nat, id: DiskId)
    requires k < n <= |ops| && Qualifies(ops, k, id)
    ensures id in After(ops, n).disks && After(ops, n).disks[id].qualification.Qualified?
    decreases n
  {
    if k < n - 1 {
      StaysQualified(ops, k, n - 1, id);
      StepOnlyWorsens(After(ops, n - 1), ops[n - 1], id);
      StepQualifies(ops, n - 1, id);
    }
  }

  // In any run a disk is allocated from exactly if it was discovered as qualified or
  // its qualification was completed, and it is healthy or suspect; it is read from
  // exactly if it is neither failed nor removed.
  lemma {:induction false} PermissionsIff(ops: seq<Op>, n: nat, id: DiskId)
    requires n <= |ops|
    ensures var inv := After(ops, n);
            if id !in inv.disks then
              AllowsAllocation(inv, id) == Err(UnknownDisk) && AllowsReads(inv, id) == Err(UnknownDisk)
            else
              && AllowsAllocation(inv, id).Ok? && AllowsReads(inv, id).Ok?
              && (AllowsAllocation(inv, id).value <==>
                    && (exists k :: 0 <= k < n && Qualifies(ops, k, id))
                    && (inv.disks[id].state.Healthy? || inv.disks[id].state.Suspect?))
              && (AllowsReads(inv, id).value <==> !inv.disks[id].state.Failed? && !inv.disks[id].state.Removed?)
  {
    var inv := After(ops, n);
    if id in inv.disks && inv.disks[id].qualification.Qualified? {
      var k := QualifiedBy(ops, n, id);
    }
    forall k | 0 <= k < n && Qualifies(ops, k, id)
      ensures id in inv.disks && inv.disks[id].qualification.Qualified?
    {
      StaysQualified(ops, k, n, id);
    }
  }
}
