/** One node's stores through crashes at every transaction boundary. */
module CrashSafety {
  import opened Base
  import opened Metadata
  import opened MetadataInvariants
  import Index = MetadataIndex
  import opened LogReplay
  import opened LogStores
  import opened StateStores

  // ---------- The two state machine stores, operation by operation ----------

  // Snapshots that differ at most in the running number of their id.
  predicate SameUpToId(a: Snapshot, b: Snapshot) {
    a == b.(meta := b.meta.(id := b.meta.id.(idx := a.meta.id.idx)))
  }

  predicate SameCurrent(a: Option<Snapshot>, b: Option<Snapshot>) {
    (a.None? && b.None?) || (a.Some? && b.Some? && SameUpToId(a.value, b.value))
  }

  predicate SameAnswer(a: Answer, b: Answer) {
    a == b || (a.BuiltOne? && b.BuiltOne? && SameUpToId(a.snapshot, b.snapshot))
  }

  predicate Matches(s: Store, p: DiskStore) {
    && p.data == s.data
    && Loaded(p.disk) == p.data
    && SameCurrent(s.current, p.disk.snapshot)
  }

  // Until a reopen the two agree in the snapshot numbers as well.
  predicate MatchesExactly(s: Store, p: DiskStore) {
    Matches(s, p) && p.snapshotIdx == s.snapshotIdx && p.disk.snapshot == s.current
  }

  lemma StepMatches(s: Store, p: DiskStore, op: StoreOp)
    requires Matches(s, p) && (op.OpApply? ==> Valid(s.data))
    ensures Matches(MemoryStep(s, op).0, DiskStep(p, op).0)
    ensures SameAnswer(MemoryStep(s, op).1, DiskStep(p, op).1)
    ensures op != OpReopen && MatchesExactly(s, p) ==>
            MatchesExactly(MemoryStep(s, op).0, DiskStep(p, op).0) && DiskStep(p, op).1 == MemoryStep(s, op).1
  {
  }

  // A sequence of operations, with the answers; None where entries are applied to
  // a state, loaded from some snapshot, whose tables do not fit together.
  function MemoryRun(s: Store, ops: seq<StoreOp>): Option<(Store, seq<Answer>)> {
    if ops == [] then Some((s, []))
    else
      var last := ops[|ops| - 1];
      match MemoryRun(s, ops[..|ops| - 1])
      case None => None
      case Some(before) =>
        if last.OpApply? && !Valid(before.0.data) then None
        else
          var step := MemoryStep(before.0, last);
          Some((step.0, before.1 + [step.1]))
  }

  function DiskRun(p: DiskStore, ops: seq<StoreOp>): Option<(DiskStore, seq<Answer>)> {
    if ops == [] then Some((p, []))
    else
      var last := ops[|ops| - 1];
      match DiskRun(p, ops[..|ops| - 1])
      case None => None
      case Some(before) =>
        if last.OpApply? && !Valid(before.0.data) then None
        else
          var step := DiskStep(before.0, last);
          Some((step.0, before.1 + [step.1]))
  }

  ghost predicate RunsMatch(m: (Store, seq<Answer>), d: (DiskStore, seq<Answer>), ops: seq<StoreOp>) {
    && Matches(m.0, d.0)
    && |m.1| == |d.1| == |ops|
    && (forall i | 0 <= i < |ops| :: SameAnswer(m.1[i], d.1[i]))
    && (OpReopen !in ops ==> MatchesExactly(m.0, d.0) && m.1 == d.1)
  }

  lemma RunsMatchFurther(m: (Store, seq<Answer>), d: (DiskStore, seq<Answer>), before: seq<StoreOp>, op: StoreOp)
    requires RunsMatch(m, d, before) && (op.OpApply? ==> Valid(m.0.data))
    ensures var s, p := MemoryStep(m.0, op), DiskStep(d.0, op);
            RunsMatch((s.0, m.1 + [s.1]), (p.0, d.1 + [p.1]), before + [op])
  {
    StepMatches(m.0, d.0, op);
  }

  // The persistent store, reopened at will, matches the in-memory store through
  // every sequence of operations: exactly while it is not reopened, up to the
  // running number in snapshot ids after that.
  lemma {:induction false} PersistentMatchesMemory(ops: seq<StoreOp>)
    ensures var m := MemoryRun(EMPTY_STORE, ops);
            var d := DiskRun(DiskStore(INITIAL_STATE, 0, EMPTY_DISK), ops);
            (m.None? && d.None?) || (m.Some? && d.Some? && RunsMatch(m.value, d.value, ops))
    decreases |ops|
  {
    if ops != [] {
      var before, last := ops[..|ops| - 1], ops[|ops| - 1];
      PersistentMatchesMemory(before);
      var m, d := MemoryRun(EMPTY_STORE, before), DiskRun(DiskStore(INITIAL_STATE, 0, EMPTY_DISK), before);
      if m.Some? && (last.OpApply? ==> Valid(m.value.0.data)) {
        RunsMatchFurther(m.value, d.value, before, last);
        assert ops == before + [last];
      }
    }
  }

  // What the last successful build or install left as the current snapshot.
  function LastKept(ops: seq<StoreOp>, answers: seq<Answer>): Option<Snapshot>
    requires |answers| == |ops|
  {
    if ops == [] then None
    else
      var op, answer := ops[|ops| - 1], answers[|ops| - 1];
      if op.OpBuild? && answer.BuiltOne? then Some(answer.snapshot)
      else if op.OpInstall? && answer == Installed(true) then Some(op.snapshot)
      else LastKept(ops[..|ops| - 1], answers[..|ops| - 1])
  }

  // How many snapshots the operations have built.
  function Builds(ops: seq<StoreOp>): nat {
    if ops == [] then 0 else Builds(ops[..|ops| - 1]) + (if ops[|ops| - 1].OpBuild? then 1 else 0)
  }

  // What an operation does to a store, said without the store's functions: a build
  // takes the next number and records the state, an install succeeds exactly if the
  // bytes decode and puts that state under the marks of the snapshot, and a failed
  // one changes nothing.
  lemma StoreSteps(s: Store, op: StoreOp)
    requires op.OpApply? ==> Valid(s.data)
    ensures var (t, answer) := MemoryStep(s, op);
            match op
            case OpApply(entries) =>
              t == s.(data := Replay(s.data, entries).state) && answer == Responses(Replay(s.data, entries).responses)
            case OpBuild =>
              && answer.BuiltOne? && t == s.(snapshotIdx := s.snapshotIdx + 1, current := Some(answer.snapshot))
              && answer.snapshot.raw == Encoded(s.data)
              && answer.snapshot.meta.lastLogId == s.data.lastApplied
              && answer.snapshot.meta.membership == s.data.membership
              && answer.snapshot.meta.id == SnapshotId(s.data.lastApplied, s.snapshotIdx + 1)
            case OpInstall(snapshot) =>
              if snapshot.raw.Garbage? then t == s && answer == Installed(false)
              else
                && answer == Installed(true) && t.current == Some(snapshot) && t.snapshotIdx == s.snapshotIdx
                && t.data.lastApplied == snapshot.meta.lastLogId && t.data.membership == snapshot.meta.membership
                && t.data.(lastApplied := None, membership := StoredMembership(None, {}))
                   == snapshot.raw.data.(lastApplied := None, membership := StoredMembership(None, {}))
            case OpReopen => t == s && answer == Reopened
  {
  }

  // Through any sequence of operations the store keeps the snapshot of the last
  // successful build or install, and numbers its builds one after the other.
  lemma {:induction false} CurrentIsLastKept(ops: seq<StoreOp>)
    ensures var m := MemoryRun(EMPTY_STORE, ops);
            m.Some? ==>
            && |m.value.1| == |ops|
            && m.value.0.current == LastKept(ops, m.value.1)
            && m.value.0.snapshotIdx == Builds(ops)
    decreases |ops|
  {
    if ops != [] {
      var before, last := ops[..|ops| - 1], ops[|ops| - 1];
      CurrentIsLastKept(before);
      var m := MemoryRun(EMPTY_STORE, before);
      if m.Some? && (last.OpApply? ==> Valid(m.value.0.data)) {
        StoreSteps(m.value.0, last);
        var answers := m.value.1 + [MemoryStep(m.value.0, last).1];
        assert answers[..|ops| - 1] == m.value.1;
      }
    }
  }

  // ---------- Crashes ----------

  datatype Txn = PersistTxn | SnapshotTxn(snapshot: Snapshot)

  // One node. The applying thread still owes the transactions in `todo`; the
  // snapshot builder owes `building`. `stored` is the log store on disk, and
  // `acked` counts the entries whose apply has returned.
  datatype Node = Node(
    mem: State, snapshotIdx: nat, disk: Disk, todo: seq<Txn>, building: Option<Snapshot>,
    acked: nat, stored: map<nat, Entry>, purged: nat, committed: nat)

  const FRESH_NODE := Node(INITIAL_STATE, 0, EMPTY_DISK, [], None, 0, map[], 0, 0)

  datatype Event =
    | BeginApply(count: nat)
    | BeginInstall(snapshot: Snapshot)
    | BeginBuild
    | CommitTxn
    | CommitBuild
    | FailTxn
    | FailBuild
    | Crash
    | AppendLog(entries: seq<Entry>)
    | TruncateLog(index: nat)
    | PurgeLog(index: nat)
    | Advance(count: nat)

  // The snapshot stands for the state after some prefix of the committed log.
  ghost predicate FromLog(log: seq<Entry>, snapshot: Snapshot) {
    snapshot.raw.Encoded? && Reached(log, Restored(snapshot))
  }

  ghost predicate Reached(log: seq<Entry>, s: State) {
    AppliedCount(s) <= |log| && s == At(log, AppliedCount(s))
  }

  // What consensus guarantees: entries are applied in log order once committed,
  // snapshots come from the same log and are newer than the state, and what is
  // committed is neither overwritten nor truncated. Purging is unrestricted.
  ghost predicate Enabled(log: seq<Entry>, n: Node, ev: Event)
    requires n.committed <= |log|
  {
    match ev
    case BeginApply(count) => n.todo == [] && AppliedCount(n.mem) + count <= n.committed
    case BeginInstall(snapshot) =>
      n.todo == [] && FromLog(log, snapshot) && AppliedCount(n.mem) <= AppliedCount(Restored(snapshot))
    case BeginBuild => n.building.None?
    case CommitTxn => n.todo != []
    case CommitBuild => n.building.Some?
    case FailTxn => n.todo != []
    case FailBuild => n.building.Some?
    case Crash => true
    case AppendLog(entries) => Agrees(entries, log, n.committed)
    case TruncateLog(index) => n.committed <= index
    case PurgeLog(index) => true
    case Advance(count) =>
      n.committed + count <= |log| && Holds(n.stored, log, n.purged, n.committed + count)
  }

  function RunTxn(n: Node): Node
    requires n.todo != []
  {
    match n.todo[0]
    case PersistTxn =>
      n.(disk := Persisted(n.disk, n.mem), todo := n.todo[1..],
         acked := if |n.todo| == 1 then AppliedCount(n.mem) else n.acked)
    case SnapshotTxn(snapshot) => n.(disk := WithSnapshot(n.disk, snapshot), todo := n.todo[1..])
  }

  function Next(log: seq<Entry>, n: Node, ev: Event): Node
    requires Valid(n.mem) && n.committed <= |log|
    requires ev.BeginApply? ==> AppliedCount(n.mem) + ev.count <= |log|
    requires ev.BeginInstall? ==> ev.snapshot.raw.Encoded?
    requires ev.CommitTxn? ==> n.todo != []
    requires ev.CommitBuild? ==> n.building.Some?
  {
    match ev
    case BeginApply(count) =>
      var from := AppliedCount(n.mem);
      n.(mem := Replay(n.mem, log[from..from + count]).state, todo := [PersistTxn])
    case BeginInstall(snapshot) =>
      // A node that was behind does not hold the entries the snapshot covers.
      var s := Restored(snapshot);
      n.(mem := s, todo := [PersistTxn, SnapshotTxn(snapshot)],
         purged := if n.committed < AppliedCount(s) then Max(n.purged, AppliedCount(s)) else n.purged,
         committed := Max(n.committed, AppliedCount(s)))
    case BeginBuild =>
      n.(snapshotIdx := n.snapshotIdx + 1, building := Some(Built(n.mem, n.snapshotIdx + 1)))
    case CommitTxn => RunTxn(n)
    case CommitBuild => n.(disk := WithSnapshot(n.disk, n.building.value), building := None)
    case FailTxn => n.(todo := [])
    case FailBuild => n.(building := None)
    case Crash => n.(mem := Loaded(n.disk), snapshotIdx := 0, todo := [], building := None)
    case AppendLog(entries) => n.(stored := Appended(n.stored, entries))
    case TruncateLog(index) => n.(stored := TruncatedFrom(n.stored, index))
    case PurgeLog(index) => n.(stored := PurgedUpTo(n.stored, index), purged := Max(n.purged, index + 1))
    case Advance(count) => n.(committed := n.committed + count)
  }

  // Left alone, the events of one operation do what the store's method does.
  lemma UninterruptedApply(log: seq<Entry>, n: Node, count: nat)
    requires Valid(n.mem) && n.committed <= |log| && n.todo == []
    requires AppliedCount(n.mem) + count <= |log|
    ensures var from := AppliedCount(n.mem);
            StoreOf(RunTxn(Next(log, n, BeginApply(count))))
            == DiskStep(StoreOf(n), OpApply(log[from..from + count])).0
  {
  }

  lemma UninterruptedSnapshots(log: seq<Entry>, n: Node, snapshot: Snapshot)
    requires Valid(n.mem) && n.committed <= |log| && n.todo == [] && n.building.None?
    requires snapshot.raw.Encoded? && Valid(snapshot.raw.data)
    ensures StoreOf(RunTxn(RunTxn(Next(log, n, BeginInstall(snapshot)))))
         == DiskStep(StoreOf(n), OpInstall(snapshot)).0
    ensures StoreOf(Next(log, Next(log, n, BeginBuild), CommitBuild)) == DiskStep(StoreOf(n), OpBuild).0
    ensures StoreOf(Next(log, n, Crash)) == DiskStep(StoreOf(n), OpReopen).0
  {
  }

  function StoreOf(n: Node): DiskStore {
    DiskStore(n.mem, n.snapshotIdx, n.disk)
  }

  // In memory and on disk alike there is the state after some prefix of the
  // committed log; every snapshot stands for such a state; nothing acknowledged
  // is missing on disk; the log store holds what was committed and not purged.
  ghost predicate Safe(log: seq<Entry>, n: Node) {
    && n.committed <= |log|
    && Reached(log, n.mem) && AppliedCount(n.mem) <= n.committed
    && Reached(log, Loaded(n.disk)) && AppliedCount(Loaded(n.disk)) <= AppliedCount(n.mem)
    && n.acked <= AppliedCount(Loaded(n.disk))
    && (n.disk.snapshot.Some? ==> FromLog(log, n.disk.snapshot.value))
    && (n.building.Some? ==> FromLog(log, n.building.value))
    && (forall txn | txn in n.todo && txn.SnapshotTxn? :: FromLog(log, txn.snapshot))
    && Holds(n.stored, log, n.purged, n.committed)
  }

  lemma PersistedLoads(disk: Disk, s: State)
    ensures Loaded(Persisted(disk, s)) == s
  {
  }

  lemma PrefixReached(log: seq<Entry>, k: nat)
    requires Numbered(log) && k <= |log|
    ensures Reached(log, At(log, k)) && AppliedCount(At(log, k)) == k
  {
    CountMatches(log, k);
  }

  lemma ApplyReaches(log: seq<Entry>, s: State, from: nat, to: nat)
    requires Numbered(log) && Reached(log, s) && from == AppliedCount(s) && from <= to <= |log|
    ensures Valid(s) && Replay(s, log[from..to]).state == At(log, to)
  {
    ResumeAt(log, from, to);
  }

  // A change of memory and of the owed transactions alone, to a later state of
  // the log, keeps everything else.
  lemma NewMemorySafe(log: seq<Entry>, n: Node, s: State)
    requires Safe(log, n) && Reached(log, s) && AppliedCount(n.mem) <= AppliedCount(s) <= n.committed
    ensures Safe(log, n.(mem := s, todo := [PersistTxn]))
  {
  }

  lemma BeginApplySafe(log: seq<Entry>, n: Node, count: nat)
    requires Numbered(log) && Safe(log, n) && Valid(n.mem) && Enabled(log, n, BeginApply(count))
    ensures Safe(log, Next(log, n, BeginApply(count)))
  {
    var from := AppliedCount(n.mem);
    ApplyReaches(log, n.mem, from, from + count);
    PrefixReached(log, from + count);
    NewMemorySafe(log, n, At(log, from + count));
  }

  lemma BeginInstallSafe(log: seq<Entry>, n: Node, snapshot: Snapshot)
    requires Safe(log, n) && Valid(n.mem) && Enabled(log, n, BeginInstall(snapshot))
    ensures Safe(log, Next(log, n, BeginInstall(snapshot)))
  {
  }

  lemma BeginBuildSafe(log: seq<Entry>, n: Node)
    requires Safe(log, n) && Valid(n.mem)
    ensures Safe(log, Next(log, n, BeginBuild))
  {
    BuiltRestores(n.mem, n.snapshotIdx + 1);
  }

  lemma SnapshotRowIsSeparate(disk: Disk, snapshot: Snapshot)
    ensures Loaded(WithSnapshot(disk, snapshot)) == Loaded(disk)
  {
  }

  lemma QuietEventSafe(log: seq<Entry>, n: Node, ev: Event)
    requires Safe(log, n) && Valid(n.mem) && Enabled(log, n, ev)
    requires ev.CommitBuild? || ev.FailTxn? || ev.FailBuild? || ev.Crash?
    ensures Safe(log, Next(log, n, ev))
    ensures n.acked == Next(log, n, ev).acked
  {
    if ev.CommitBuild? {
      SnapshotRowIsSeparate(n.disk, n.building.value);
    }
  }

  lemma PersistTxnSafe(log: seq<Entry>, n: Node)
    requires Safe(log, n) && n.todo != [] && n.todo[0].PersistTxn?
    ensures Safe(log, RunTxn(n)) && n.acked <= RunTxn(n).acked
  {
    PersistedLoads(n.disk, n.mem);
    assert forall txn | txn in RunTxn(n).todo :: txn in n.todo;
  }

  lemma SnapshotTxnSafe(log: seq<Entry>, n: Node)
    requires Safe(log, n) && n.todo != [] && n.todo[0].SnapshotTxn?
    ensures Safe(log, RunTxn(n)) && n.acked == RunTxn(n).acked
  {
    assert n.todo[0] in n.todo;
    assert forall txn | txn in RunTxn(n).todo :: txn in n.todo;
    SnapshotRowIsSeparate(n.disk, n.todo[0].snapshot);
  }

  lemma LogEventSafe(log: seq<Entry>, n: Node, ev: Event)
    requires Safe(log, n) && Valid(n.mem) && Enabled(log, n, ev)
    requires ev.AppendLog? || ev.TruncateLog? || ev.PurgeLog? || ev.Advance?
    ensures Safe(log, Next(log, n, ev))
    ensures n.acked == Next(log, n, ev).acked
  {
    match ev
    case AppendLog(entries) => AppendKeepsHolding(n.stored, entries, log, n.purged, n.committed);
    case TruncateLog(index) => TruncateKeepsHolding(n.stored, log, n.purged, n.committed, index);
    case PurgeLog(index) => PurgeKeepsHolding(n.stored, log, n.purged, n.committed, index);
    case Advance(count) =>
  }

  lemma EventSafe(log: seq<Entry>, n: Node, ev: Event)
    requires Numbered(log) && Safe(log, n) && Valid(n.mem) && Enabled(log, n, ev)
    ensures Safe(log, Next(log, n, ev))
    ensures n.acked <= Next(log, n, ev).acked
  {
    match ev
    case BeginApply(count) => BeginApplySafe(log, n, count);
    case BeginInstall(snapshot) => BeginInstallSafe(log, n, snapshot);
    case BeginBuild => BeginBuildSafe(log, n);
    case CommitTxn =>
      if n.todo[0].PersistTxn? {
        PersistTxnSafe(log, n);
      } else {
        SnapshotTxnSafe(log, n);
      }
    case AppendLog(_) => LogEventSafe(log, n, ev);
    case TruncateLog(_) => LogEventSafe(log, n, ev);
    case PurgeLog(_) => LogEventSafe(log, n, ev);
    case Advance(_) => LogEventSafe(log, n, ev);
    case _ => QuietEventSafe(log, n, ev);
  }

  // A run: each state follows from the one before by an event that can happen.
  ghost predicate IsRun(log: seq<Entry>, states: seq<Node>, events: seq<Event>) {
    && |states| == |events| + 1
    && states[0] == FRESH_NODE
    && forall i | 0 <= i < |events| :: Follows(log, states[i], events[i], states[i + 1])
  }

  ghost predicate Follows(log: seq<Entry>, n: Node, ev: Event, next: Node) {
    && n.committed <= |log| && Valid(n.mem)
    && Enabled(log, n, ev)
    && next == Next(log, n, ev)
  }

  // Safety over every run, with crashes at any point.
  lemma {:induction false} EveryRunIsSafe(log: seq<Entry>, states: seq<Node>, events: seq<Event>, i: nat)
    requires Numbered(log) && IsRun(log, states, events) && i <= |events|
    ensures Safe(log, states[i])
  {
    if i == 0 {
      assert log[..0] == [];
    } else {
      EveryRunIsSafe(log, states, events, i - 1);
      assert Follows(log, states[i - 1], events[i - 1], states[i]);
      EventSafe(log, states[i - 1], events[i - 1]);
    }
  }

  // No acknowledged entry is ever lost: what was acknowledged at point i is on
  // disk at every later point.
  lemma {:induction false} AcknowledgedSurvives(log: seq<Entry>, states: seq<Node>, events: seq<Event>, i: nat, j: nat)
    requires Numbered(log) && IsRun(log, states, events) && i <= j <= |events|
    ensures states[i].acked <= states[j].acked <= AppliedCount(Loaded(states[j].disk))
    decreases j
  {
    EveryRunIsSafe(log, states, events, j);
    if i < j {
      AcknowledgedSurvives(log, states, events, i, j - 1);
      EveryRunIsSafe(log, states, events, j - 1);
      assert Follows(log, states[j - 1], events[j - 1], states[j]);
      EventSafe(log, states[j - 1], events[j - 1]);
    }
  }

  // ---------- Recovery ----------

  lemma {:induction false} ReadRangeLength(stored: map<nat, Entry>, lo: nat, hi: nat)
    requires lo <= hi
    ensures |ReadRange(stored, lo, hi)| <= hi - lo
    decreases hi
  {
    if lo < hi {
      ReadRangeLength(stored, lo, hi - 1);
    }
  }

  lemma {:induction false} ReadBackIsHeld(stored: map<nat, Entry>, log: seq<Entry>, lo: nat, hi: nat)
    requires lo <= hi <= |log| && ReadRange(stored, lo, hi) == log[lo..hi]
    ensures Holds(stored, log, lo, hi)
    decreases hi
  {
    if lo < hi {
      var front := ReadRange(stored, lo, hi - 1);
      ReadRangeLength(stored, lo, hi - 1);
      assert |ReadRange(stored, lo, hi)| == hi - lo;
      assert ReadRange(stored, lo, hi)[..hi - 1 - lo] == front;
      assert log[lo..hi][..hi - 1 - lo] == log[lo..hi - 1];
      assert ReadRange(stored, lo, hi)[hi - 1 - lo] == log[hi - 1];
      ReadBackIsHeld(stored, log, lo, hi - 1);
    }
  }

  // The log store can feed a replay of entries lo .. hi-1 exactly when it still
  // holds each of them.
  lemma ReplayableIffHeld(stored: map<nat, Entry>, log: seq<Entry>, lo: nat, hi: nat)
    requires lo <= hi <= |log|
    ensures ReadRange(stored, lo, hi) == log[lo..hi] <==> Holds(stored, log, lo, hi)
  {
    if Holds(stored, log, lo, hi) {
      ReadHeld(stored, log, lo, hi);
    } else if ReadRange(stored, lo, hi) == log[lo..hi] {
      ReadBackIsHeld(stored, log, lo, hi);
    }
  }

  // Whether opening the disk and replaying the committed entries it lacks, read
  // from the log store, gives the state and the answers of a run that was never
  // interrupted.
  ghost predicate Recovers(log: seq<Entry>, n: Node)
    requires n.committed <= |log|
  {
    var s := Loaded(n.disk);
    var from := AppliedCount(s);
    && from <= n.committed && Valid(s)
    && Replay(s, ReadRange(n.stored, from, n.committed))
       == Outcome(At(log, n.committed), Replay(INITIAL_STATE, log[..n.committed]).responses[from..])
  }

  lemma SafeRecovers(log: seq<Entry>, n: Node)
    requires Numbered(log) && Safe(log, n)
    requires Holds(n.stored, log, AppliedCount(Loaded(n.disk)), n.committed)
    ensures Recovers(log, n)
  {
    var from := AppliedCount(Loaded(n.disk));
    ReplayableIffHeld(n.stored, log, from, n.committed);
    ResumeAt(log, from, n.committed);
  }

  // A crash at any point of any run is recovered from if the log store still
  // holds the committed entries that the disk state lacks.
  lemma CrashRecovery(log: seq<Entry>, states: seq<Node>, events: seq<Event>, i: nat)
    requires Numbered(log) && IsRun(log, states, events) && i <= |events|
    ensures var n := states[i];
            && n.committed <= |log| && AppliedCount(Loaded(n.disk)) <= n.committed
            && (Holds(n.stored, log, AppliedCount(Loaded(n.disk)), n.committed) ==> Recovers(log, n))
  {
    EveryRunIsSafe(log, states, events, i);
    if Holds(states[i].stored, log, AppliedCount(Loaded(states[i].disk)), states[i].committed) {
      SafeRecovers(log, states[i]);
    }
  }

  // In particular if none of them has been purged.
  lemma UnpurgedRecovers(log: seq<Entry>, states: seq<Node>, events: seq<Event>, i: nat)
    requires Numbered(log) && IsRun(log, states, events) && i <= |events|
    requires states[i].purged <= AppliedCount(Loaded(states[i].disk))
    ensures states[i].committed <= |log| && Recovers(log, states[i])
  {
    EveryRunIsSafe(log, states, events, i);
    CrashRecovery(log, states, events, i);
  }

  lemma ResendingHolds(log: seq<Entry>, n: Node)
    requires Numbered(log) && Safe(log, n) && Valid(n.mem)
    ensures var from := AppliedCount(Loaded(n.disk));
            var resend := AppendLog(log[from..n.committed]);
            Enabled(log, n, resend) && Holds(Next(log, n, resend).stored, log, from, n.committed)
  {
    var from := AppliedCount(Loaded(n.disk));
    AppendExtends(n.stored, log[from..n.committed], log, from, from);
  }

  // And whatever has been purged, at any point of any run the missing entries can
  // be sent again, after which the node recovers.
  lemma ResendingRecovers(log: seq<Entry>, states: seq<Node>, events: seq<Event>, i: nat)
    requires Numbered(log) && IsRun(log, states, events) && i <= |events|
    ensures var n := states[i];
            && n.committed <= |log| && AppliedCount(Loaded(n.disk)) <= n.committed && Valid(n.mem)
            && var resend := AppendLog(log[AppliedCount(Loaded(n.disk))..n.committed]);
            && Enabled(log, n, resend) && Recovers(log, Next(log, n, resend))
  {
    EveryRunIsSafe(log, states, events, i);
    var n := states[i];
    var resend := AppendLog(log[AppliedCount(Loaded(n.disk))..n.committed]);
    ValidReached(log, n.mem);
    ResendingHolds(log, n);
    LogEventSafe(log, n, resend);
    SafeRecovers(log, Next(log, n, resend));
  }

  lemma ValidReached(log: seq<Entry>, s: State)
    requires Reached(log, s)
    ensures Valid(s)
  {
  }

  // Storing the next entries of the log makes it possible to commit them.
  lemma StoringEnablesCommit(log: seq<Entry>, n: Node, count: nat)
    requires Numbered(log) && Safe(log, n) && Valid(n.mem) && n.committed + count <= |log|
    ensures var store := AppendLog(log[n.committed..n.committed + count]);
            Enabled(log, n, store) && Enabled(log, Next(log, n, store), Advance(count))
  {
    AppendExtends(n.stored, log[n.committed..n.committed + count], log, n.purged, n.committed);
  }

  // Through all of this, memory, disk and snapshots carry the raft marks of the log
  // up to where they stand: the id of the last entry, and the voters of the last
  // membership entry.
  lemma NodesKeepMarks(log: seq<Entry>, states: seq<Node>, events: seq<Event>, i: nat)
    requires Numbered(log) && IsRun(log, states, events) && i <= |events|
    ensures var n := states[i];
            && AppliedCount(n.mem) <= |log| && MarksOf(log, AppliedCount(n.mem), n.mem)
            && AppliedCount(Loaded(n.disk)) <= |log| && MarksOf(log, AppliedCount(Loaded(n.disk)), Loaded(n.disk))
            && (n.disk.snapshot.Some? ==>
                  && n.disk.snapshot.value.raw.Encoded?
                  && var s := Restored(n.disk.snapshot.value);
                  && AppliedCount(s) <= |log| && MarksOf(log, AppliedCount(s), s))
  {
    EveryRunIsSafe(log, states, events, i);
    var n := states[i];
    MarksFollowLog(log, AppliedCount(n.mem));
    MarksFollowLog(log, AppliedCount(Loaded(n.disk)));
    if n.disk.snapshot.Some? {
      MarksFollowLog(log, AppliedCount(Restored(n.disk.snapshot.value)));
    }
  }

  // Through all of this, what a node serves and what it would recover are well
  // formed, with sound indexes.
  lemma NodesStayWellFormed(log: seq<Entry>, states: seq<Node>, events: seq<Event>, i: nat)
    requires Numbered(log) && IsRun(log, states, events) && i <= |events|
    ensures WellFormed(states[i].mem) && Index.Sound(states[i].mem.catalog)
    ensures WellFormed(Loaded(states[i].disk)) && Index.Sound(Loaded(states[i].disk).catalog)
  {
    EveryRunIsSafe(log, states, events, i);
    var n := states[i];
    ReplayedIsWellFormed(log[..AppliedCount(n.mem)]);
    ReplayedIsWellFormed(log[..AppliedCount(Loaded(n.disk))]);
  }

  // Two nodes that have applied equally many entries of the log hold the same
  // state, whatever batches, snapshots and crashes brought them there.
  lemma NodesAgree(log: seq<Entry>, states: seq<Node>, events: seq<Event>, i: nat,
                   others: seq<Node>, otherEvents: seq<Event>, j: nat)
    requires Numbered(log)
    requires IsRun(log, states, events) && i <= |events|
    requires IsRun(log, others, otherEvents) && j <= |otherEvents|
    requires AppliedCount(states[i].mem) == AppliedCount(others[j].mem)
    ensures states[i].mem == others[j].mem
  {
    EveryRunIsSafe(log, states, events, i);
    EveryRunIsSafe(log, others, otherEvents, j);
  }
}
