/** The state machine store, in memory and on disk, with its snapshots. */
module StateStores {
  import opened Base
  import opened Metadata
  import opened MetadataMachine
  import opened LogReplay

  // A serialized value: bytes that decode to it, or bytes that do not decode.
  // Encoding then decoding gives the value back.
  datatype Raw<T> = Encoded(data: T) | Garbage

  datatype SnapshotId = SnapshotId(last: Option<LogId>, idx: nat)

  datatype SnapshotMeta = SnapshotMeta(lastLogId: Option<LogId>, membership: StoredMembership, id: SnapshotId)

  datatype Snapshot = Snapshot(meta: SnapshotMeta, raw: Raw<State>)

  // ---------- What either store does ----------

  datatype Store = Store(data: State, snapshotIdx: nat, current: Option<Snapshot>)

  const EMPTY_STORE := Store(INITIAL_STATE, 0, None)

  function Built(data: State, idx: nat): Snapshot {
    Snapshot(SnapshotMeta(data.lastApplied, data.membership, SnapshotId(data.lastApplied, idx)), Encoded(data))
  }

  function StoreBuild(s: Store): (Store, Snapshot) {
    var snapshot := Built(s.data, s.snapshotIdx + 1);
    (s.(snapshotIdx := s.snapshotIdx + 1, current := Some(snapshot)), snapshot)
  }

  // The state a snapshot stands for: its data under its own raft marks.
  function Restored(snapshot: Snapshot): State
    requires snapshot.raw.Encoded?
  {
    snapshot.raw.data.(lastApplied := snapshot.meta.lastLogId, membership := snapshot.meta.membership)
  }

  function StoreInstall(s: Store, snapshot: Snapshot): (Store, bool) {
    if snapshot.raw.Garbage? then (s, false)
    else (s.(data := Restored(snapshot), current := Some(snapshot)), true)
  }

  function StoreApply(s: Store, entries: seq<Entry>): (Store, seq<Response>)
    requires Valid(s.data)
  {
    var r := Replay(s.data, entries);
    (s.(data := r.state), r.responses)
  }

  datatype StoreOp =
    | OpApply(entries: seq<Entry>)
    | OpBuild
    | OpInstall(snapshot: Snapshot)
    | OpReopen

  datatype Answer = Responses(responses: seq<Response>) | BuiltOne(snapshot: Snapshot) | Installed(ok: bool) | Reopened

  function MemoryStep(s: Store, op: StoreOp): (Store, Answer)
    requires op.OpApply? ==> Valid(s.data)
  {
    match op
    case OpApply(entries) => var (t, responses) := StoreApply(s, entries); (t, Responses(responses))
    case OpBuild => var (t, snapshot) := StoreBuild(s); (t, BuiltOne(snapshot))
    case OpInstall(snapshot) => var (t, ok) := StoreInstall(s, snapshot); (t, Installed(ok))
    case OpReopen => (s, Reopened)
  }

  // Apply a list of entries to the shared state machine, collecting responses.
  method ApplyEntries(data: MetadataStateMachine, entries: seq<Entry>) returns (responses: seq<Response>)
    requires data.Valid()
    modifies data
    ensures data.Valid()
    ensures Outcome(data.Value(), responses) == Replay(old(data.Value()), entries)
  {
    responses := [];
    for i := 0 to |entries|
      invariant data.Valid()
      invariant Outcome(data.Value(), responses) == Replay(old(data.Value()), entries[..i])
    {
      ReplayOneMore(old(data.Value()), entries, i);
      ghost var before := data.Value();
      data.lastApplied := Some(entries[i].logId);
      assert data.Value() == before.(lastApplied := Some(entries[i].logId));
      match entries[i].payload
      case Blank =>
        responses := responses + [Done];
      case Normal(req) =>
        var resp := data.ApplyRequest(req);
        responses := responses + [resp];
      case Membership(voters) =>
        data.membership := StoredMembership(Some(entries[i].logId), voters);
        responses := responses + [Done];
    }
    assert entries[..|entries|] == entries;
  }

  class StateMachineStore {
    const data: MetadataStateMachine
    var snapshotIdx: nat
    var current: Option<Snapshot>

    function Value(): Store
      reads this, data
    {
      Store(data.Value(), snapshotIdx, current)
    }

    constructor ()
      ensures Value() == EMPTY_STORE && fresh(data)
    {
      data := new MetadataStateMachine();
      snapshotIdx, current := 0, None;
    }

    method ApplyBatch(entries: seq<Entry>) returns (responses: seq<Response>)
      requires data.Valid()
      modifies data
      ensures (Value(), Responses(responses)) == MemoryStep(old(Value()), OpApply(entries))
    {
      responses := ApplyEntries(data, entries);
    }

    method BuildSnapshot() returns (snapshot: Snapshot)
      modifies this
      ensures (Value(), BuiltOne(snapshot)) == MemoryStep(old(Value()), OpBuild)
    {
      var state := data.Value();
      snapshotIdx := snapshotIdx + 1;
      snapshot := Built(state, snapshotIdx);
      current := Some(snapshot);
    }

    method InstallSnapshot(snapshot: Snapshot) returns (ok: bool)
      modifies this, data
      ensures (Value(), Installed(ok)) == MemoryStep(old(Value()), OpInstall(snapshot))
    {
      if snapshot.raw.Garbage? {
        return false;
      }
      data.Load(Restored(snapshot));
      current := Some(snapshot);
      ok := true;
    }
  }

  // ---------- The store on disk ----------

  // The state machine table has three rows, written in one transaction; the
  // snapshot table is written in transactions of its own.
  datatype Disk = Disk(
    dataRow: Option<Raw<State>>, lastAppliedRow: Option<Raw<Option<LogId>>>,
    membershipRow: Option<Raw<StoredMembership>>, snapshot: Option<Snapshot>)

  const EMPTY_DISK := Disk(None, None, None, None)

  function Persisted(disk: Disk, s: State): Disk {
    Disk(Some(Encoded(s)), Some(Encoded(s.lastApplied)), Some(Encoded(s.membership)), disk.snapshot)
  }

  function WithSnapshot(disk: Disk, snapshot: Snapshot): Disk {
    disk.(snapshot := Some(snapshot))
  }

  // A row, if it is there and decodes, else what is held already.
  function RowOr<T>(row: Option<Raw<T>>, held: T): T {
    if row.Some? && row.value.Encoded? then row.value.data else held
  }

  // The state that opening the store loads.
  function Loaded(disk: Disk): State {
    var data := RowOr(disk.dataRow, INITIAL_STATE);
    data.(lastApplied := RowOr(disk.lastAppliedRow, data.lastApplied),
          membership := RowOr(disk.membershipRow, data.membership))
  }

  datatype DiskStore = DiskStore(data: State, snapshotIdx: nat, disk: Disk)

  function DiskStep(p: DiskStore, op: StoreOp): (DiskStore, Answer)
    requires op.OpApply? ==> Valid(p.data)
  {
    match op
    case OpApply(entries) =>
      var r := Replay(p.data, entries);
      (DiskStore(r.state, p.snapshotIdx, Persisted(p.disk, r.state)), Responses(r.responses))
    case OpBuild =>
      var snapshot := Built(p.data, p.snapshotIdx + 1);
      (DiskStore(p.data, p.snapshotIdx + 1, WithSnapshot(p.disk, snapshot)), BuiltOne(snapshot))
    case OpInstall(snapshot) =>
      if snapshot.raw.Garbage? then (p, Installed(false))
      else
        var s := Restored(snapshot);
        (DiskStore(s, p.snapshotIdx, WithSnapshot(Persisted(p.disk, s), snapshot)), Installed(true))
    case OpReopen => (DiskStore(Loaded(p.disk), 0, p.disk), Reopened)
  }

  class PersistentStateMachineStore {
    var disk: Disk
    const data: MetadataStateMachine
    var snapshotIdx: nat

    function Value(): DiskStore
      reads this, data
    {
      DiskStore(data.Value(), snapshotIdx, disk)
    }

    constructor Open(disk: Disk)
      ensures Value() == DiskStore(Loaded(disk), 0, disk) && fresh(data)
    {
      this.disk := disk;
      data := new MetadataStateMachine();
      snapshotIdx := 0;
      new;
      data.Load(Loaded(disk));
    }

    method PersistState()
      modifies this`disk
      ensures disk == Persisted(old(disk), data.Value())
    {
      var state := data.Value();
      disk := Persisted(disk, state);
    }

    method ApplyBatch(entries: seq<Entry>) returns (responses: seq<Response>)
      requires data.Valid()
      modifies this`disk, data
      ensures (Value(), Responses(responses)) == DiskStep(old(Value()), OpApply(entries))
    {
      responses := ApplyEntries(data, entries);
      PersistState();
    }

    method BuildSnapshot() returns (snapshot: Snapshot)
      modifies this
      ensures (Value(), BuiltOne(snapshot)) == DiskStep(old(Value()), OpBuild)
    {
      var state := data.Value();
      snapshotIdx := snapshotIdx + 1;
      snapshot := Built(state, snapshotIdx);
      disk := WithSnapshot(disk, snapshot);
    }

    method InstallSnapshot(snapshot: Snapshot) returns (ok: bool)
      modifies this`disk, data
      ensures (Value(), Installed(ok)) == DiskStep(old(Value()), OpInstall(snapshot))
    {
      if snapshot.raw.Garbage? {
        return false;
      }
      data.Load(Restored(snapshot));
      PersistState();
      disk := WithSnapshot(disk, snapshot);
      ok := true;
    }
  }

  // ---------- Opening a damaged store ----------

  // A row that is missing or does not decode.
  predicate Damaged<T>(row: Option<Raw<T>>) {
    row.None? || row.value.Garbage?
  }

  // The marks are stored twice, so damage to their own rows loses nothing. Without
  // the data row only the marks are left, on an otherwise empty state.
  lemma DamageOutcome(disk: Disk, s: State, damaged: Disk)
    requires disk == Persisted(damaged, s)
    requires damaged.dataRow == disk.dataRow || Damaged(damaged.dataRow)
    requires damaged.lastAppliedRow == disk.lastAppliedRow || Damaged(damaged.lastAppliedRow)
    requires damaged.membershipRow == disk.membershipRow || Damaged(damaged.membershipRow)
    ensures damaged.dataRow == disk.dataRow ==> Loaded(damaged) == s
    ensures damaged.dataRow != disk.dataRow ==>
            Loaded(damaged)
            == INITIAL_STATE.(
                 lastApplied := if damaged.lastAppliedRow == disk.lastAppliedRow then s.lastApplied else None,
                 membership := if damaged.membershipRow == disk.membershipRow then s.membership
                               else StoredMembership(None, {}))
  {
  }

  // ---------- Snapshots are transparent ----------

  lemma BuiltRestores(s: State, idx: nat)
    ensures Restored(Built(s, idx)) == s
  {
  }

  // Whatever a store held before, installing a snapshot built after n entries
  // and applying the entries up to m leaves it as full replay does, raft marks
  // included, and gives the same responses.
  lemma SnapshotThenSuffix(log: seq<Entry>, n: nat, m: nat, idx: nat, before: Store)
    requires n <= m <= |log|
    ensures var installed := StoreInstall(before, Built(At(log, n), idx)).0;
            && Valid(installed.data)
            && StoreApply(installed, log[n..m]).0.data == At(log, m)
            && StoreApply(installed, log[n..m]).1 == Replay(INITIAL_STATE, log[..m]).responses[n..]
  {
    BuiltRestores(At(log, n), idx);
    ResumeAt(log, n, m);
  }
}
