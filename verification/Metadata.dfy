/** The replicated metadata state and its transition function. */
module Metadata {
  import opened Base
  import opened DiskStates

  // ---------- Stored records ----------

  datatype ProtectionPolicy =
    | Replicated(replicas: nat)
    | ErasureCoded(dataChunks: nat, parityChunks: nat)
  {
    predicate IsValid() {
      match this
      case Replicated(n) => n >= 1
      case ErasureCoded(k, m) => k >= 1 && m >= 1
    }
  }

  datatype VolumeMetadata = VolumeMetadata(
    volumeId: VolumeId, sizeBytes: nat, protection: ProtectionPolicy,
    extentSize: nat, createdAtEpoch: nat)

  datatype BlockRange = BlockRange(start: nat, end: nat)

  datatype ExtentMapping = ExtentMapping(
    extentId: ExtentId, extentVersion: nat, epoch: nat, blockRange: BlockRange,
    replicaLocations: seq<NodeId>, checksums: seq<seq<bv8>>,
    operationId: Option<OperationId>)

  datatype ClusterNode = ClusterNode(nodeId: NodeId, addr: string)

  datatype ClusterDisk = ClusterDisk(
    diskId: DiskId, nodeId: NodeId, capacityBytes: nat, usedBytes: nat, state: DiskState)

  datatype VolumeLease = VolumeLease(
    volumeId: VolumeId, holder: SessionId, grantedAtMs: nat, expiresAtMs: nat, version: nat)
  {
    predicate IsExpired(nowMs: nat) {
      nowMs >= expiresAtMs
    }

    predicate IsHeldBy(session: SessionId) {
      holder == session
    }
  }

  // Raft's own bookkeeping, carried with the data.
  datatype LogId = LogId(term: nat, leader: nat, index: nat)
  datatype StoredMembership = StoredMembership(logId: Option<LogId>, voters: set<nat>)

  // A block slot: a volume and the start of a block range in it.
  type Slot = (VolumeId, nat)

  // Volumes, their extent mappings, and the two indexes into the mappings.
  datatype Catalog = Catalog(
    volumes: map<VolumeId, VolumeMetadata>,
    mappings: map<VolumeId, map<nat, ExtentMapping>>,
    operationIndex: map<OperationId, Slot>,
    versionIndex: map<nat, Slot>)

  // The leases now held, and the last lease version issued.
  datatype LeaseTable = LeaseTable(held: map<VolumeId, VolumeLease>, counter: nat)

  // Nodes, the raft ids assigned to them, and their disks.
  datatype Cluster = Cluster(
    nodes: map<NodeId, ClusterNode>,
    raftIdCounter: nat,
    raftIds: map<NodeId, nat>,
    disks: map<DiskId, ClusterDisk>)

  datatype State = State(
    lastApplied: Option<LogId>,
    membership: StoredMembership,
    epoch: nat,
    catalog: Catalog,
    placementMap: map<string, seq<NodeId>>,
    leases: LeaseTable,
    cluster: Cluster)

  const INITIAL_STATE := State(
    None, StoredMembership(None, {}), 0, Catalog(map[], map[], map[], map[]), map[],
    LeaseTable(map[], 0), Cluster(map[], 0, map[], map[]))

  // ---------- Requests and responses ----------

  datatype CommitEntry = CommitEntry(
    volumeId: VolumeId, blockRange: BlockRange, extentId: ExtentId, extentVersion: nat,
    epoch: nat, replicaLocations: seq<NodeId>, checksums: seq<seq<bv8>>,
    operationId: Option<OperationId>, previousVersion: Option<nat>)
  {
    function Slot(): Slot {
      (volumeId, blockRange.start)
    }

    function Mapping(): ExtentMapping {
      ExtentMapping(extentId, extentVersion, epoch, blockRange, replicaLocations, checksums,
                    operationId)
    }
  }

  datatype LeaseRequest =
    | Acquire(volumeId: VolumeId, sessionId: SessionId, nowMs: nat, ttlMs: nat)
    | Renew(volumeId: VolumeId, sessionId: SessionId, nowMs: nat, ttlMs: nat)
    | Release(volumeId: VolumeId, sessionId: SessionId)

  datatype Request =
    | AddNode(nodeId: NodeId, addr: string)
    | RemoveNode(nodeId: NodeId)
    | CreateVolume(volumeId: VolumeId, sizeBytes: nat, protection: ProtectionPolicy,
                   extentSize: nat)
    | DeleteVolume(volumeId: VolumeId)
    | AdvanceEpoch
    | CommitExtentMapping(entry: CommitEntry)
    | CommitExtentMappingBatch(entries: seq<CommitEntry>)
    | UpdatePlacementMap(assignments: map<string, seq<NodeId>>)
    | Lease(lease: LeaseRequest)
    | RegisterNode(nodeId: NodeId, addr: string)
    | RegisterDisk(diskId: DiskId, nodeId: NodeId, capacityBytes: nat)
    | UpdateDiskUsage(diskId: DiskId, usedBytes: nat)
    | DeregisterDisk(diskId: DiskId)
    | CleanupExpiredLeases(nowMs: nat)

  datatype Error =
    | NodeNotFound(node: NodeId)
    | VolumeExists(volume: VolumeId)
    | InvalidProtection
    | VolumeNotFound(volume: VolumeId)
    | StaleEpoch(requested: nat, current: nat)
    | CasMismatch(expected: nat, found: nat)
    | CasMissing(block: nat, expected: nat)
    | DiskNotFound(disk: DiskId)

  datatype Denial =
    | NoSuchVolume(volume: VolumeId)
    | HeldByOther(volume: VolumeId, holder: SessionId)
    | NoLease(volume: VolumeId)
    | LeaseExpired(volume: VolumeId)
    | StaleLeaseVersion(requested: nat, current: nat)

  datatype LeaseResponse =
    | Granted(version: nat, expiresAtMs: nat)
    | Renewed(version: nat, expiresAtMs: nat)
    | Released
    | Denied(reason: Denial)

  datatype Response =
    | Done
    | EpochIs(epoch: nat)
    | Error(error: Error)
    | LeaseReply(lease: LeaseResponse)
    | NodeRegistered(raftId: nat)
    | DiskRegistered
    | LeasesCleanedUp(count: nat)

  datatype Applied = Applied(state: State, response: Response)

  // ---------- Volumes and extent mappings ----------

  // Looking up the mappings of an existing volume must not fail.
  predicate KeysAgree(c: Catalog) {
    c.volumes.Keys == c.mappings.Keys
  }

  function CreateVolumeIn(c: Catalog, epoch: nat, v: VolumeId, sizeBytes: nat,
                          protection: ProtectionPolicy, extentSize: nat): (r: (Catalog, Response))
    requires KeysAgree(c)
    ensures KeysAgree(r.0)
  {
    if v in c.volumes then (c, Error(VolumeExists(v)))
    else if !protection.IsValid() then (c, Error(InvalidProtection))
    else
      var volume := VolumeMetadata(v, sizeBytes, protection, extentSize, epoch);
      (c.(volumes := c.volumes[v := volume], mappings := c.mappings[v := map[]]), Done)
  }

  function OperationsOf(ms: map<nat, ExtentMapping>): set<OperationId> {
    set b | b in ms && ms[b].operationId.Some? :: ms[b].operationId.value
  }

  function VersionsOf(ms: map<nat, ExtentMapping>): set<nat> {
    set b | b in ms :: ms[b].extentVersion
  }

  function DeleteVolumeIn(c: Catalog, v: VolumeId): (r: (Catalog, Response))
    requires KeysAgree(c)
    ensures KeysAgree(r.0)
  {
    if v !in c.volumes then (c, Error(VolumeNotFound(v)))
    else
      (Catalog(c.volumes - {v}, c.mappings - {v},
               c.operationIndex - OperationsOf(c.mappings[v]),
               c.versionIndex - VersionsOf(c.mappings[v])),
       Done)
  }

  // The compare-and-swap test of a commit against the mappings of its volume.
  function CasError(ms: map<nat, ExtentMapping>, e: CommitEntry): Option<Error> {
    var block := e.blockRange.start;
    if e.previousVersion.None? then None
    else if block in ms then
      if ms[block].extentVersion != e.previousVersion.value
      then Some(CasMismatch(e.previousVersion.value, ms[block].extentVersion))
      else None
    else if e.previousVersion.value != 0 then Some(CasMissing(block, e.previousVersion.value))
    else None
  }

  function CommitError(c: Catalog, epoch: nat, e: CommitEntry): Option<Error>
    requires KeysAgree(c)
  {
    if e.volumeId !in c.volumes then Some(VolumeNotFound(e.volumeId))
    else if e.epoch != epoch then Some(StaleEpoch(e.epoch, epoch))
    else CasError(c.mappings[e.volumeId], e)
  }

  // The operation index once the mapping at e's slot, if any, is forgotten.
  function ForgetOperation(c: Catalog, e: CommitEntry): map<OperationId, Slot>
    requires e.volumeId in c.mappings
  {
    var ms := c.mappings[e.volumeId];
    var block := e.blockRange.start;
    if block in ms && ms[block].operationId.Some?
    then c.operationIndex - {ms[block].operationId.value}
    else c.operationIndex
  }

  function ForgetVersion(c: Catalog, e: CommitEntry): map<nat, Slot>
    requires e.volumeId in c.mappings
  {
    var ms := c.mappings[e.volumeId];
    var block := e.blockRange.start;
    if block in ms then c.versionIndex - {ms[block].extentVersion} else c.versionIndex
  }

  function StoreMapping(c: Catalog, e: CommitEntry): Catalog
    requires e.volumeId in c.mappings
  {
    var forgotten := ForgetOperation(c, e);
    var updated: map<nat, ExtentMapping> := c.mappings[e.volumeId][e.blockRange.start := e.Mapping()];
    Catalog(
      c.volumes,
      c.mappings[e.volumeId := updated],
      if e.operationId.Some? then forgotten[e.operationId.value := e.Slot()] else forgotten,
      ForgetVersion(c, e)[e.extentVersion := e.Slot()])
  }

  function Commit(c: Catalog, epoch: nat, e: CommitEntry): (r: (Catalog, Response))
    requires KeysAgree(c)
    ensures KeysAgree(r.0)
  {
    var err := CommitError(c, epoch, e);
    if err.Some? then (c, Error(err.value)) else (StoreMapping(c, e), EpochIs(epoch))
  }

  function CommitBatch(c: Catalog, epoch: nat, entries: seq<CommitEntry>): (r: (Catalog, Response))
    requires KeysAgree(c)
    ensures KeysAgree(r.0)
    decreases |entries|
  {
    if entries == [] then (c, EpochIs(epoch))
    else
      var first := Commit(c, epoch, entries[0]);
      if first.1.Error? then first else CommitBatch(first.0, epoch, entries[1..])
  }

  // ---------- Leases ----------

  function ApplyAcquire(t: LeaseTable, volumes: set<VolumeId>, v: VolumeId, session: SessionId,
                        nowMs: nat, ttlMs: nat): (LeaseTable, LeaseResponse)
  {
    if v !in volumes then (t, Denied(NoSuchVolume(v)))
    else if v in t.held && !t.held[v].IsExpired(nowMs) && !t.held[v].IsHeldBy(session) then
      (t, Denied(HeldByOther(v, t.held[v].holder)))
    else
      var version := t.counter + 1;
      (LeaseTable(t.held[v := VolumeLease(v, session, nowMs, nowMs + ttlMs, version)], version),
       Granted(version, nowMs + ttlMs))
  }

  function ApplyRenew(t: LeaseTable, v: VolumeId, session: SessionId, nowMs: nat, ttlMs: nat)
    : (LeaseTable, LeaseResponse)
  {
    if v !in t.held then (t, Denied(NoLease(v)))
    else if !t.held[v].IsHeldBy(session) then (t, Denied(HeldByOther(v, t.held[v].holder)))
    else if t.held[v].IsExpired(nowMs) then (t, Denied(LeaseExpired(v)))
    else
      var version := t.counter + 1;
      var renewed := t.held[v].(expiresAtMs := nowMs + ttlMs, version := version);
      (LeaseTable(t.held[v := renewed], version), Renewed(version, nowMs + ttlMs))
  }

  function ApplyRelease(t: LeaseTable, v: VolumeId, session: SessionId)
    : (LeaseTable, LeaseResponse)
  {
    if v !in t.held then (t, Released)
    else if t.held[v].IsHeldBy(session) then (t.(held := t.held - {v}), Released)
    else (t, Denied(HeldByOther(v, t.held[v].holder)))
  }

  function ApplyLease(t: LeaseTable, volumes: set<VolumeId>, req: LeaseRequest)
    : (LeaseTable, LeaseResponse)
  {
    match req
    case Acquire(v, session, nowMs, ttlMs) => ApplyAcquire(t, volumes, v, session, nowMs, ttlMs)
    case Renew(v, session, nowMs, ttlMs) => ApplyRenew(t, v, session, nowMs, ttlMs)
    case Release(v, session) => ApplyRelease(t, v, session)
  }

  function LiveLeases(held: map<VolumeId, VolumeLease>, nowMs: nat)
    : (kept: map<VolumeId, VolumeLease>)
    ensures |kept| <= |held|
  {
    var kept := map v | v in held && !held[v].IsExpired(nowMs) :: held[v];
    SubmapSize(kept, held);
    kept
  }

  lemma SubmapSize<K, V>(small: map<K, V>, big: map<K, V>)
    requires small.Keys <= big.Keys
    ensures |small| <= |big|
  {
    assert |big.Keys| == |small.Keys| + |big.Keys - small.Keys| by {
      assert big.Keys == small.Keys + (big.Keys - small.Keys);
    }
  }

  // ---------- Nodes and disks ----------

  function ListNode(cl: Cluster, node: NodeId, addr: string): Cluster {
    cl.(nodes := cl.nodes[node := ClusterNode(node, addr)])
  }

  function RemoveNodeIn(cl: Cluster, node: NodeId): (Cluster, Response) {
    if node in cl.nodes then (cl.(nodes := cl.nodes - {node}), Done)
    else (cl, Error(NodeNotFound(node)))
  }

  function RegisterNodeIn(cl: Cluster, node: NodeId, addr: string): (Cluster, Response) {
    if node in cl.raftIds then (ListNode(cl, node, addr), NodeRegistered(cl.raftIds[node]))
    else
      var raftId := cl.raftIdCounter + 1;
      (ListNode(cl, node, addr).(raftIdCounter := raftId, raftIds := cl.raftIds[node := raftId]),
       NodeRegistered(raftId))
  }

  function UpdateDiskIn(cl: Cluster, disk: DiskId, used: nat): (Cluster, Response) {
    if disk in cl.disks
    then (cl.(disks := cl.disks[disk := cl.disks[disk].(usedBytes := used)]), DiskRegistered)
    else (cl, Error(DiskNotFound(disk)))
  }

  function DeregisterDiskIn(cl: Cluster, disk: DiskId): (Cluster, Response) {
    if disk in cl.disks then (cl.(disks := cl.disks - {disk}), DiskRegistered)
    else (cl, Error(DiskNotFound(disk)))
  }

  // ---------- The transition function ----------

  function NextEpoch(epoch: nat): nat {
    if epoch < U64_MAX then epoch + 1 else epoch
  }

  function InCatalog(s: State, r: (Catalog, Response)): Applied {
    Applied(s.(catalog := r.0), r.1)
  }

  function InCluster(s: State, r: (Cluster, Response)): Applied {
    Applied(s.(cluster := r.0), r.1)
  }

  function InLeases(s: State, r: (LeaseTable, LeaseResponse)): Applied {
    Applied(s.(leases := r.0), LeaseReply(r.1))
  }

  function DropLease(t: LeaseTable, v: VolumeId): LeaseTable {
    t.(held := t.held - {v})
  }

  function ApplyDelete(s: State, v: VolumeId): Applied
    requires KeysAgree(s.catalog)
  {
    var (catalog, response) := DeleteVolumeIn(s.catalog, v);
    if response.Error? then Applied(s, response)
    else Applied(s.(catalog := catalog, leases := DropLease(s.leases, v)), response)
  }

  function ApplyCleanup(s: State, nowMs: nat): Applied {
    var kept := LiveLeases(s.leases.held, nowMs);
    Applied(s.(leases := s.leases.(held := kept)), LeasesCleanedUp(|s.leases.held| - |kept|))
  }

  function Apply(s: State, req: Request): (r: Applied)
    requires KeysAgree(s.catalog)
    ensures KeysAgree(r.state.catalog)
  {
    match req
    case AddNode(node, addr) => InCluster(s, (ListNode(s.cluster, node, addr), Done))
    case RemoveNode(node) => InCluster(s, RemoveNodeIn(s.cluster, node))
    case CreateVolume(v, size, protection, extentSize) =>
      InCatalog(s, CreateVolumeIn(s.catalog, s.epoch, v, size, protection, extentSize))
    case DeleteVolume(v) => ApplyDelete(s, v)
    case AdvanceEpoch => Applied(s.(epoch := NextEpoch(s.epoch)), EpochIs(NextEpoch(s.epoch)))
    case CommitExtentMapping(entry) => InCatalog(s, Commit(s.catalog, s.epoch, entry))
    case CommitExtentMappingBatch(entries) => InCatalog(s, CommitBatch(s.catalog, s.epoch, entries))
    case UpdatePlacementMap(assignments) =>
      Applied(s.(placementMap := s.placementMap + assignments), Done)
    case Lease(lease) => InLeases(s, ApplyLease(s.leases, s.catalog.volumes.Keys, lease))
    case RegisterNode(node, addr) => InCluster(s, RegisterNodeIn(s.cluster, node, addr))
    case RegisterDisk(disk, node, capacity) =>
      var record := ClusterDisk(disk, node, capacity, 0, Healthy);
      InCluster(s, (s.cluster.(disks := s.cluster.disks[disk := record]), DiskRegistered))
    case UpdateDiskUsage(disk, used) => InCluster(s, UpdateDiskIn(s.cluster, disk, used))
    case DeregisterDisk(disk) => InCluster(s, DeregisterDiskIn(s.cluster, disk))
    case CleanupExpiredLeases(nowMs) => ApplyCleanup(s, nowMs)
  }

  // ---------- Queries ----------

  function LookupSlot(c: Catalog, slot: Slot): Option<ExtentMapping> {
    if slot.0 in c.mappings && slot.1 in c.mappings[slot.0] then Some(c.mappings[slot.0][slot.1])
    else None
  }

  function LookupByOperationId(c: Catalog, op: OperationId): Option<ExtentMapping> {
    if op in c.operationIndex then LookupSlot(c, c.operationIndex[op]) else None
  }

  function LookupByExtentVersion(c: Catalog, version: nat): Option<ExtentMapping> {
    if version in c.versionIndex then LookupSlot(c, c.versionIndex[version]) else None
  }

  function ValidateLease(t: LeaseTable, v: VolumeId, session: SessionId, version: nat, nowMs: nat)
    : Result<(), Denial>
  {
    if v !in t.held then Err(NoLease(v))
    else
      var lease := t.held[v];
      if !lease.IsHeldBy(session) then Err(HeldByOther(v, lease.holder))
      else if lease.IsExpired(nowMs) then Err(LeaseExpired(v))
      else if lease.version != version then Err(StaleLeaseVersion(version, lease.version))
      else Ok(())
  }

  // ---------- Runs ----------

  function StateAfter(s: State, reqs: seq<Request>, n: nat): (r: State)
    requires KeysAgree(s.catalog) && n <= |reqs|
    ensures KeysAgree(r.catalog)
  {
    if n == 0 then s else Apply(StateAfter(s, reqs, n - 1), reqs[n - 1]).state
  }

  function ResponseAt(s: State, reqs: seq<Request>, i: nat): Response
    requires KeysAgree(s.catalog) && i < |reqs|
  {
    Apply(StateAfter(s, reqs, i), reqs[i]).response
  }
}
