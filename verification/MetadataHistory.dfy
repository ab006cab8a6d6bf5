/** What the state holds, and what each request answers, read off the requests before it. */
module MetadataHistory {
  import opened Base
  import opened DiskStates
  import opened Metadata
  import opened MetadataInvariants
  import opened MetadataIndex
  import opened MetadataCommits
  import Leases = MetadataLeases

  function After(reqs: seq<Request>, n: nat): (s: State)
    requires n <= |reqs|
    ensures KeysAgree(s.catalog)
  {
    StateAfter(INITIAL_STATE, reqs, n)
  }

  function Answer(reqs: seq<Request>, i: nat): Response
    requires i < |reqs|
  {
    ResponseAt(INITIAL_STATE, reqs, i)
  }

  // ---------- The epoch ----------

  // How often the epoch was advanced by the first n requests.
  function Advances(reqs: seq<Request>, n: nat): nat
    requires n <= |reqs|
  {
    if n == 0 then 0 else Advances(reqs, n - 1) + (if reqs[n - 1].AdvanceEpoch? then 1 else 0)
  }

  lemma ApplyToEpoch(s: State, req: Request)
    requires KeysAgree(s.catalog)
    ensures var r := Apply(s, req);
            if req.AdvanceEpoch? then
              r.state.epoch == Min(U64_MAX, s.epoch + 1) || (s.epoch > U64_MAX && r.state.epoch == s.epoch)
            else r.state.epoch == s.epoch
    ensures req.AdvanceEpoch? ==> Apply(s, req).response == EpochIs(Apply(s, req).state.epoch)
  {
  }

  // The epoch counts the advances, up to the largest 64-bit number.
  lemma {:induction false} EpochCountsAdvances(reqs: seq<Request>, n: nat)
    requires n <= |reqs|
    ensures After(reqs, n).epoch == Min(U64_MAX, Advances(reqs, n))
  {
    if n > 0 {
      EpochCountsAdvances(reqs, n - 1);
      ApplyToEpoch(After(reqs, n - 1), reqs[n - 1]);
    }
  }

  lemma {:induction false} AdvancesMonotone(reqs: seq<Request>, i: nat, j: nat)
    requires i <= j <= |reqs|
    ensures Advances(reqs, i) <= Advances(reqs, j)
    ensures (exists k :: i <= k < j && reqs[k].AdvanceEpoch?) ==> Advances(reqs, i) < Advances(reqs, j)
    decreases j
  {
    if i < j {
      AdvancesMonotone(reqs, i, j - 1);
    }
  }

  // A commit stamped with the epoch of an earlier point is refused as stale once
  // the epoch has been advanced since, until the epoch can rise no further.
  lemma StaleCommitRefused(reqs: seq<Request>, i: nat, k: nat, j: nat, e: CommitEntry)
    requires i <= k < j < |reqs| && reqs[k].AdvanceEpoch? && reqs[j] == CommitExtentMapping(e)
    requires e.epoch == After(reqs, i).epoch && Advances(reqs, i) < U64_MAX
    requires e.volumeId in After(reqs, j).catalog.volumes
    ensures Answer(reqs, j) == Error(StaleEpoch(e.epoch, After(reqs, j).epoch)) && e.epoch < After(reqs, j).epoch
    ensures After(reqs, j + 1) == After(reqs, j)
  {
    EpochCountsAdvances(reqs, i);
    EpochCountsAdvances(reqs, j);
    AdvancesMonotone(reqs, i, j);
    CommitAnswers(After(reqs, j), e);
  }

  // ---------- Nodes ----------

  // The address a node is listed under after the first n requests.
  function NodeAt(reqs: seq<Request>, n: nat, node: NodeId): Option<string>
    requires n <= |reqs|
  {
    if n == 0 then None
    else
      match reqs[n - 1]
      case AddNode(x, addr) => if x == node then Some(addr) else NodeAt(reqs, n - 1, node)
      case RegisterNode(x, addr) => if x == node then Some(addr) else NodeAt(reqs, n - 1, node)
      case RemoveNode(x) => if x == node then None else NodeAt(reqs, n - 1, node)
      case _ => NodeAt(reqs, n - 1, node)
  }

  function Listed(cl: Cluster, node: NodeId): Option<ClusterNode> {
    Found(cl.nodes, node)
  }

  lemma ApplyToNodes(s: State, req: Request, node: NodeId)
    requires KeysAgree(s.catalog)
    ensures Listed(Apply(s, req).state.cluster, node)
         == match req
            case AddNode(x, addr) => if x == node then Some(ClusterNode(node, addr)) else Listed(s.cluster, node)
            case RegisterNode(x, addr) => if x == node then Some(ClusterNode(node, addr)) else Listed(s.cluster, node)
            case RemoveNode(x) => if x == node then None else Listed(s.cluster, node)
            case _ => Listed(s.cluster, node)
  {
  }

  // A node is listed, under the address last given, unless it was removed since.
  lemma {:induction false} NodesFollowRequests(reqs: seq<Request>, n: nat, node: NodeId)
    requires n <= |reqs|
    ensures Listed(After(reqs, n).cluster, node)
         == if NodeAt(reqs, n, node).Some? then Some(ClusterNode(node, NodeAt(reqs, n, node).value)) else None
  {
    if n > 0 {
      NodesFollowRequests(reqs, n - 1, node);
      ApplyToNodes(After(reqs, n - 1), reqs[n - 1], node);
    }
  }

  // Removing a node is refused exactly if it is not listed.
  lemma NodeAnswers(reqs: seq<Request>, i: nat)
    requires i < |reqs|
    ensures reqs[i].AddNode? ==> Answer(reqs, i) == Done
    ensures reqs[i].RemoveNode? ==>
            Answer(reqs, i)
            == if NodeAt(reqs, i, reqs[i].nodeId).Some? then Done else Error(NodeNotFound(reqs[i].nodeId))
  {
    if reqs[i].RemoveNode? {
      NodesFollowRequests(reqs, i, reqs[i].nodeId);
    }
  }

  // ---------- Disks ----------

  // The record of a disk after the first n requests.
  function DiskAt(reqs: seq<Request>, n: nat, disk: DiskId): Option<ClusterDisk>
    requires n <= |reqs|
  {
    if n == 0 then None
    else
      var before := DiskAt(reqs, n - 1, disk);
      match reqs[n - 1]
      case RegisterDisk(d, node, capacity) =>
        if d == disk then Some(ClusterDisk(d, node, capacity, 0, Healthy)) else before
      case UpdateDiskUsage(d, used) =>
        if d == disk && before.Some? then Some(before.value.(usedBytes := used)) else before
      case DeregisterDisk(d) => if d == disk then None else before
      case _ => before
  }

  lemma ApplyToDisks(s: State, req: Request, disk: DiskId)
    requires KeysAgree(s.catalog)
    ensures var before := Found(s.cluster.disks, disk);
            Found(Apply(s, req).state.cluster.disks, disk)
            == match req
               case RegisterDisk(d, node, capacity) =>
                 if d == disk then Some(ClusterDisk(d, node, capacity, 0, Healthy)) else before
               case UpdateDiskUsage(d, used) =>
                 if d == disk && before.Some? then Some(before.value.(usedBytes := used)) else before
               case DeregisterDisk(d) => if d == disk then None else before
               case _ => before
  {
  }

  // A disk is listed as last registered, with the usage last reported since, until
  // it is deregistered.
  lemma {:induction false} DisksFollowRequests(reqs: seq<Request>, n: nat, disk: DiskId)
    requires n <= |reqs|
    ensures Found(After(reqs, n).cluster.disks, disk) == DiskAt(reqs, n, disk)
  {
    if n > 0 {
      DisksFollowRequests(reqs, n - 1, disk);
      ApplyToDisks(After(reqs, n - 1), reqs[n - 1], disk);
    }
  }

  lemma DiskAnswers(reqs: seq<Request>, i: nat)
    requires i < |reqs|
    ensures reqs[i].RegisterDisk? ==> Answer(reqs, i) == DiskRegistered
    ensures reqs[i].UpdateDiskUsage? || reqs[i].DeregisterDisk? ==>
            Answer(reqs, i)
            == if DiskAt(reqs, i, reqs[i].diskId).Some? then DiskRegistered else Error(DiskNotFound(reqs[i].diskId))
  {
    if reqs[i].UpdateDiskUsage? || reqs[i].DeregisterDisk? {
      DisksFollowRequests(reqs, i, reqs[i].diskId);
    }
  }

  // ---------- The placement map ----------

  // What was last assigned to a key by the first n requests.
  function PlacementAt(reqs: seq<Request>, n: nat, key: string): Option<seq<NodeId>>
    requires n <= |reqs|
  {
    if n == 0 then None
    else if reqs[n - 1].UpdatePlacementMap? && key in reqs[n - 1].assignments then
      Some(reqs[n - 1].assignments[key])
    else PlacementAt(reqs, n - 1, key)
  }

  lemma ApplyToPlacement(s: State, req: Request, key: string)
    requires KeysAgree(s.catalog)
    ensures Found(Apply(s, req).state.placementMap, key)
         == if req.UpdatePlacementMap? && key in req.assignments then Some(req.assignments[key])
            else Found(s.placementMap, key)
    ensures req.UpdatePlacementMap? ==> Apply(s, req).response == Done
  {
  }

  lemma {:induction false} PlacementFollowsRequests(reqs: seq<Request>, n: nat, key: string)
    requires n <= |reqs|
    ensures Found(After(reqs, n).placementMap, key) == PlacementAt(reqs, n, key)
  {
    if n > 0 {
      PlacementFollowsRequests(reqs, n - 1, key);
      ApplyToPlacement(After(reqs, n - 1), reqs[n - 1], key);
    }
  }

  // ---------- Volumes ----------

  // At least one copy, or at least one data and one parity chunk.
  predicate Protects(protection: ProtectionPolicy) {
    match protection
    case Replicated(replicas) => replicas != 0
    case ErasureCoded(dataChunks, parityChunks) => dataChunks != 0 && parityChunks != 0
  }

  // The record of a volume after the first n requests: as first created since it
  // was last deleted, under the epoch of its creation.
  function VolumeAt(reqs: seq<Request>, n: nat, v: VolumeId): Option<VolumeMetadata>
    requires n <= |reqs|
  {
    if n == 0 then None
    else
      var before := VolumeAt(reqs, n - 1, v);
      match reqs[n - 1]
      case CreateVolume(w, size, protection, extentSize) =>
        if w == v && before.None? && Protects(protection)
        then Some(VolumeMetadata(v, size, protection, extentSize, Min(U64_MAX, Advances(reqs, n - 1))))
        else before
      case DeleteVolume(w) => if w == v then None else before
      case _ => before
  }

  lemma ApplyToVolumes(s: State, req: Request, v: VolumeId)
    requires KeysAgree(s.catalog)
    ensures var before := Found(s.catalog.volumes, v);
            Found(Apply(s, req).state.catalog.volumes, v)
            == match req
               case CreateVolume(w, size, protection, extentSize) =>
                 if w == v && before.None? && Protects(protection)
                 then Some(VolumeMetadata(v, size, protection, extentSize, s.epoch)) else before
               case DeleteVolume(w) => if w == v then None else before
               case _ => before
  {
    if req.CommitExtentMappingBatch? {
      Leases.BatchKeepsVolumes(s.catalog, s.epoch, req.entries);
    }
  }

  lemma {:induction false} VolumesFollowRequests(reqs: seq<Request>, n: nat, v: VolumeId)
    requires n <= |reqs|
    ensures Found(After(reqs, n).catalog.volumes, v) == VolumeAt(reqs, n, v)
  {
    if n > 0 {
      VolumesFollowRequests(reqs, n - 1, v);
      EpochCountsAdvances(reqs, n - 1);
      ApplyToVolumes(After(reqs, n - 1), reqs[n - 1], v);
    }
  }

  // Creation is refused exactly for a volume that exists or a policy that is not
  // valid, deletion exactly for a volume that does not exist.
  lemma VolumeAnswers(reqs: seq<Request>, i: nat)
    requires i < |reqs|
    ensures reqs[i].CreateVolume? ==>
            Answer(reqs, i)
            == if VolumeAt(reqs, i, reqs[i].volumeId).Some? then Error(VolumeExists(reqs[i].volumeId))
               else if !Protects(reqs[i].protection) then Error(InvalidProtection)
               else Done
    ensures reqs[i].DeleteVolume? ==>
            Answer(reqs, i)
            == if VolumeAt(reqs, i, reqs[i].volumeId).Some? then Done else Error(VolumeNotFound(reqs[i].volumeId))
  {
    if reqs[i].CreateVolume? || reqs[i].DeleteVolume? {
      VolumesFollowRequests(reqs, i, reqs[i].volumeId);
    }
  }

  // ---------- Commits ----------

  // A commit answers with the epoch, or names the first thing that is wrong: the
  // volume, the epoch, the version expected at the block.
  lemma CommitAnswers(s: State, e: CommitEntry)
    requires KeysAgree(s.catalog)
    ensures var r := Apply(s, CommitExtentMapping(e));
            var held := LookupSlot(s.catalog, e.Slot());
            && (e.volumeId !in s.catalog.volumes ==> r.response == Error(VolumeNotFound(e.volumeId)))
            && (e.volumeId in s.catalog.volumes && e.epoch != s.epoch ==>
                  r.response == Error(StaleEpoch(e.epoch, s.epoch)))
            && (e.volumeId in s.catalog.volumes && e.epoch == s.epoch ==>
                  match (e.previousVersion, held)
                  case (None, _) => r.response == EpochIs(s.epoch)
                  case (Some(expected), Some(m)) =>
                    r.response == if m.extentVersion == expected then EpochIs(s.epoch)
                                  else Error(CasMismatch(expected, m.extentVersion))
                  case (Some(expected), None) =>
                    r.response == if expected == 0 then EpochIs(s.epoch)
                                  else Error(CasMissing(e.blockRange.start, expected)))
            && (r.response.Error? ==> r.state == s)
  {
  }

  lemma CommittedRecord(s: State, e: CommitEntry)
    requires KeysAgree(s.catalog) && Apply(s, CommitExtentMapping(e)).response == EpochIs(s.epoch)
    ensures LookupSlot(Apply(s, CommitExtentMapping(e)).state.catalog, (e.volumeId, e.blockRange.start))
         == Some(ExtentMapping(e.extentId, e.extentVersion, e.epoch, e.blockRange, e.replicaLocations, e.checksums,
                               e.operationId))
  {
  }

  lemma {:induction false} BatchLeavesSlot(c: Catalog, epoch: nat, entries: seq<CommitEntry>, slot: Slot)
    requires KeysAgree(c) && StoredAtSlot(c, epoch, entries, slot) == []
    ensures LookupSlot(CommitBatch(c, epoch, entries).0, slot) == LookupSlot(c, slot)
    decreases |entries|
  {
    if entries != [] && CommitError(c, epoch, entries[0]).None? {
      StoredAt(c, entries[0], slot);
      BatchLeavesSlot(Commit(c, epoch, entries[0]).0, epoch, entries[1..], slot);
    }
  }

  lemma RequestLeavesSlot(s: State, req: Request, slot: Slot)
    requires KeysAgree(s.catalog) && req != DeleteVolume(slot.0) && StoredBy(s, req, slot) == []
    ensures LookupSlot(Apply(s, req).state.catalog, slot) == LookupSlot(s.catalog, slot)
  {
    match req
    case CommitExtentMapping(e) =>
      SingleIsBatch(s.catalog, s.epoch, e);
      BatchLeavesSlot(s.catalog, s.epoch, [e], slot);
    case CommitExtentMappingBatch(entries) => BatchLeavesSlot(s.catalog, s.epoch, entries, slot);
    case DeleteVolume(v) =>
      if v in s.catalog.volumes {
        DeletedAt(s.catalog, v, slot);
      }
    case CreateVolume(v, size, p, extentSize) =>
      CreatedAt(s.catalog, s.epoch, v, size, p, extentSize, slot);
    case _ =>
  }

  // What a commit stored is found, field by field, until the volume is deleted or
  // another commit to that block succeeds.
  lemma {:induction false} CommittedStands(reqs: seq<Request>, i: nat, j: nat, e: CommitEntry)
    requires i < j <= |reqs| && reqs[i] == CommitExtentMapping(e) && Answer(reqs, i) == EpochIs(After(reqs, i).epoch)
    requires forall k | i < k < j ::
               reqs[k] != DeleteVolume(e.volumeId) && StoredBy(After(reqs, k), reqs[k], e.Slot()) == []
    ensures LookupSlot(After(reqs, j).catalog, (e.volumeId, e.blockRange.start))
         == Some(ExtentMapping(e.extentId, e.extentVersion, e.epoch, e.blockRange, e.replicaLocations, e.checksums,
                               e.operationId))
    decreases j
  {
    if j == i + 1 {
      CommittedRecord(After(reqs, i), e);
    } else {
      CommittedStands(reqs, i, j - 1, e);
      RequestLeavesSlot(After(reqs, j - 1), reqs[j - 1], e.Slot());
    }
  }
}
