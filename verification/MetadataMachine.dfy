/** The state machine as the code keeps it: one object whose fields are updated
    in place, shown to follow the transition function. */
module MetadataMachine {
  import opened Base
  import opened DiskStates
  import opened Metadata
  import Inv = MetadataInvariants

  // Removing ids one mapping at a time removes exactly the ids of the mappings
  // seen so far.
  lemma OneMoreMapping(ms: map<nat, ExtentMapping>, seen: map<nat, ExtentMapping>, b: nat)
    requires b in ms && seen.Keys <= ms.Keys
    requires forall k | k in seen :: seen[k] == ms[k]
    ensures VersionsOf(seen[b := ms[b]]) == VersionsOf(seen) + {ms[b].extentVersion}
    ensures OperationsOf(seen[b := ms[b]])
         == OperationsOf(seen) + (if ms[b].operationId.Some? then {ms[b].operationId.value} else {})
  {
    var more: map<nat, ExtentMapping> := seen[b := ms[b]];
    forall v | v in VersionsOf(seen) + {ms[b].extentVersion} ensures v in VersionsOf(more) {
      if v in VersionsOf(seen) {
        var k :| k in seen && seen[k].extentVersion == v;
        assert k in more && more[k].extentVersion == v;
      } else {
        assert b in more && more[b].extentVersion == v;
      }
    }
    forall o | o in OperationsOf(seen) ensures o in OperationsOf(more) {
      var k :| k in seen && seen[k].operationId == Some(o);
      assert k in more && more[k].operationId == Some(o);
    }
    if ms[b].operationId.Some? {
      assert b in more && more[b].operationId.value in OperationsOf(more);
    }
  }

  class MetadataStateMachine {
    var lastApplied: Option<LogId>
    var membership: StoredMembership
    var epoch: nat
    var nodes: map<NodeId, ClusterNode>
    var volumes: map<VolumeId, VolumeMetadata>
    var mappings: map<VolumeId, map<nat, ExtentMapping>>
    var operationIndex: map<OperationId, Slot>
    var versionIndex: map<nat, Slot>
    var placementMap: map<string, seq<NodeId>>
    var leases: map<VolumeId, VolumeLease>
    var leaseCounter: nat
    var raftIdCounter: nat
    var raftIds: map<NodeId, nat>
    var disks: map<DiskId, ClusterDisk>

    function CatalogPart(): Catalog
      reads this`volumes, this`mappings, this`operationIndex, this`versionIndex
    {
      Catalog(volumes, mappings, operationIndex, versionIndex)
    }

    function LeasePart(): LeaseTable
      reads this`leases, this`leaseCounter
    {
      LeaseTable(leases, leaseCounter)
    }

    function ClusterPart(): Cluster
      reads this`nodes, this`raftIdCounter, this`raftIds, this`disks
    {
      Cluster(nodes, raftIdCounter, raftIds, disks)
    }

    function Value(): State
      reads this
    {
      State(lastApplied, membership, epoch, CatalogPart(), placementMap, LeasePart(), ClusterPart())
    }

    predicate Valid()
      reads this`volumes, this`mappings, this`operationIndex, this`versionIndex
    {
      KeysAgree(CatalogPart())
    }

    constructor ()
      ensures Value() == INITIAL_STATE
    {
      lastApplied, membership, epoch := None, StoredMembership(None, {}), 0;
      nodes, volumes, mappings := map[], map[], map[];
      operationIndex, versionIndex, placementMap := map[], map[], map[];
      leases, leaseCounter := map[], 0;
      raftIdCounter, raftIds, disks := 0, map[], map[];
    }

    // Replace the whole state, as installing a snapshot does.
    method Load(s: State)
      modifies this
      ensures Value() == s
    {
      lastApplied, membership, epoch := s.lastApplied, s.membership, s.epoch;
      LoadCatalog(s.catalog);
      placementMap := s.placementMap;
      leases, leaseCounter := s.leases.held, s.leases.counter;
      LoadCluster(s.cluster);
    }

    method LoadCatalog(c: Catalog)
      modifies this`volumes, this`mappings, this`operationIndex, this`versionIndex
      ensures CatalogPart() == c
    {
      volumes, mappings := c.volumes, c.mappings;
      operationIndex, versionIndex := c.operationIndex, c.versionIndex;
    }

    method LoadCluster(cl: Cluster)
      modifies this`nodes, this`raftIdCounter, this`raftIds, this`disks
      ensures ClusterPart() == cl
    {
      nodes, raftIdCounter, raftIds, disks := cl.nodes, cl.raftIdCounter, cl.raftIds, cl.disks;
    }

    method CreateVolume(v: VolumeId, size: nat, protection: ProtectionPolicy, extentSize: nat)
      returns (r: Response)
      requires Valid()
      modifies this`volumes, this`mappings
      ensures (CatalogPart(), r) == CreateVolumeIn(old(CatalogPart()), epoch, v, size, protection, extentSize)
    {
      if v in volumes {
        return Error(VolumeExists(v));
      }
      if !protection.IsValid() {
        return Error(InvalidProtection);
      }
      volumes := volumes[v := VolumeMetadata(v, size, protection, extentSize, epoch)];
      mappings := mappings[v := map[]];
      r := Done;
    }

    method DeleteVolume(v: VolumeId) returns (r: Response)
      requires Valid()
      modifies this`volumes, this`mappings, this`operationIndex, this`versionIndex, this`leases
      ensures (CatalogPart(), r) == DeleteVolumeIn(old(CatalogPart()), v)
      ensures LeasePart() == if r.Error? then old(LeasePart()) else DropLease(old(LeasePart()), v)
    {
      if v !in volumes {
        return Error(VolumeNotFound(v));
      }
      volumes := volumes - {v};
      var ms := mappings[v];
      mappings := mappings - {v};
      ForgetMappings(ms);
      leases := leases - {v};
      r := Done;
    }

    // Drop the index entries of every given mapping.
    method ForgetMappings(ms: map<nat, ExtentMapping>)
      modifies this`operationIndex, this`versionIndex
      ensures operationIndex == old(operationIndex) - OperationsOf(ms)
      ensures versionIndex == old(versionIndex) - VersionsOf(ms)
    {
      var todo := ms.Keys;
      ghost var seen: map<nat, ExtentMapping> := map[];
      while todo != {}
        invariant todo <= ms.Keys && seen.Keys == ms.Keys - todo
        invariant forall k | k in seen :: seen[k] == ms[k]
        invariant operationIndex == old(operationIndex) - OperationsOf(seen)
        invariant versionIndex == old(versionIndex) - VersionsOf(seen)
        decreases todo
      {
        var b :| b in todo;
        OneMoreMapping(ms, seen, b);
        if ms[b].operationId.Some? {
          operationIndex := operationIndex - {ms[b].operationId.value};
        }
        versionIndex := versionIndex - {ms[b].extentVersion};
        seen := seen[b := ms[b]];
        todo := todo - {b};
      }
      assert seen == ms;
    }

    method CommitExtentMapping(e: CommitEntry) returns (r: Response)
      requires Valid()
      modifies this`mappings, this`operationIndex, this`versionIndex
      ensures (CatalogPart(), r) == Commit(old(CatalogPart()), epoch, e)
    {
      if e.volumeId !in volumes {
        return Error(VolumeNotFound(e.volumeId));
      }
      if e.epoch != epoch {
        return Error(StaleEpoch(e.epoch, epoch));
      }
      var ms := mappings[e.volumeId];
      var block := e.blockRange.start;
      if e.previousVersion.Some? {
        if block in ms {
          if ms[block].extentVersion != e.previousVersion.value {
            return Error(CasMismatch(e.previousVersion.value, ms[block].extentVersion));
          }
        } else if e.previousVersion.value != 0 {
          return Error(CasMissing(block, e.previousVersion.value));
        }
      }
      if block in ms {
        if ms[block].operationId.Some? {
          operationIndex := operationIndex - {ms[block].operationId.value};
        }
        versionIndex := versionIndex - {ms[block].extentVersion};
      }
      if e.operationId.Some? {
        operationIndex := operationIndex[e.operationId.value := e.Slot()];
      }
      versionIndex := versionIndex[e.extentVersion := e.Slot()];
      ms := ms[block := e.Mapping()];
      mappings := mappings[e.volumeId := ms];
      r := EpochIs(epoch);
    }

    method CommitExtentMappingBatch(entries: seq<CommitEntry>) returns (r: Response)
      requires Valid()
      modifies this`mappings, this`operationIndex, this`versionIndex
      ensures (CatalogPart(), r) == CommitBatch(old(CatalogPart()), epoch, entries)
    {
      ghost var before := CatalogPart();
      for i := 0 to |entries|
        invariant Valid()
        invariant CommitBatch(before, epoch, entries) == CommitBatch(CatalogPart(), epoch, entries[i..])
      {
        assert entries[i..][0] == entries[i] && entries[i..][1..] == entries[i + 1..];
        var resp := CommitExtentMapping(entries[i]);
        if resp.Error? {
          return resp;
        }
      }
      r := EpochIs(epoch);
    }

    method UpdatePlacementMap(assignments: map<string, seq<NodeId>>) returns (r: Response)
      modifies this`placementMap
      ensures placementMap == old(placementMap) + assignments && r == Done
    {
      var todo := assignments.Keys;
      while todo != {}
        invariant todo <= assignments.Keys
        invariant placementMap ==
                  old(placementMap) + (map k | k in assignments && k !in todo :: assignments[k])
        decreases todo
      {
        var k :| k in todo;
        placementMap := placementMap[k := assignments[k]];
        todo := todo - {k};
      }
      assert (map k | k in assignments && k !in todo :: assignments[k]) == assignments;
      r := Done;
    }

    method ApplyLeaseRequest(req: LeaseRequest) returns (r: LeaseResponse)
      modifies this`leases, this`leaseCounter
      ensures (LeasePart(), r) == ApplyLease(old(LeasePart()), volumes.Keys, req)
    {
      var v, session := req.volumeId, req.sessionId;
      match req
      case Acquire(_, _, nowMs, ttlMs) =>
        if v !in volumes {
          return Denied(NoSuchVolume(v));
        }
        if v in leases && !leases[v].IsExpired(nowMs) && !leases[v].IsHeldBy(session) {
          return Denied(HeldByOther(v, leases[v].holder));
        }
        leaseCounter := leaseCounter + 1;
        var lease := VolumeLease(v, session, nowMs, nowMs + ttlMs, leaseCounter);
        leases := leases[v := lease];
        return Granted(lease.version, lease.expiresAtMs);
      case Renew(_, _, nowMs, ttlMs) =>
        if v !in leases {
          return Denied(NoLease(v));
        }
        if !leases[v].IsHeldBy(session) {
          return Denied(HeldByOther(v, leases[v].holder));
        }
        if leases[v].IsExpired(nowMs) {
          return Denied(LeaseExpired(v));
        }
        leaseCounter := leaseCounter + 1;
        leases := leases[v := leases[v].(expiresAtMs := nowMs + ttlMs, version := leaseCounter)];
        return Renewed(leaseCounter, nowMs + ttlMs);
      case Release(_, _) =>
        if v !in leases {
          return Released;
        }
        if leases[v].IsHeldBy(session) {
          leases := leases - {v};
          return Released;
        }
        return Denied(HeldByOther(v, leases[v].holder));
    }

    method CleanupExpiredLeases(nowMs: nat) returns (removed: nat)
      modifies this`leases
      ensures leases == LiveLeases(old(leases), nowMs)
      ensures removed == |old(leases)| - |leases|
    {
      var before := |leases|;
      var todo := leases.Keys;
      while todo != {}
        invariant todo <= leases.Keys <= old(leases).Keys
        invariant forall v | v in leases :: leases[v] == old(leases)[v]
        invariant forall v | v in old(leases) && v !in todo ::
                    v in leases <==> !old(leases)[v].IsExpired(nowMs)
        decreases todo
      {
        var v :| v in todo;
        if leases[v].IsExpired(nowMs) {
          leases := leases - {v};
        }
        todo := todo - {v};
      }
      assert leases == LiveLeases(old(leases), nowMs);
      removed := before - |leases|;
    }

    method RegisterNode(node: NodeId, addr: string) returns (r: Response)
      modifies this`nodes, this`raftIds, this`raftIdCounter
      ensures (ClusterPart(), r) == RegisterNodeIn(old(ClusterPart()), node, addr)
    {
      if node in raftIds {
        nodes := nodes[node := ClusterNode(node, addr)];
        return NodeRegistered(raftIds[node]);
      }
      raftIdCounter := raftIdCounter + 1;
      raftIds := raftIds[node := raftIdCounter];
      nodes := nodes[node := ClusterNode(node, addr)];
      r := NodeRegistered(raftIdCounter);
    }

    method UpdateDiskUsage(disk: DiskId, used: nat) returns (r: Response)
      modifies this`disks
      ensures (ClusterPart(), r) == UpdateDiskIn(old(ClusterPart()), disk, used)
    {
      if disk in disks {
        disks := disks[disk := disks[disk].(usedBytes := used)];
        return DiskRegistered;
      }
      r := Error(DiskNotFound(disk));
    }

    // Apply one request of the replicated log.
    method ApplyRequest(req: Request) returns (r: Response)
      requires Valid()
      modifies this
      ensures Valid()
      ensures Applied(Value(), r) == Apply(old(Value()), req)
    {
      match req
      case CreateVolume(_, _, _, _) => r := ApplyVolumeRequest(req);
      case DeleteVolume(_) => r := ApplyVolumeRequest(req);
      case CommitExtentMapping(_) => r := ApplyVolumeRequest(req);
      case CommitExtentMappingBatch(_) => r := ApplyVolumeRequest(req);
      case AdvanceEpoch =>
        epoch := NextEpoch(epoch);
        r := EpochIs(epoch);
      case UpdatePlacementMap(assignments) =>
        r := UpdatePlacementMap(assignments);
      case Lease(lease) =>
        var reply := ApplyLeaseRequest(lease);
        r := LeaseReply(reply);
      case CleanupExpiredLeases(nowMs) =>
        var removed := CleanupExpiredLeases(nowMs);
        r := LeasesCleanedUp(removed);
      case _ => r := ApplyListChange(req);
    }

    method ApplyVolumeRequest(req: Request) returns (r: Response)
      requires Valid()
      requires req.CreateVolume? || req.DeleteVolume? || req.CommitExtentMapping?
            || req.CommitExtentMappingBatch?
      modifies this`volumes, this`mappings, this`operationIndex, this`versionIndex, this`leases
      ensures Applied(Value(), r) == Apply(old(Value()), req)
    {
      match req
      case CreateVolume(v, size, protection, extentSize) =>
        r := CreateVolume(v, size, protection, extentSize);
      case DeleteVolume(v) =>
        r := DeleteVolume(v);
      case CommitExtentMapping(entry) =>
        r := CommitExtentMapping(entry);
      case CommitExtentMappingBatch(entries) =>
        r := CommitExtentMappingBatch(entries);
    }

    // The remaining requests change the list of nodes or of disks.
    method ApplyListChange(req: Request) returns (r: Response)
      requires Valid()
      requires req.AddNode? || req.RemoveNode? || req.RegisterNode?
            || req.RegisterDisk? || req.UpdateDiskUsage? || req.DeregisterDisk?
      modifies this`nodes, this`raftIds, this`raftIdCounter, this`disks
      ensures Applied(Value(), r) == Apply(old(Value()), req)
    {
      r := Done;
      match req
      case AddNode(node, addr) =>
        nodes := nodes[node := ClusterNode(node, addr)];
      case RemoveNode(node) =>
        if node !in nodes {
          return Error(NodeNotFound(node));
        }
        nodes := nodes - {node};
      case RegisterNode(node, addr) =>
        r := RegisterNode(node, addr);
      case UpdateDiskUsage(disk, used) =>
        r := UpdateDiskUsage(disk, used);
      case RegisterDisk(disk, node, capacity) =>
        disks := disks[disk := ClusterDisk(disk, node, capacity, 0, Healthy)];
        r := DiskRegistered;
      case DeregisterDisk(disk) =>
        if disk !in disks {
          return Error(DiskNotFound(disk));
        }
        disks := disks - {disk};
        r := DiskRegistered;
    }

    // The node holding a raft id: found exactly when the id has been assigned,
    // and looking up that node's id leads back to it.
    method NodeIdByRaftId(raftId: nat) returns (r: Option<NodeId>)
      requires Inv.ClusterSound(ClusterPart())
      ensures r.Some? <==> 1 <= raftId <= raftIdCounter
      ensures r.Some? ==> r.value in raftIds && raftIds[r.value] == raftId
    {
      var todo := raftIds.Keys;
      while todo != {}
        invariant todo <= raftIds.Keys
        invariant forall n | n in raftIds && n !in todo :: raftIds[n] != raftId
        decreases todo
      {
        var n :| n in todo;
        if raftIds[n] == raftId {
          return Some(n);
        }
        todo := todo - {n};
      }
      assert !Inv.Assigned(ClusterPart(), raftId);
      r := None;
    }
  }
}
