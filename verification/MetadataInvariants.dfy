/** What every request keeps true of the metadata state, and so every run. */
module MetadataInvariants {
  import opened Base
  import opened Metadata

  // Every mapping sits at the start of its own range and carries an epoch that
  // has been reached; every volume was created at such an epoch.
  ghost predicate CatalogSound(c: Catalog, epoch: nat) {
    && KeysAgree(c)
    && (forall v, b | v in c.mappings && b in c.mappings[v] ::
          c.mappings[v][b].blockRange.start == b && c.mappings[v][b].epoch <= epoch)
    && (forall v | v in c.volumes ::
          c.volumes[v].volumeId == v && c.volumes[v].createdAtEpoch <= epoch
          && c.volumes[v].protection.IsValid())
  }

  // Leases belong to existing volumes and carry distinct issued versions.
  ghost predicate LeasesSound(t: LeaseTable, volumes: set<VolumeId>) {
    && t.held.Keys <= volumes
    && (forall v | v in t.held :: t.held[v].volumeId == v && 1 <= t.held[v].version <= t.counter)
    && (forall v, w | v in t.held && w in t.held && v != w :: t.held[v].version != t.held[w].version)
  }

  ghost predicate Assigned(cl: Cluster, id: nat) {
    exists n :: n in cl.raftIds && cl.raftIds[n] == id
  }

  // The assigned raft ids are exactly 1..counter, one node each.
  ghost predicate ClusterSound(cl: Cluster) {
    && (forall n | n in cl.raftIds :: 1 <= cl.raftIds[n] <= cl.raftIdCounter)
    && (forall n, m | n in cl.raftIds && m in cl.raftIds && n != m :: cl.raftIds[n] != cl.raftIds[m])
    && (forall id: nat | 1 <= id <= cl.raftIdCounter :: Assigned(cl, id))
    && (forall n | n in cl.nodes :: cl.nodes[n].nodeId == n)
    && (forall d | d in cl.disks :: cl.disks[d].diskId == d)
  }

  ghost predicate WellFormed(s: State) {
    && CatalogSound(s.catalog, s.epoch)
    && LeasesSound(s.leases, s.catalog.volumes.Keys)
    && ClusterSound(s.cluster)
  }

  // ---------- One request ----------

  lemma CommitKeepsSound(c: Catalog, epoch: nat, e: CommitEntry)
    requires CatalogSound(c, epoch)
    ensures CatalogSound(Commit(c, epoch, e).0, epoch)
    ensures Commit(c, epoch, e).0.volumes == c.volumes
  {
  }

  lemma {:induction false} BatchKeepsSound(c: Catalog, epoch: nat, entries: seq<CommitEntry>)
    requires CatalogSound(c, epoch)
    ensures CatalogSound(CommitBatch(c, epoch, entries).0, epoch)
    ensures CommitBatch(c, epoch, entries).0.volumes == c.volumes
    decreases |entries|
  {
    if entries != [] {
      CommitKeepsSound(c, epoch, entries[0]);
      var first := Commit(c, epoch, entries[0]);
      if !first.1.Error? {
        BatchKeepsSound(first.0, epoch, entries[1..]);
      }
    }
  }

  lemma CreateKeepsSound(c: Catalog, epoch: nat, v: VolumeId, size: nat, p: ProtectionPolicy, extentSize: nat)
    requires CatalogSound(c, epoch)
    ensures CatalogSound(CreateVolumeIn(c, epoch, v, size, p, extentSize).0, epoch)
    ensures c.volumes.Keys <= CreateVolumeIn(c, epoch, v, size, p, extentSize).0.volumes.Keys
  {
  }

  lemma DeleteKeepsSound(c: Catalog, epoch: nat, v: VolumeId)
    requires CatalogSound(c, epoch)
    ensures CatalogSound(DeleteVolumeIn(c, v).0, epoch)
    ensures c.volumes.Keys - {v} <= DeleteVolumeIn(c, v).0.volumes.Keys
  {
  }

  lemma KeptLeasesSound(t: LeaseTable, volumes: set<VolumeId>, kept: LeaseTable, keptVolumes: set<VolumeId>)
    requires LeasesSound(t, volumes)
    requires kept.counter == t.counter
    requires kept.held.Keys <= t.held.Keys && kept.held.Keys <= keptVolumes
    requires forall v | v in kept.held :: kept.held[v] == t.held[v]
    ensures LeasesSound(kept, keptVolumes)
  {
  }

  lemma LeaseKeepsSound(t: LeaseTable, volumes: set<VolumeId>, req: LeaseRequest)
    requires LeasesSound(t, volumes)
    ensures LeasesSound(ApplyLease(t, volumes, req).0, volumes)
  {
  }

  lemma RegisterKeepsSound(cl: Cluster, node: NodeId, addr: string)
    requires ClusterSound(cl)
    ensures ClusterSound(RegisterNodeIn(cl, node, addr).0)
  {
    var after := RegisterNodeIn(cl, node, addr).0;
    if node in cl.raftIds {
      SameRaftIds(cl, after);
      return;
    }
    forall id: nat | 1 <= id <= after.raftIdCounter ensures Assigned(after, id) {
      if id <= cl.raftIdCounter {
        assert Assigned(cl, id);
        var n :| n in cl.raftIds && cl.raftIds[n] == id;
        assert after.raftIds[n] == id;
      } else {
        assert after.raftIds[node] == id;
      }
    }
  }

  lemma SameRaftIds(cl: Cluster, after: Cluster)
    requires ClusterSound(cl)
    requires after.raftIds == cl.raftIds && after.raftIdCounter == cl.raftIdCounter
    requires forall n | n in after.nodes :: after.nodes[n].nodeId == n
    requires forall d | d in after.disks :: after.disks[d].diskId == d
    ensures ClusterSound(after)
  {
    forall id: nat | 1 <= id <= after.raftIdCounter ensures Assigned(after, id) {
      assert Assigned(cl, id);
    }
  }

  lemma ClusterRequestKeepsSound(s: State, req: Request)
    requires KeysAgree(s.catalog) && ClusterSound(s.cluster)
    requires req.AddNode? || req.RemoveNode? || req.RegisterNode?
          || req.RegisterDisk? || req.UpdateDiskUsage? || req.DeregisterDisk?
    ensures ClusterSound(Apply(s, req).state.cluster)
  {
    if req.RegisterNode? {
      RegisterKeepsSound(s.cluster, req.nodeId, req.addr);
    } else {
      SameRaftIds(s.cluster, Apply(s, req).state.cluster);
    }
  }

  lemma VolumeRequestKeepsWellFormed(s: State, req: Request)
    requires WellFormed(s) && (req.CreateVolume? || req.DeleteVolume?)
    ensures WellFormed(Apply(s, req).state)
  {
    var t := Apply(s, req).state;
    match req
    case CreateVolume(v, size, p, extentSize) =>
      CreateKeepsSound(s.catalog, s.epoch, v, size, p, extentSize);
      KeptLeasesSound(s.leases, s.catalog.volumes.Keys, t.leases, t.catalog.volumes.Keys);
    case DeleteVolume(v) =>
      DeleteKeepsSound(s.catalog, s.epoch, v);
      KeptLeasesSound(s.leases, s.catalog.volumes.Keys, t.leases, t.catalog.volumes.Keys);
  }

  lemma ApplyKeepsWellFormed(s: State, req: Request)
    requires WellFormed(s)
    ensures WellFormed(Apply(s, req).state)
  {
    var t := Apply(s, req).state;
    match req
    case CommitExtentMapping(e) => CommitKeepsSound(s.catalog, s.epoch, e);
    case CommitExtentMappingBatch(entries) => BatchKeepsSound(s.catalog, s.epoch, entries);
    case CreateVolume(_, _, _, _) => VolumeRequestKeepsWellFormed(s, req);
    case DeleteVolume(_) => VolumeRequestKeepsWellFormed(s, req);
    case AdvanceEpoch =>
    case Lease(lease) => LeaseKeepsSound(s.leases, s.catalog.volumes.Keys, lease);
    case CleanupExpiredLeases(_) =>
      KeptLeasesSound(s.leases, s.catalog.volumes.Keys, t.leases, t.catalog.volumes.Keys);
    case UpdatePlacementMap(_) =>
    case _ => ClusterRequestKeepsSound(s, req);
  }

  // Every state of every run from the empty state is well formed. Reaching it
  // at all means that no lookup the code insists on has failed on the way.
  lemma {:induction false} ReachableWellFormed(reqs: seq<Request>, n: nat)
    requires n <= |reqs|
    ensures WellFormed(StateAfter(INITIAL_STATE, reqs, n))
  {
    if n > 0 {
      ReachableWellFormed(reqs, n - 1);
      ApplyKeepsWellFormed(StateAfter(INITIAL_STATE, reqs, n - 1), reqs[n - 1]);
    }
  }

  predicate Refused(r: Response) {
    r.Error? || (r.LeaseReply? && r.lease.Denied?)
  }

  // An error or a denial changes nothing, except that a batch may already have
  // stored some of its entries.
  lemma RefusalChangesNothing(s: State, req: Request)
    requires KeysAgree(s.catalog)
    requires !req.CommitExtentMappingBatch?
    requires Refused(Apply(s, req).response)
    ensures Apply(s, req).state == s
  {
  }

  lemma ApplyExtendsRaftIds(s: State, req: Request, node: NodeId)
    requires KeysAgree(s.catalog) && node in s.cluster.raftIds
    ensures var cl := Apply(s, req).state.cluster; node in cl.raftIds && cl.raftIds[node] == s.cluster.raftIds[node]
  {
  }

  // A node keeps the raft id it was first given, even after it is removed.
  lemma {:induction false} RaftIdsArePermanent(s: State, reqs: seq<Request>, i: nat, j: nat, node: NodeId)
    requires KeysAgree(s.catalog)
    requires i <= j <= |reqs|
    requires node in StateAfter(s, reqs, i).cluster.raftIds
    ensures node in StateAfter(s, reqs, j).cluster.raftIds
    ensures StateAfter(s, reqs, j).cluster.raftIds[node] == StateAfter(s, reqs, i).cluster.raftIds[node]
    decreases j
  {
    if i < j {
      RaftIdsArePermanent(s, reqs, i, j - 1, node);
      ApplyExtendsRaftIds(StateAfter(s, reqs, j - 1), reqs[j - 1], node);
    }
  }

  lemma RegistrationAnswers(s: State, node: NodeId, addr: string)
    requires KeysAgree(s.catalog)
    ensures var r := Apply(s, RegisterNode(node, addr));
            && node in r.state.cluster.raftIds
            && r.response == NodeRegistered(r.state.cluster.raftIds[node])
            && r.state.cluster.nodes == s.cluster.nodes[node := ClusterNode(node, addr)]
  {
  }

  lemma RegistrationAt(reqs: seq<Request>, i: nat)
    requires i < |reqs| && reqs[i].RegisterNode?
    ensures var ids := StateAfter(INITIAL_STATE, reqs, i + 1).cluster.raftIds;
            reqs[i].nodeId in ids && ResponseAt(INITIAL_STATE, reqs, i) == NodeRegistered(ids[reqs[i].nodeId])
  {
    RegistrationAnswers(StateAfter(INITIAL_STATE, reqs, i), reqs[i].nodeId, reqs[i].addr);
  }

  // However often nodes register in a run, and whatever is removed in between,
  // two registrations get the same raft id exactly when they are of one node.
  lemma OneRaftIdPerNode(reqs: seq<Request>, i: nat, j: nat)
    requires i <= j < |reqs| && reqs[i].RegisterNode? && reqs[j].RegisterNode?
    ensures ResponseAt(INITIAL_STATE, reqs, i).NodeRegistered? && ResponseAt(INITIAL_STATE, reqs, j).NodeRegistered?
    ensures ResponseAt(INITIAL_STATE, reqs, i).raftId == ResponseAt(INITIAL_STATE, reqs, j).raftId <==>
            reqs[i].nodeId == reqs[j].nodeId
  {
    RegistrationAt(reqs, i);
    RegistrationAt(reqs, j);
    RaftIdsArePermanent(INITIAL_STATE, reqs, i + 1, j + 1, reqs[i].nodeId);
    ReachableWellFormed(reqs, j + 1);
  }
}
