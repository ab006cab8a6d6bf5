/** The operation index and the version index against a scan of all mappings. */
module MetadataIndex {
  import opened Base
  import opened Metadata

  ghost predicate Live(c: Catalog, slot: Slot) {
    LookupSlot(c, slot).Some?
  }

  // Every index entry points at a live mapping carrying the indexed id or version.
  ghost predicate Sound(c: Catalog) {
    && (forall o | o in c.operationIndex ::
          Live(c, c.operationIndex[o])
          && LookupSlot(c, c.operationIndex[o]).value.operationId == Some(o))
    && (forall n | n in c.versionIndex ::
          Live(c, c.versionIndex[n])
          && LookupSlot(c, c.versionIndex[n]).value.extentVersion == n)
  }

  ghost predicate Indexed(c: Catalog, slot: Slot)
    requires Live(c, slot)
  {
    var m := LookupSlot(c, slot).value;
    && m.extentVersion in c.versionIndex && c.versionIndex[m.extentVersion] == slot
    && (m.operationId.Some? ==>
          m.operationId.value in c.operationIndex && c.operationIndex[m.operationId.value] == slot)
  }

  // Every live mapping can be found through both indexes.
  ghost predicate Complete(c: Catalog) {
    forall slot | Live(c, slot) :: Indexed(c, slot)
  }

  // No mapping at another slot carries the version or the operation id of e.
  ghost predicate Fresh(c: Catalog, e: CommitEntry) {
    forall slot | Live(c, slot) && slot != e.Slot() ::
      && LookupSlot(c, slot).value.extentVersion != e.extentVersion
      && (e.operationId.Some? ==> LookupSlot(c, slot).value.operationId != e.operationId)
  }

  // ---------- What one change does to the slots ----------

  lemma StoredAt(c: Catalog, e: CommitEntry, slot: Slot)
    requires e.volumeId in c.mappings
    ensures LookupSlot(StoreMapping(c, e), slot)
         == if slot == e.Slot() then Some(e.Mapping()) else LookupSlot(c, slot)
  {
  }

  lemma DeletedAt(c: Catalog, v: VolumeId, slot: Slot)
    requires KeysAgree(c) && v in c.volumes
    ensures LookupSlot(DeleteVolumeIn(c, v).0, slot)
         == if slot.0 == v then None else LookupSlot(c, slot)
  {
  }

  lemma CreatedAt(c: Catalog, epoch: nat, v: VolumeId, size: nat, p: ProtectionPolicy, extentSize: nat,
                  slot: Slot)
    requires KeysAgree(c)
    ensures LookupSlot(CreateVolumeIn(c, epoch, v, size, p, extentSize).0, slot) == LookupSlot(c, slot)
  {
  }

  // ---------- Commits ----------

  lemma StoreKeepsSound(c: Catalog, e: CommitEntry)
    requires e.volumeId in c.mappings && Sound(c)
    ensures Sound(StoreMapping(c, e))
  {
    var d := StoreMapping(c, e);
    forall o | o in d.operationIndex
      ensures Live(d, d.operationIndex[o])
           && LookupSlot(d, d.operationIndex[o]).value.operationId == Some(o)
    {
      StoredAt(c, e, d.operationIndex[o]);
    }
    forall n | n in d.versionIndex
      ensures Live(d, d.versionIndex[n])
           && LookupSlot(d, d.versionIndex[n]).value.extentVersion == n
    {
      StoredAt(c, e, d.versionIndex[n]);
    }
  }

  lemma FreshStoreKeepsIndexed(c: Catalog, e: CommitEntry, slot: Slot)
    requires e.volumeId in c.mappings && Sound(c) && Complete(c) && Fresh(c, e)
    requires Live(StoreMapping(c, e), slot)
    ensures Indexed(StoreMapping(c, e), slot)
  {
    StoredAt(c, e, slot);
    if slot != e.Slot() {
      assert Live(c, slot) && Indexed(c, slot);
      if Live(c, e.Slot()) {
        assert Indexed(c, e.Slot());
      }
    }
  }

  lemma StaleStoreLosesEntry(c: Catalog, e: CommitEntry, slot: Slot)
    requires e.volumeId in c.mappings && Live(c, slot) && slot != e.Slot()
    requires LookupSlot(c, slot).value.extentVersion == e.extentVersion
          || (e.operationId.Some? && LookupSlot(c, slot).value.operationId == e.operationId)
    ensures Live(StoreMapping(c, e), slot) && !Indexed(StoreMapping(c, e), slot)
  {
    StoredAt(c, e, slot);
  }

  // A stored mapping keeps both indexes complete exactly when its version and
  // operation id are not already in use at another slot.
  lemma CompleteIffFresh(c: Catalog, e: CommitEntry)
    requires e.volumeId in c.mappings && Sound(c) && Complete(c)
    ensures Complete(StoreMapping(c, e)) <==> Fresh(c, e)
  {
    if Fresh(c, e) {
      forall slot | Live(StoreMapping(c, e), slot) ensures Indexed(StoreMapping(c, e), slot) {
        FreshStoreKeepsIndexed(c, e, slot);
      }
    } else {
      var slot :| Live(c, slot) && slot != e.Slot()
        && (LookupSlot(c, slot).value.extentVersion == e.extentVersion
            || (e.operationId.Some? && LookupSlot(c, slot).value.operationId == e.operationId));
      StaleStoreLosesEntry(c, e, slot);
    }
  }

  lemma {:induction false} BatchKeepsSound(c: Catalog, epoch: nat, entries: seq<CommitEntry>)
    requires KeysAgree(c) && Sound(c)
    ensures Sound(CommitBatch(c, epoch, entries).0)
    decreases |entries|
  {
    if entries != [] && CommitError(c, epoch, entries[0]).None? {
      StoreKeepsSound(c, entries[0]);
      BatchKeepsSound(StoreMapping(c, entries[0]), epoch, entries[1..]);
    }
  }

  // Each entry that a batch stores is fresh when its turn comes.
  ghost predicate BatchFresh(c: Catalog, epoch: nat, entries: seq<CommitEntry>)
    requires KeysAgree(c)
    decreases |entries|
  {
    entries != [] && CommitError(c, epoch, entries[0]).None? ==>
      && Fresh(c, entries[0])
      && BatchFresh(Commit(c, epoch, entries[0]).0, epoch, entries[1..])
  }

  // The indexes are complete after each entry that a batch stores.
  ghost predicate BatchStaysComplete(c: Catalog, epoch: nat, entries: seq<CommitEntry>)
    requires KeysAgree(c)
    decreases |entries|
  {
    entries != [] && CommitError(c, epoch, entries[0]).None? ==>
      && Complete(Commit(c, epoch, entries[0]).0)
      && BatchStaysComplete(Commit(c, epoch, entries[0]).0, epoch, entries[1..])
  }

  lemma {:induction false} BatchCompleteIffFresh(c: Catalog, epoch: nat, entries: seq<CommitEntry>)
    requires KeysAgree(c) && Sound(c) && Complete(c)
    ensures BatchStaysComplete(c, epoch, entries) <==> BatchFresh(c, epoch, entries)
    ensures BatchStaysComplete(c, epoch, entries) ==> Complete(CommitBatch(c, epoch, entries).0)
    decreases |entries|
  {
    if entries != [] && CommitError(c, epoch, entries[0]).None? {
      CompleteIffFresh(c, entries[0]);
      StoreKeepsSound(c, entries[0]);
      if Complete(StoreMapping(c, entries[0])) {
        BatchCompleteIffFresh(Commit(c, epoch, entries[0]).0, epoch, entries[1..]);
      }
    }
  }

  // ---------- Volumes ----------

  lemma DeleteKeepsSound(c: Catalog, v: VolumeId)
    requires KeysAgree(c) && v in c.volumes && Sound(c)
    ensures Sound(DeleteVolumeIn(c, v).0)
  {
    var d := DeleteVolumeIn(c, v).0;
    forall o | o in d.operationIndex
      ensures Live(d, d.operationIndex[o])
           && LookupSlot(d, d.operationIndex[o]).value.operationId == Some(o)
    {
      var slot := c.operationIndex[o];
      DeletedAt(c, v, slot);
    }
    forall n | n in d.versionIndex
      ensures Live(d, d.versionIndex[n])
           && LookupSlot(d, d.versionIndex[n]).value.extentVersion == n
    {
      var slot := c.versionIndex[n];
      DeletedAt(c, v, slot);
    }
  }

  lemma DeleteKeepsComplete(c: Catalog, v: VolumeId)
    requires KeysAgree(c) && v in c.volumes && Complete(c)
    ensures Complete(DeleteVolumeIn(c, v).0)
  {
    var d := DeleteVolumeIn(c, v).0;
    forall slot | Live(d, slot) ensures Indexed(d, slot) {
      DeletedAt(c, v, slot);
      var m := LookupSlot(c, slot).value;
      assert Indexed(c, slot);
      forall b | b in c.mappings[v]
        ensures c.mappings[v][b].extentVersion != m.extentVersion
        ensures m.operationId.Some? ==> c.mappings[v][b].operationId != m.operationId
      {
        assert Indexed(c, (v, b));
      }
    }
  }

  lemma CreateKeepsIndexes(c: Catalog, epoch: nat, v: VolumeId, size: nat, p: ProtectionPolicy, extentSize: nat)
    requires KeysAgree(c)
    ensures var d := CreateVolumeIn(c, epoch, v, size, p, extentSize).0;
            (Sound(c) ==> Sound(d)) && (Complete(c) ==> Complete(d))
  {
    var d := CreateVolumeIn(c, epoch, v, size, p, extentSize).0;
    forall slot ensures LookupSlot(d, slot) == LookupSlot(c, slot) {
      CreatedAt(c, epoch, v, size, p, extentSize, slot);
    }
    if Complete(c) {
      forall slot | Live(d, slot) ensures Indexed(d, slot) {
        assert Live(c, slot) && Indexed(c, slot);
      }
    }
  }

  // ---------- Runs ----------

  lemma ApplyKeepsSound(s: State, req: Request)
    requires KeysAgree(s.catalog) && Sound(s.catalog)
    ensures Sound(Apply(s, req).state.catalog)
  {
    match req
    case CommitExtentMapping(e) =>
      if CommitError(s.catalog, s.epoch, e).None? {
        StoreKeepsSound(s.catalog, e);
      }
    case CommitExtentMappingBatch(entries) => BatchKeepsSound(s.catalog, s.epoch, entries);
    case DeleteVolume(v) =>
      if v in s.catalog.volumes {
        DeleteKeepsSound(s.catalog, v);
      }
    case CreateVolume(v, size, p, extentSize) =>
      CreateKeepsIndexes(s.catalog, s.epoch, v, size, p, extentSize);
    case _ =>
  }

  lemma {:induction false} ReachableIndexesSound(reqs: seq<Request>, n: nat)
    requires n <= |reqs|
    ensures Sound(StateAfter(INITIAL_STATE, reqs, n).catalog)
  {
    if n > 0 {
      ReachableIndexesSound(reqs, n - 1);
      ApplyKeepsSound(StateAfter(INITIAL_STATE, reqs, n - 1), reqs[n - 1]);
    }
  }

  // Every mapping that the request stores is fresh when it is stored.
  ghost predicate StoresFresh(s: State, req: Request)
    requires KeysAgree(s.catalog)
  {
    match req
    case CommitExtentMapping(e) => BatchFresh(s.catalog, s.epoch, [e])
    case CommitExtentMappingBatch(entries) => BatchFresh(s.catalog, s.epoch, entries)
    case _ => true
  }

  // The indexes are complete after each mapping that the request stores.
  ghost predicate StaysComplete(s: State, req: Request)
    requires KeysAgree(s.catalog)
  {
    match req
    case CommitExtentMapping(e) => BatchStaysComplete(s.catalog, s.epoch, [e])
    case CommitExtentMappingBatch(entries) => BatchStaysComplete(s.catalog, s.epoch, entries)
    case _ => Complete(Apply(s, req).state.catalog)
  }

  lemma SingleIsBatch(c: Catalog, epoch: nat, e: CommitEntry)
    requires KeysAgree(c)
    ensures CommitBatch(c, epoch, [e]) == Commit(c, epoch, e)
  {
    assert [e][1..] == [];
  }

  lemma ApplyCompleteIffFresh(s: State, req: Request)
    requires KeysAgree(s.catalog) && Sound(s.catalog) && Complete(s.catalog)
    ensures StaysComplete(s, req) <==> StoresFresh(s, req)
    ensures StaysComplete(s, req) ==> Complete(Apply(s, req).state.catalog)
  {
    match req
    case CommitExtentMapping(e) =>
      SingleIsBatch(s.catalog, s.epoch, e);
      BatchCompleteIffFresh(s.catalog, s.epoch, [e]);
    case CommitExtentMappingBatch(entries) => BatchCompleteIffFresh(s.catalog, s.epoch, entries);
    case DeleteVolume(v) =>
      if v in s.catalog.volumes {
        DeleteKeepsComplete(s.catalog, v);
      }
    case CreateVolume(v, size, p, extentSize) =>
      CreateKeepsIndexes(s.catalog, s.epoch, v, size, p, extentSize);
    case _ =>
  }

  ghost predicate RunStoresFresh(reqs: seq<Request>, n: nat)
    requires n <= |reqs|
  {
    n > 0 ==>
      RunStoresFresh(reqs, n - 1) && StoresFresh(StateAfter(INITIAL_STATE, reqs, n - 1), reqs[n - 1])
  }

  ghost predicate RunStaysComplete(reqs: seq<Request>, n: nat)
    requires n <= |reqs|
  {
    n > 0 ==>
      RunStaysComplete(reqs, n - 1) && StaysComplete(StateAfter(INITIAL_STATE, reqs, n - 1), reqs[n - 1])
  }

  // Over any run, the indexes stay complete throughout exactly when every stored
  // version and operation id was unused at the other slots.
  lemma {:induction false} RunCompleteIffFresh(reqs: seq<Request>, n: nat)
    requires n <= |reqs|
    ensures RunStaysComplete(reqs, n) <==> RunStoresFresh(reqs, n)
    ensures RunStaysComplete(reqs, n) ==> Complete(StateAfter(INITIAL_STATE, reqs, n).catalog)
  {
    if n > 0 {
      RunCompleteIffFresh(reqs, n - 1);
      var s := StateAfter(INITIAL_STATE, reqs, n - 1);
      ReachableIndexesSound(reqs, n - 1);
      if RunStaysComplete(reqs, n - 1) {
        ApplyCompleteIffFresh(s, reqs[n - 1]);
      }
    }
  }

  // ---------- Lookups ----------

  // While the indexes are sound and complete, each lookup gives what a scan of
  // every mapping gives, and the scan finds at most one mapping.
  lemma LookupsAreScans(c: Catalog, op: OperationId, version: nat, slot: Slot)
    requires Sound(c) && Complete(c) && Live(c, slot)
    ensures LookupSlot(c, slot).value.operationId == Some(op) <==>
            op in c.operationIndex && c.operationIndex[op] == slot
    ensures LookupSlot(c, slot).value.operationId == Some(op) ==>
            LookupByOperationId(c, op) == LookupSlot(c, slot)
    ensures LookupSlot(c, slot).value.extentVersion == version <==>
            version in c.versionIndex && c.versionIndex[version] == slot
    ensures LookupSlot(c, slot).value.extentVersion == version ==>
            LookupByExtentVersion(c, version) == LookupSlot(c, slot)
  {
    assert Indexed(c, slot);
  }

  lemma MissMeansAbsent(c: Catalog, op: OperationId, version: nat)
    requires Sound(c) && Complete(c)
    ensures LookupByOperationId(c, op).None? <==>
            forall slot | Live(c, slot) :: LookupSlot(c, slot).value.operationId != Some(op)
    ensures LookupByExtentVersion(c, version).None? <==>
            forall slot | Live(c, slot) :: LookupSlot(c, slot).value.extentVersion != version
  {
    forall slot | Live(c, slot) ensures Indexed(c, slot) {
    }
  }

  function HasOperation(op: OperationId): ExtentMapping -> bool {
    (m: ExtentMapping) => m.operationId == Some(op)
  }

  function HasVersion(version: nat): ExtentMapping -> bool {
    (m: ExtentMapping) => m.extentVersion == version
  }

  // What a scan of all mappings finds, if exactly one mapping is found.
  ghost predicate ScanFinds(c: Catalog, wanted: ExtentMapping -> bool, found: Option<ExtentMapping>) {
    match found
    case None => forall slot | Live(c, slot) :: !wanted(LookupSlot(c, slot).value)
    case Some(m) =>
      exists slot :: Live(c, slot) && wanted(LookupSlot(c, slot).value) && LookupSlot(c, slot) == Some(m)
                     && forall other | Live(c, other) && wanted(LookupSlot(c, other).value) :: other == slot
  }

  lemma LookupsFind(c: Catalog, op: OperationId, version: nat)
    requires Sound(c) && Complete(c)
    ensures ScanFinds(c, HasOperation(op), LookupByOperationId(c, op))
    ensures ScanFinds(c, HasVersion(version), LookupByExtentVersion(c, version))
  {
    MissMeansAbsent(c, op, version);
    forall slot | Live(c, slot)
      ensures LookupSlot(c, slot).value.operationId == Some(op) <==>
              op in c.operationIndex && c.operationIndex[op] == slot
      ensures LookupSlot(c, slot).value.extentVersion == version <==>
              version in c.versionIndex && c.versionIndex[version] == slot
    {
      LookupsAreScans(c, op, version, slot);
    }
    if op in c.operationIndex {
      assert Live(c, c.operationIndex[op]);
    }
    if version in c.versionIndex {
      assert Live(c, c.versionIndex[version]);
    }
  }

  // After any run that stored only fresh versions and ids, both lookups give the
  // one mapping that a scan finds, or nothing where it finds none.
  lemma RunLookupsFind(reqs: seq<Request>, n: nat, op: OperationId, version: nat)
    requires n <= |reqs| && RunStoresFresh(reqs, n)
    ensures var c := StateAfter(INITIAL_STATE, reqs, n).catalog;
            && ScanFinds(c, HasOperation(op), LookupByOperationId(c, op))
            && ScanFinds(c, HasVersion(version), LookupByExtentVersion(c, version))
  {
    RunCompleteIffFresh(reqs, n);
    ReachableIndexesSound(reqs, n);
    LookupsFind(StateAfter(INITIAL_STATE, reqs, n).catalog, op, version);
  }

  // Committing the same version at two blocks hides the first mapping.
  lemma DuplicateVersionHidesMapping() returns (reqs: seq<Request>, slot: Slot)
    ensures var c := StateAfter(INITIAL_STATE, reqs, |reqs|).catalog;
            Live(c, slot)
            && LookupByExtentVersion(c, LookupSlot(c, slot).value.extentVersion) != LookupSlot(c, slot)
  {
    var v := VolumeId(1);
    var create := CreateVolume(v, 0, Replicated(1), 0);
    var e0 := CommitEntry(v, BlockRange(0, 1), ExtentId(0), 1, 0, [], [], None, None);
    var e1 := CommitEntry(v, BlockRange(1, 2), ExtentId(1), 1, 0, [], [], None, None);
    reqs, slot := [create, CommitExtentMapping(e0), CommitExtentMapping(e1)], (v, 0);
    var s1 := StateAfter(INITIAL_STATE, reqs, 1);
    assert s1 == Apply(StateAfter(INITIAL_STATE, reqs, 0), create).state;
    var s2 := StateAfter(INITIAL_STATE, reqs, 2);
    assert s2 == Apply(s1, reqs[1]).state;
    assert s2.catalog == StoreMapping(s1.catalog, e0);
    var s3 := StateAfter(INITIAL_STATE, reqs, 3);
    assert s3 == Apply(s2, reqs[2]).state;
    assert s3.catalog == StoreMapping(s2.catalog, e1);
    assert LookupSlot(s3.catalog, slot) == Some(e0.Mapping());
    assert LookupByExtentVersion(s3.catalog, 1) == Some(e1.Mapping());
  }
}
