/** Batches of commits against single commits, and commits to one block over a run. */
module MetadataCommits {
  import opened Base
  import opened Metadata
  import opened MetadataIndex

  // ---------- A batch against its entries one by one ----------

  function Singles(entries: seq<CommitEntry>): (reqs: seq<Request>)
    ensures |reqs| == |entries|
  {
    seq(|entries|, i requires 0 <= i < |entries| => CommitExtentMapping(entries[i]))
  }

  // The catalog after committing the first n entries as separate requests.
  function CommitFirst(c: Catalog, epoch: nat, entries: seq<CommitEntry>, n: nat): (d: Catalog)
    requires KeysAgree(c) && n <= |entries|
    ensures KeysAgree(d)
  {
    if n == 0 then c else Commit(CommitFirst(c, epoch, entries, n - 1), epoch, entries[n - 1]).0
  }

  lemma {:induction false} CommitFirstIsRun(s: State, entries: seq<CommitEntry>, n: nat)
    requires KeysAgree(s.catalog) && n <= |entries|
    ensures StateAfter(s, Singles(entries), n)
         == s.(catalog := CommitFirst(s.catalog, s.epoch, entries, n))
  {
    if n > 0 {
      CommitFirstIsRun(s, entries, n - 1);
    }
  }

  // The mapping that entry n will find at a slot, read off the state before the
  // batch and the entries ahead of n.
  function MappingSeen(c: Catalog, entries: seq<CommitEntry>, n: nat, slot: Slot): Option<ExtentMapping>
    requires n <= |entries|
  {
    if n > 0 && entries[n - 1].Slot() == slot then Some(entries[n - 1].Mapping())
    else if n > 0 then MappingSeen(c, entries, n - 1, slot)
    else LookupSlot(c, slot)
  }

  // Whether entry n is acceptable when all entries ahead of it have been stored.
  predicate Acceptable(c: Catalog, epoch: nat, entries: seq<CommitEntry>, n: nat)
    requires n < |entries|
  {
    var e := entries[n];
    && e.volumeId in c.volumes
    && e.epoch == epoch
    && (e.previousVersion.Some? ==>
          match MappingSeen(c, entries, n, e.Slot())
          case Some(found) => found.extentVersion == e.previousVersion.value
          case None => e.previousVersion.value == 0)
  }

  // The first entry from n on that is not acceptable, or the end of the batch.
  function FirstRefused(c: Catalog, epoch: nat, entries: seq<CommitEntry>, n: nat): (r: nat)
    requires n <= |entries|
    ensures n <= r <= |entries|
    ensures forall i | n <= i < r :: Acceptable(c, epoch, entries, i)
    ensures r < |entries| ==> !Acceptable(c, epoch, entries, r)
    decreases |entries| - n
  {
    if n == |entries| || !Acceptable(c, epoch, entries, n) then n
    else FirstRefused(c, epoch, entries, n + 1)
  }

  lemma {:induction false} PrefixStored(c: Catalog, epoch: nat, entries: seq<CommitEntry>, n: nat, slot: Slot)
    requires KeysAgree(c) && n <= |entries|
    requires forall i | 0 <= i < n :: Acceptable(c, epoch, entries, i)
    ensures CommitFirst(c, epoch, entries, n).volumes == c.volumes
    ensures LookupSlot(CommitFirst(c, epoch, entries, n), slot) == MappingSeen(c, entries, n, slot)
  {
    if n > 0 {
      var e := entries[n - 1];
      PrefixStored(c, epoch, entries, n - 1, slot);
      PrefixStored(c, epoch, entries, n - 1, e.Slot());
      var d := CommitFirst(c, epoch, entries, n - 1);
      assert Acceptable(c, epoch, entries, n - 1);
      assert CommitError(d, epoch, e).None?;
      StoredAt(d, e, slot);
    }
  }

  lemma AcceptableIffCommits(c: Catalog, epoch: nat, entries: seq<CommitEntry>, n: nat)
    requires KeysAgree(c) && n < |entries|
    requires forall i | 0 <= i < n :: Acceptable(c, epoch, entries, i)
    ensures Acceptable(c, epoch, entries, n) <==>
            CommitError(CommitFirst(c, epoch, entries, n), epoch, entries[n]).None?
  {
    PrefixStored(c, epoch, entries, n, entries[n].Slot());
  }

  lemma {:induction false} BatchFromPrefix(c: Catalog, epoch: nat, entries: seq<CommitEntry>, n: nat)
    requires KeysAgree(c) && n <= |entries|
    requires forall i | 0 <= i < n :: Acceptable(c, epoch, entries, i)
    ensures CommitBatch(c, epoch, entries)
         == CommitBatch(CommitFirst(c, epoch, entries, n), epoch, entries[n..])
  {
    if n == 0 {
      assert entries[0..] == entries;
    } else {
      BatchFromPrefix(c, epoch, entries, n - 1);
      AcceptableIffCommits(c, epoch, entries, n - 1);
      assert entries[n - 1..][1..] == entries[n..] && entries[n - 1..][0] == entries[n - 1];
    }
  }

  lemma BatchStopsAtFirstRefused(c: Catalog, epoch: nat, entries: seq<CommitEntry>)
    requires KeysAgree(c)
    ensures var n := FirstRefused(c, epoch, entries, 0);
            var d := CommitFirst(c, epoch, entries, n);
            && CommitBatch(c, epoch, entries).0 == d
            && CommitBatch(c, epoch, entries).1
               == (if n == |entries| then EpochIs(epoch) else Commit(d, epoch, entries[n]).1)
  {
    var n := FirstRefused(c, epoch, entries, 0);
    BatchFromPrefix(c, epoch, entries, n);
    if n < |entries| {
      AcceptableIffCommits(c, epoch, entries, n);
      assert entries[n..][0] == entries[n];
    }
  }

  lemma SingleResponse(s: State, entries: seq<CommitEntry>, i: nat)
    requires KeysAgree(s.catalog) && i < |entries|
    requires forall k | 0 <= k < i :: Acceptable(s.catalog, s.epoch, entries, k)
    ensures ResponseAt(s, Singles(entries), i)
         == Commit(CommitFirst(s.catalog, s.epoch, entries, i), s.epoch, entries[i]).1
    ensures Acceptable(s.catalog, s.epoch, entries, i) <==> !ResponseAt(s, Singles(entries), i).Error?
  {
    CommitFirstIsRun(s, entries, i);
    AcceptableIffCommits(s.catalog, s.epoch, entries, i);
  }

  lemma AcceptablePrefixSucceeds(s: State, entries: seq<CommitEntry>, n: nat)
    requires KeysAgree(s.catalog) && n <= |entries|
    requires forall i | 0 <= i < n :: Acceptable(s.catalog, s.epoch, entries, i)
    ensures forall i | 0 <= i < n :: !ResponseAt(s, Singles(entries), i).Error?
  {
    forall i | 0 <= i < n ensures !ResponseAt(s, Singles(entries), i).Error? {
      SingleResponse(s, entries, i);
    }
  }

  lemma BatchEffect(s: State, entries: seq<CommitEntry>)
    requires KeysAgree(s.catalog)
    ensures var n := FirstRefused(s.catalog, s.epoch, entries, 0);
            Apply(s, CommitExtentMappingBatch(entries)).state == StateAfter(s, Singles(entries), n)
  {
    var n := FirstRefused(s.catalog, s.epoch, entries, 0);
    BatchStopsAtFirstRefused(s.catalog, s.epoch, entries);
    CommitFirstIsRun(s, entries, n);
  }

  lemma BatchResponse(s: State, entries: seq<CommitEntry>)
    requires KeysAgree(s.catalog)
    ensures Apply(s, CommitExtentMappingBatch(entries)).response == CommitBatch(s.catalog, s.epoch, entries).1
  {
  }

  lemma BatchAnswer(s: State, entries: seq<CommitEntry>)
    requires KeysAgree(s.catalog)
    ensures var n := FirstRefused(s.catalog, s.epoch, entries, 0);
            var r := CommitBatch(s.catalog, s.epoch, entries).1;
            if n == |entries| then r == EpochIs(s.epoch)
            else r.Error? && r == ResponseAt(s, Singles(entries), n)
  {
    var n := FirstRefused(s.catalog, s.epoch, entries, 0);
    BatchStopsAtFirstRefused(s.catalog, s.epoch, entries);
    if n < |entries| {
      SingleResponse(s, entries, n);
    }
  }

  // A batch does exactly what its acceptable prefix does when committed one by
  // one, and answers as the first refused entry does, if there is one.
  lemma BatchLaw(s: State, entries: seq<CommitEntry>)
    requires KeysAgree(s.catalog)
    ensures var n := FirstRefused(s.catalog, s.epoch, entries, 0);
            var r := Apply(s, CommitExtentMappingBatch(entries));
            && r.state == StateAfter(s, Singles(entries), n)
            && (forall i | 0 <= i < n :: !ResponseAt(s, Singles(entries), i).Error?)
            && (n == |entries| ==> r.response == EpochIs(s.epoch))
            && (n < |entries| ==> r.response.Error? && r.response == ResponseAt(s, Singles(entries), n))
  {
    BatchEffect(s, entries);
    BatchAnswer(s, entries);
    BatchResponse(s, entries);
    AcceptablePrefixSucceeds(s, entries, FirstRefused(s.catalog, s.epoch, entries, 0));
  }

  // The documented promise: either every entry succeeds and the state is that of
  // all entries, or the state is as before, indexes included.
  ghost predicate AllOrNothing(s: State, entries: seq<CommitEntry>)
    requires KeysAgree(s.catalog)
  {
    var after := Apply(s, CommitExtentMappingBatch(entries)).state;
    || after == s
    || (&& (forall i | 0 <= i < |entries| :: !ResponseAt(s, Singles(entries), i).Error?)
        && after == StateAfter(s, Singles(entries), |entries|))
  }

  // The first n entries leave every slot with the mapping it had.
  ghost predicate Undone(c: Catalog, entries: seq<CommitEntry>, n: nat)
    requires n <= |entries|
  {
    forall i | 0 <= i < n :: MappingSeen(c, entries, n, entries[i].Slot()) == LookupSlot(c, entries[i].Slot())
  }

  ghost predicate Among(entries: seq<CommitEntry>, n: nat, m: ExtentMapping)
    requires n <= |entries|
  {
    exists i :: 0 <= i < n && entries[i].Mapping() == m
  }

  lemma {:induction false} SeenIsHeldOrStored(c: Catalog, entries: seq<CommitEntry>, n: nat, slot: Slot)
    requires n <= |entries|
    ensures var seen := MappingSeen(c, entries, n, slot);
            if forall i | 0 <= i < n :: entries[i].Slot() != slot then seen == LookupSlot(c, slot)
            else seen.Some? && Among(entries, n, seen.value)
  {
    if n > 0 {
      SeenIsHeldOrStored(c, entries, n - 1, slot);
      assert entries[n - 1].Slot() == slot ==> Among(entries, n, entries[n - 1].Mapping());
    }
  }

  lemma SlotsDetermineMappings(c: Catalog, d: Catalog)
    requires c.mappings.Keys == d.mappings.Keys
    ensures c.mappings == d.mappings <==> forall slot :: LookupSlot(c, slot) == LookupSlot(d, slot)
  {
    if forall slot :: LookupSlot(c, slot) == LookupSlot(d, slot) {
      forall v | v in c.mappings ensures c.mappings[v] == d.mappings[v] {
        forall b ensures b in c.mappings[v] <==> b in d.mappings[v] {
          assert LookupSlot(c, (v, b)) == LookupSlot(d, (v, b));
        }
        forall b | b in c.mappings[v] ensures c.mappings[v][b] == d.mappings[v][b] {
          assert LookupSlot(c, (v, b)) == LookupSlot(d, (v, b));
        }
      }
    }
  }

  lemma MappingsKeptIffUndone(c: Catalog, epoch: nat, entries: seq<CommitEntry>, n: nat)
    requires KeysAgree(c) && n <= |entries|
    requires forall i | 0 <= i < n :: Acceptable(c, epoch, entries, i)
    ensures CommitFirst(c, epoch, entries, n).mappings == c.mappings <==> Undone(c, entries, n)
  {
    var d := CommitFirst(c, epoch, entries, n);
    forall slot ensures LookupSlot(d, slot) == MappingSeen(c, entries, n, slot) && d.volumes == c.volumes {
      PrefixStored(c, epoch, entries, n, slot);
    }
    PrefixStored(c, epoch, entries, n, (VolumeId(0), 0));
    SlotsDetermineMappings(c, d);
    if Undone(c, entries, n) {
      forall slot ensures LookupSlot(c, slot) == LookupSlot(d, slot) {
        if forall i | 0 <= i < n :: entries[i].Slot() != slot {
          SeenIsHeldOrStored(c, entries, n, slot);
        }
      }
    }
  }

  function Found<K, V>(table: map<K, V>, key: K): Option<V> {
    if key in table then Some(table[key]) else None
  }

  // Where the version index will point after the first n entries, read off the
  // state before the batch and the entries.
  function VersionSeen(c: Catalog, entries: seq<CommitEntry>, n: nat, version: nat): Option<Slot>
    requires n <= |entries|
  {
    if n == 0 then Found(c.versionIndex, version)
    else
      var e := entries[n - 1];
      var replaced := MappingSeen(c, entries, n - 1, e.Slot());
      if e.extentVersion == version then Some(e.Slot())
      else if replaced.Some? && replaced.value.extentVersion == version then None
      else VersionSeen(c, entries, n - 1, version)
  }

  function OperationSeen(c: Catalog, entries: seq<CommitEntry>, n: nat, op: OperationId): Option<Slot>
    requires n <= |entries|
  {
    if n == 0 then Found(c.operationIndex, op)
    else
      var e := entries[n - 1];
      var replaced := MappingSeen(c, entries, n - 1, e.Slot());
      if e.operationId == Some(op) then Some(e.Slot())
      else if replaced.Some? && replaced.value.operationId == Some(op) then None
      else OperationSeen(c, entries, n - 1, op)
  }

  lemma StoredInIndexes(c: Catalog, e: CommitEntry, version: nat, op: OperationId)
    requires e.volumeId in c.mappings
    ensures var held := LookupSlot(c, e.Slot());
            && Found(StoreMapping(c, e).versionIndex, version)
               == (if e.extentVersion == version then Some(e.Slot())
                   else if held.Some? && held.value.extentVersion == version then None
                   else Found(c.versionIndex, version))
            && Found(StoreMapping(c, e).operationIndex, op)
               == (if e.operationId == Some(op) then Some(e.Slot())
                   else if held.Some? && held.value.operationId == Some(op) then None
                   else Found(c.operationIndex, op))
  {
  }

  lemma {:induction false} PrefixIndexed(c: Catalog, epoch: nat, entries: seq<CommitEntry>, n: nat,
                                         version: nat, op: OperationId)
    requires KeysAgree(c) && n <= |entries|
    requires forall i | 0 <= i < n :: Acceptable(c, epoch, entries, i)
    ensures var d := CommitFirst(c, epoch, entries, n);
            && Found(d.versionIndex, version) == VersionSeen(c, entries, n, version)
            && Found(d.operationIndex, op) == OperationSeen(c, entries, n, op)
  {
    if n > 0 {
      var e := entries[n - 1];
      var d := CommitFirst(c, epoch, entries, n - 1);
      PrefixIndexed(c, epoch, entries, n - 1, version, op);
      PrefixStored(c, epoch, entries, n - 1, e.Slot());
      AcceptableIffCommits(c, epoch, entries, n - 1);
      StoredInIndexes(d, e, version, op);
    }
  }

  // The first n entries leave the indexes as they were for their own versions and
  // operation ids.
  ghost predicate IndexesUndone(c: Catalog, entries: seq<CommitEntry>, n: nat)
    requires n <= |entries|
  {
    forall i | 0 <= i < n ::
      var e := entries[i];
      && VersionSeen(c, entries, n, e.extentVersion) == Found(c.versionIndex, e.extentVersion)
      && (e.operationId.Some? ==>
            OperationSeen(c, entries, n, e.operationId.value) == Found(c.operationIndex, e.operationId.value))
  }

  // Entries that leave all mappings as they were replace only mappings like their
  // own.
  lemma ReplacesOwn(c: Catalog, entries: seq<CommitEntry>, k: nat, n: nat)
    requires k < n <= |entries| && Undone(c, entries, n)
    ensures var replaced := MappingSeen(c, entries, k, entries[k].Slot());
            replaced.Some? ==> Among(entries, n, replaced.value)
  {
    SeenIsHeldOrStored(c, entries, k, entries[k].Slot());
    SeenIsHeldOrStored(c, entries, n, entries[k].Slot());
  }

  lemma {:induction false} OtherVersionKept(c: Catalog, entries: seq<CommitEntry>, k: nat, n: nat, version: nat)
    requires k <= n <= |entries| && Undone(c, entries, n)
    requires forall i | 0 <= i < n :: entries[i].extentVersion != version
    ensures VersionSeen(c, entries, k, version) == Found(c.versionIndex, version)
  {
    if k > 0 {
      OtherVersionKept(c, entries, k - 1, n, version);
      ReplacesOwn(c, entries, k - 1, n);
    }
  }

  lemma {:induction false} OtherOperationKept(c: Catalog, entries: seq<CommitEntry>, k: nat, n: nat, op: OperationId)
    requires k <= n <= |entries| && Undone(c, entries, n)
    requires forall i | 0 <= i < n :: entries[i].operationId != Some(op)
    ensures OperationSeen(c, entries, k, op) == Found(c.operationIndex, op)
  {
    if k > 0 {
      OtherOperationKept(c, entries, k - 1, n, op);
      ReplacesOwn(c, entries, k - 1, n);
    }
  }

  lemma SameFinds<K, V>(a: map<K, V>, b: map<K, V>)
    requires forall k :: Found(a, k) == Found(b, k)
    ensures a == b
  {
    assert forall k :: k in a <==> Found(a, k).Some?;
    assert forall k :: k in b <==> Found(b, k).Some?;
    assert forall k | k in a :: Some(a[k]) == Found(a, k) == Found(b, k) == Some(b[k]);
  }

  lemma IndexesKept(c: Catalog, epoch: nat, entries: seq<CommitEntry>, n: nat)
    requires KeysAgree(c) && n <= |entries|
    requires forall i | 0 <= i < n :: Acceptable(c, epoch, entries, i)
    requires Undone(c, entries, n) && IndexesUndone(c, entries, n)
    ensures CommitFirst(c, epoch, entries, n).versionIndex == c.versionIndex
    ensures CommitFirst(c, epoch, entries, n).operationIndex == c.operationIndex
  {
    var d := CommitFirst(c, epoch, entries, n);
    forall version ensures Found(d.versionIndex, version) == Found(c.versionIndex, version) {
      PrefixIndexed(c, epoch, entries, n, version, OperationId(0));
      if forall i | 0 <= i < n :: entries[i].extentVersion != version {
        OtherVersionKept(c, entries, n, n, version);
      }
    }
    forall op ensures Found(d.operationIndex, op) == Found(c.operationIndex, op) {
      PrefixIndexed(c, epoch, entries, n, 0, op);
      if forall i | 0 <= i < n :: entries[i].operationId != Some(op) {
        OtherOperationKept(c, entries, n, n, op);
      }
    }
    SameFinds(d.versionIndex, c.versionIndex);
    SameFinds(d.operationIndex, c.operationIndex);
  }

  lemma KeptIndexesAreUndone(c: Catalog, epoch: nat, entries: seq<CommitEntry>, n: nat)
    requires KeysAgree(c) && n <= |entries|
    requires forall i | 0 <= i < n :: Acceptable(c, epoch, entries, i)
    requires CommitFirst(c, epoch, entries, n) == c
    ensures IndexesUndone(c, entries, n)
  {
    forall i | 0 <= i < n
      ensures VersionSeen(c, entries, n, entries[i].extentVersion) == Found(c.versionIndex, entries[i].extentVersion)
      ensures entries[i].operationId.Some? ==>
              OperationSeen(c, entries, n, entries[i].operationId.value)
              == Found(c.operationIndex, entries[i].operationId.value)
    {
      var e := entries[i];
      var op := if e.operationId.Some? then e.operationId.value else OperationId(0);
      PrefixIndexed(c, epoch, entries, n, e.extentVersion, op);
    }
  }

  // Accepted entries leave the whole catalog as it was exactly if they undo one
  // another in the mappings and in the indexes.
  lemma KeptIffUndone(c: Catalog, epoch: nat, entries: seq<CommitEntry>, n: nat)
    requires KeysAgree(c) && n <= |entries|
    requires forall i | 0 <= i < n :: Acceptable(c, epoch, entries, i)
    ensures CommitFirst(c, epoch, entries, n) == c <==> Undone(c, entries, n) && IndexesUndone(c, entries, n)
  {
    MappingsKeptIffUndone(c, epoch, entries, n);
    if CommitFirst(c, epoch, entries, n) == c {
      KeptIndexesAreUndone(c, epoch, entries, n);
    } else if Undone(c, entries, n) && IndexesUndone(c, entries, n) {
      IndexesKept(c, epoch, entries, n);
      PrefixStored(c, epoch, entries, n, (VolumeId(0), 0));
    }
  }

  // For every batch, the promise is kept exactly when every entry is acceptable
  // or the entries ahead of the first unacceptable one undo one another, as they
  // do when there are none.
  lemma AllOrNothingIff(s: State, entries: seq<CommitEntry>)
    requires KeysAgree(s.catalog)
    ensures var n := FirstRefused(s.catalog, s.epoch, entries, 0);
            AllOrNothing(s, entries) <==>
            n == |entries| || (Undone(s.catalog, entries, n) && IndexesUndone(s.catalog, entries, n))
  {
    var n := FirstRefused(s.catalog, s.epoch, entries, 0);
    BatchLaw(s, entries);
    CommitFirstIsRun(s, entries, n);
    KeptIffUndone(s.catalog, s.epoch, entries, n);
  }

  // The mappings alone are as before exactly when the mappings are undone. The
  // version index may still have moved, from another slot with that version.
  lemma MappingsKeptIff(s: State, entries: seq<CommitEntry>)
    requires KeysAgree(s.catalog)
    ensures var n := FirstRefused(s.catalog, s.epoch, entries, 0);
            Apply(s, CommitExtentMappingBatch(entries)).state.catalog.mappings == s.catalog.mappings <==>
            Undone(s.catalog, entries, n)
  {
    var n := FirstRefused(s.catalog, s.epoch, entries, 0);
    BatchEffect(s, entries);
    CommitFirstIsRun(s, entries, n);
    MappingsKeptIffUndone(s.catalog, s.epoch, entries, n);
  }

  // Entries that follow the compare-and-swap discipline: each names the version
  // it replaces, and replaces it by a later one.
  predicate Advances(e: CommitEntry) {
    e.previousVersion.Some? && e.previousVersion.value < e.extentVersion
  }

  lemma {:induction false} VersionsOnlyRise(c: Catalog, epoch: nat, entries: seq<CommitEntry>, n: nat)
    requires KeysAgree(c) && 0 < n <= |entries|
    requires forall e | e in entries :: Advances(e)
    requires forall i | 0 <= i < n :: Acceptable(c, epoch, entries, i)
    ensures var seen := MappingSeen(c, entries, n, entries[0].Slot());
            seen.Some? && seen.value.extentVersion >= entries[0].extentVersion
  {
    if n > 1 {
      VersionsOnlyRise(c, epoch, entries, n - 1);
      assert Acceptable(c, epoch, entries, n - 1) && Advances(entries[n - 1]);
    }
  }

  // Batches that follow the discipline never undo themselves: for them the
  // promise is kept exactly when every entry is acceptable or the first is not.
  lemma AllOrNothingIfAdvancing(s: State, entries: seq<CommitEntry>)
    requires KeysAgree(s.catalog)
    requires forall e | e in entries :: Advances(e)
    ensures AllOrNothing(s, entries) <==>
            || (forall i | 0 <= i < |entries| :: Acceptable(s.catalog, s.epoch, entries, i))
            || !Acceptable(s.catalog, s.epoch, entries, 0)
  {
    var c, epoch := s.catalog, s.epoch;
    var n := FirstRefused(c, epoch, entries, 0);
    AllOrNothingIff(s, entries);
    if 0 < n < |entries| {
      VersionsOnlyRise(c, epoch, entries, n);
      assert Acceptable(c, epoch, entries, 0) && Advances(entries[0]);
      assert !Acceptable(c, epoch, entries, n);
    }
  }

  // The promise fails: in a state that a run reaches, a batch whose second entry
  // is refused keeps the first.
  lemma BatchIsNotAtomic() returns (reqs: seq<Request>, s: State, entries: seq<CommitEntry>)
    ensures s == StateAfter(INITIAL_STATE, reqs, |reqs|) && KeysAgree(s.catalog)
    ensures !AllOrNothing(s, entries)
  {
    var v := VolumeId(1);
    reqs := [CreateVolume(v, 0, Replicated(1), 0)];
    s := Apply(INITIAL_STATE, reqs[0]).state;
    assert StateAfter(INITIAL_STATE, reqs, 0) == INITIAL_STATE;
    assert StateAfter(INITIAL_STATE, reqs, 1) == s;
    var stored := CommitEntry(v, BlockRange(0, 1), ExtentId(0), 1, 0, [], [], None, Some(0));
    entries := [stored, stored.(volumeId := VolumeId(2))];
    AllOrNothingIfAdvancing(s, entries);
    assert !Acceptable(s.catalog, s.epoch, entries, 1);
    assert Acceptable(s.catalog, s.epoch, entries, 0);
  }

  // ---------- No lost update ----------

  // The version at a slot, zero standing for an empty slot.
  function VersionAt(c: Catalog, slot: Slot): nat {
    if LookupSlot(c, slot).Some? then LookupSlot(c, slot).value.extentVersion else 0
  }

  // The entries of a batch that are stored at the slot, in order.
  ghost function StoredAtSlot(c: Catalog, epoch: nat, entries: seq<CommitEntry>, slot: Slot): seq<CommitEntry>
    requires KeysAgree(c)
    decreases |entries|
  {
    if entries == [] || CommitError(c, epoch, entries[0]).Some? then []
    else
      (if entries[0].Slot() == slot then [entries[0]] else [])
      + StoredAtSlot(Commit(c, epoch, entries[0]).0, epoch, entries[1..], slot)
  }

  ghost function StoredBy(s: State, req: Request, slot: Slot): seq<CommitEntry>
    requires KeysAgree(s.catalog)
  {
    match req
    case CommitExtentMapping(e) => StoredAtSlot(s.catalog, s.epoch, [e], slot)
    case CommitExtentMappingBatch(entries) => StoredAtSlot(s.catalog, s.epoch, entries, slot)
    case _ => []
  }

  // All successful commits to the slot by requests i .. j-1 of a run, in order.
  ghost function History(s: State, reqs: seq<Request>, i: nat, j: nat, slot: Slot): seq<CommitEntry>
    requires KeysAgree(s.catalog) && i <= j <= |reqs|
    decreases j
  {
    if i == j then []
    else History(s, reqs, i, j - 1, slot) + StoredBy(StateAfter(s, reqs, j - 1), reqs[j - 1], slot)
  }

  // Each commit names the version its predecessor left behind.
  ghost predicate Chained(first: nat, h: seq<CommitEntry>, last: nat)
    decreases |h|
  {
    if h == [] then first == last
    else h[0].previousVersion == Some(first) && Chained(h[0].extentVersion, h[1..], last)
  }

  ghost predicate AllCas(h: seq<CommitEntry>) {
    forall e | e in h :: e.previousVersion.Some?
  }

  lemma {:induction false} ChainJoin(a: nat, h: seq<CommitEntry>, b: nat, g: seq<CommitEntry>, c: nat)
    requires Chained(a, h, b) && Chained(b, g, c)
    ensures Chained(a, h + g, c)
    decreases |h|
  {
    if h == [] {
      assert h + g == g;
    } else {
      ChainJoin(h[0].extentVersion, h[1..], b, g, c);
      assert (h + g)[1..] == h[1..] + g && (h + g)[0] == h[0];
    }
  }

  lemma {:induction false} BatchChains(c: Catalog, epoch: nat, entries: seq<CommitEntry>, slot: Slot)
    requires KeysAgree(c)
    requires AllCas(StoredAtSlot(c, epoch, entries, slot))
    ensures Chained(VersionAt(c, slot), StoredAtSlot(c, epoch, entries, slot),
                    VersionAt(CommitBatch(c, epoch, entries).0, slot))
    decreases |entries|
  {
    if entries != [] && CommitError(c, epoch, entries[0]).None? {
      var e := entries[0];
      var d := Commit(c, epoch, e).0;
      StoredAt(c, e, slot);
      var rest := StoredAtSlot(d, epoch, entries[1..], slot);
      var all := StoredAtSlot(c, epoch, entries, slot);
      assert e.Slot() == slot ==> all[1..] == rest && all[0] == e;
      assert e.Slot() != slot ==> all == rest;
      BatchChains(d, epoch, entries[1..], slot);
    }
  }

  lemma RequestChains(s: State, req: Request, slot: Slot)
    requires KeysAgree(s.catalog) && req != DeleteVolume(slot.0)
    requires AllCas(StoredBy(s, req, slot))
    ensures Chained(VersionAt(s.catalog, slot), StoredBy(s, req, slot),
                    VersionAt(Apply(s, req).state.catalog, slot))
  {
    match req
    case CommitExtentMapping(e) =>
      SingleIsBatch(s.catalog, s.epoch, e);
      BatchChains(s.catalog, s.epoch, [e], slot);
    case CommitExtentMappingBatch(entries) => BatchChains(s.catalog, s.epoch, entries, slot);
    case DeleteVolume(v) =>
      if v in s.catalog.volumes {
        DeletedAt(s.catalog, v, slot);
      }
    case CreateVolume(v, size, p, extentSize) =>
      CreatedAt(s.catalog, s.epoch, v, size, p, extentSize, slot);
    case _ =>
  }

  // In any stretch of a run that does not delete the volume and in which the
  // successful commits to a block all use compare-and-swap, those commits form a
  // chain from the version at the start to the version at the end.
  lemma {:induction false} CommitsFormChain(s: State, reqs: seq<Request>, i: nat, j: nat, slot: Slot)
    requires KeysAgree(s.catalog) && i <= j <= |reqs|
    requires forall k | i <= k < j :: reqs[k] != DeleteVolume(slot.0)
    requires AllCas(History(s, reqs, i, j, slot))
    ensures Chained(VersionAt(StateAfter(s, reqs, i).catalog, slot),
                    History(s, reqs, i, j, slot),
                    VersionAt(StateAfter(s, reqs, j).catalog, slot))
    decreases j
  {
    if i < j {
      var h := History(s, reqs, i, j - 1, slot);
      var t := StateAfter(s, reqs, j - 1);
      var g := StoredBy(t, reqs[j - 1], slot);
      assert AllCas(h) by {
        forall e | e in h ensures e.previousVersion.Some? { assert e in h + g; }
      }
      assert AllCas(g) by {
        forall e | e in g ensures e.previousVersion.Some? { assert e in h + g; }
      }
      CommitsFormChain(s, reqs, i, j - 1, slot);
      RequestChains(t, reqs[j - 1], slot);
      ChainJoin(VersionAt(StateAfter(s, reqs, i).catalog, slot), h, VersionAt(t.catalog, slot), g,
                VersionAt(Apply(t, reqs[j - 1]).state.catalog, slot));
    }
  }

  lemma {:induction false} ChainRises(first: nat, h: seq<CommitEntry>, last: nat, k: nat, l: nat)
    requires Chained(first, h, last) && k < l < |h|
    requires forall e | e in h :: Advances(e)
    ensures h[k].previousVersion.Some? && h[l].previousVersion.Some?
    ensures first < h[k].extentVersion <= h[l].previousVersion.value < h[l].extentVersion <= last
    ensures h[k].previousVersion.value < h[l].previousVersion.value
    decreases |h|
  {
    assert Advances(h[0]) && Advances(h[k]) && Advances(h[l]);
    var rest := h[1..];
    if k > 0 {
      ChainRises(h[0].extentVersion, rest, last, k - 1, l - 1);
    } else if l > 1 {
      ChainRises(h[0].extentVersion, rest, last, 0, l - 1);
      assert Advances(h[1]);
    } else {
      ChainEnds(h[1].extentVersion, rest[1..], last);
    }
  }

  lemma {:induction false} ChainEnds(first: nat, h: seq<CommitEntry>, last: nat)
    requires Chained(first, h, last)
    requires forall e | e in h :: Advances(e)
    ensures first <= last
    decreases |h|
  {
    if h != [] {
      assert Advances(h[0]);
      ChainEnds(h[0].extentVersion, h[1..], last);
    }
  }

  // No lost update: under the compare-and-swap discipline, versions at a block
  // strictly increase and no two successful commits replace the same version.
  lemma NoLostUpdate(s: State, reqs: seq<Request>, i: nat, j: nat, slot: Slot, k: nat, l: nat)
    requires KeysAgree(s.catalog) && i <= j <= |reqs|
    requires forall m | i <= m < j :: reqs[m] != DeleteVolume(slot.0)
    requires forall e | e in History(s, reqs, i, j, slot) :: Advances(e)
    requires k < l < |History(s, reqs, i, j, slot)|
    ensures var h := History(s, reqs, i, j, slot);
            && h[k].extentVersion < h[l].extentVersion
            && h[k].previousVersion != h[l].previousVersion
            && VersionAt(StateAfter(s, reqs, i).catalog, slot) < h[k].extentVersion
            && h[l].extentVersion <= VersionAt(StateAfter(s, reqs, j).catalog, slot)
  {
    var h := History(s, reqs, i, j, slot);
    assert AllCas(h) by {
      forall e | e in h ensures e.previousVersion.Some? { assert Advances(e); }
    }
    CommitsFormChain(s, reqs, i, j, slot);
    ChainRises(VersionAt(StateAfter(s, reqs, i).catalog, slot), h,
               VersionAt(StateAfter(s, reqs, j).catalog, slot), k, l);
  }
}
