# Blockyard in Dafny

A model of the parts of the Blockyard storage system where a mistake would cost
data, and proofs about them: the replicated metadata state machine, the stores
that carry it through crashes, erasure-coded and replicated reads, gossip
membership, node placement, the disk lifecycle and the data-plane framing.
`dafny verify dfyconfig.toml` checks everything.

## How the model is laid out

| files | component |
|---|---|
| `Metadata`, `MetadataMachine`, `MetadataInvariants`, `MetadataIndex`, `MetadataLeases`, `MetadataCommits`, `MetadataHistory` | the metadata state, its transition function, the object that follows it, and facts about all runs |
| `LogReplay`, `LogStores`, `StateStores`, `CrashSafety` | replay of the raft log, the stores in memory and on disk, snapshots, crashes |
| `ErasureCodec`, `XorCode`, `ErasureRead`, `ErasureReadTheorems`, `ErasureFaults` | splitting, coding, the fragment read loop, end-to-end reads, bad placements and corrupt fragments |
| `Membership`, `Swim`, `SwimRuns`, `SwimExchange`, `SwimSuspicion` | one node's view, the failure detector, the system of all nodes, what messages tell, where suspicions come from |
| `Placement`, `ReplicaSelector`, `ReplicaRead`, `ReadTypes` | rendezvous selection, replica health, the fallback read |
| `DiskStates`, `DiskLifecycle`, `DiskRuns`, `Framing` | the disk inventory, the byte stream |
| `Base`, `StableSort` | identifiers, results, stable sorting |

Objects whose methods update fields are classes whose methods are proved against
functions on values; the theorems are about those functions and about runs of
them.

Conventions. UUIDs are wrapped numbers, and maps keyed by a printed UUID are keyed
by the UUID, because printing is injective. Error texts are constructors that carry
the same data. Counters and times are unbounded except where the code saturates
(the placement epoch). JSON is lossless: serialized state is either the state or
bytes that do not decode, and message parsing inverts message writing (a law of the
codec that `UnaryIsLossless` shows can be met). Database transactions are atomic.
Hash scores, data node replies, clocks, deadlines and map iteration orders are
parameters, so each statement holds for all of them. The Reed-Solomon library enters
through two stated laws, which `XorCode` shows can be met for every K with M = 1.

## Where the code falls short

- `crates/blockyard-raft/src/request.rs:65-67` promises that a batch commits all of
  its mappings or none. `BatchIsNotAtomic` is a batch that keeps one of two;
  `BatchLaw` says what a batch does, from a per-entry test that a caller can make on
  the state before the call, and `AllOrNothingIff` says for every batch when the
  promise is kept.
- The version index finds a mapping only while versions are not reused at other
  blocks. `DuplicateVersionHidesMapping` shows the loss, `RunCompleteIffFresh` the
  exact condition.
- `crates/blockyard-gossip/src/protocol.rs:57` describes an alive message that refutes a
  suspicion. No such message is sent and the raised incarnation never reaches the
  member record, so by `DeadForever` a member once seen as dead stays dead in that
  view, even if it restarts, while it knows itself to be alive. `LiveNodeHeldDead` is
  such a run, for every suspicion timeout. By `SuspicionHasAProbe` every suspicion goes
  back to a probe that somebody gave up.
- `crates/blockyard-gossip/src/protocol.rs:39-48` speaks of indirect probes and of acks to
  them. By `RelayedAckStaysAtRelay` the ack that a relayed ping calls forth goes to the
  relay, which does nothing for the prober.
- Lease exclusion rests on clocks: `ClockGoingBackBreaksExclusion` hands a lease out
  early; `OtherSessionAcquiresIff` is the exact rule without any clock assumption.
- A disk degraded by telemetry is not queued for evacuation:
  `TelemetryDegradesUnqueued`. By `QueuedIff` a disk is queued in a run if and only if
  it is asked to become degraded while not yet draining; by `DegradedIsUnqueued` a disk
  that is found degraded has never been queued.
- `crates/blockyard-client/src/ec_read_pipeline.rs:5-6` promises that failed fragments are
  substituted and corrupt ones reported. A corrupt fragment counts among the K, so the
  parity fragments are not asked for: `OneBadByteFailsRead` fails the read of any extent
  that way, while a node that fails outright is made up for
  (`SilentFragmentIsMadeUpFor`). `DataAnswersDecide` says when a read succeeds whose data
  nodes all answer.
- The fragment read takes the indexes of the mapping on trust. By `NeverPanicsIff` a read
  is safe from panic, whatever the nodes answer, if and only if all indexes are inside
  the stripe; for any other mapping `OutsidePanics` has answers that make it panic.

## Model

| member | source | states |
|---|---|---|
| Metadata.Apply | crates/blockyard-raft/src/state_machine.rs:150-404 | on a state whose volume and mapping tables have the same keys, no insisted-on lookup fails, and the keys agree again afterwards |
| MetadataMachine.MetadataStateMachine.constructor | crates/blockyard-raft/src/state_machine.rs:121-145 | a new state machine holds the empty state |
| MetadataMachine.MetadataStateMachine.ApplyRequest | crates/blockyard-raft/src/state_machine.rs:150-404 | updating the fields in place gives the state and the response of the transition function, for every request |
| MetadataMachine.MetadataStateMachine.CreateVolume | crates/blockyard-raft/src/state_machine.rs:173-198 | creation follows the transition function, error cases included, and touches volumes and mappings only |
| MetadataMachine.MetadataStateMachine.DeleteVolume | crates/blockyard-raft/src/state_machine.rs:200-215 | deletion drops the volume, its mappings, all of their index entries and its lease, or nothing |
| MetadataMachine.MetadataStateMachine.ForgetMappings | crates/blockyard-raft/src/state_machine.rs:205-212 | the loop over the mappings removes exactly their operation ids and versions from the indexes |
| MetadataMachine.MetadataStateMachine.CommitExtentMapping | crates/blockyard-raft/src/state_machine.rs:223-294 | the checks, the index maintenance and the store follow the transition function step by step |
| MetadataMachine.MetadataStateMachine.CommitExtentMappingBatch | crates/blockyard-raft/src/state_machine.rs:296-317 | the loop over the entries computes the batch, stopping at the first error |
| MetadataMachine.MetadataStateMachine.UpdatePlacementMap | crates/blockyard-raft/src/state_machine.rs:319-324 | the loop merges all assignments over the old map |
| MetadataMachine.MetadataStateMachine.ApplyLeaseRequest | crates/blockyard-raft/src/state_machine.rs:503-613 | acquire, renew and release follow the transition function, touching leases and their counter only |
| MetadataMachine.MetadataStateMachine.CleanupExpiredLeases | crates/blockyard-raft/src/state_machine.rs:483-487 | exactly the leases not expired are kept, and the number removed is returned |
| MetadataMachine.MetadataStateMachine.RegisterNode | crates/blockyard-raft/src/state_machine.rs:330-361 | a known node keeps its raft id, a new one gets the next, and the address is updated |
| MetadataMachine.MetadataStateMachine.ApplyListChange | crates/blockyard-raft/src/state_machine.rs:363-397 | node and disk list requests follow the transition function |
| MetadataMachine.MetadataStateMachine.NodeIdByRaftId | crates/blockyard-raft/src/state_machine.rs:458-463 | a node is found exactly for the assigned ids, and its raft id is the one asked for |
| MetadataMachine.MetadataStateMachine.Load | crates/blockyard-raft/src/persistent_store.rs:450-455 | the whole state is replaced |
| MetadataInvariants.ApplyKeepsWellFormed | crates/blockyard-raft/src/state_machine.rs:150-404 | every request keeps: equal volume and mapping keys, mappings at their own range start, epochs reached, leases on existing volumes with distinct issued versions, raft ids in bijection with 1..counter |
| MetadataInvariants.ReachableWellFormed | crates/blockyard-raft/src/state_machine.rs:121-404 | all of that holds in every state of every run |
| MetadataInvariants.RefusalChangesNothing | crates/blockyard-raft/src/state_machine.rs:150-404 | outside a batch, an error or a denial leaves the state as it was |
| MetadataInvariants.RaftIdsArePermanent | crates/blockyard-raft/src/state_machine.rs:164-171 | through any requests, node removal included, a node keeps its raft id |
| MetadataInvariants.OneRaftIdPerNode | crates/blockyard-raft/src/state_machine.rs:330-361 | in any run, two registrations return the same raft id if and only if they are of the same node |
| MetadataHistory.EpochCountsAdvances | crates/blockyard-raft/src/state_machine.rs:217-221 | in any run the epoch is the number of advances, up to the largest 64-bit number |
| MetadataHistory.StaleCommitRefused | crates/blockyard-raft/src/state_machine.rs:236-250 | a commit stamped with an earlier epoch is refused as stale once the epoch has been advanced |
| MetadataHistory.NodesFollowRequests | crates/blockyard-raft/src/state_machine.rs:152-171 | in any run a node is listed under the address last given, unless removed since |
| MetadataHistory.NodeAnswers | crates/blockyard-raft/src/state_machine.rs:164-171 | removal is refused if and only if the node is not listed |
| MetadataHistory.DisksFollowRequests | crates/blockyard-raft/src/state_machine.rs:363-397 | in any run a disk is listed as last registered, with the usage last reported since, until deregistered |
| MetadataHistory.DiskAnswers | crates/blockyard-raft/src/state_machine.rs:376-397 | usage and deregistration are refused if and only if the disk is not listed |
| MetadataHistory.PlacementFollowsRequests | crates/blockyard-raft/src/state_machine.rs:319-324 | in any run each key of the placement map has what was last assigned to it |
| MetadataHistory.VolumesFollowRequests | crates/blockyard-raft/src/state_machine.rs:173-215 | in any run a volume is recorded as first created since its last deletion, under the epoch of that time |
| MetadataHistory.VolumeAnswers | crates/blockyard-raft/src/state_machine.rs:173-215 | creation is refused if and only if the volume exists or the policy protects nothing, deletion if and only if it does not exist |
| MetadataHistory.CommitAnswers | crates/blockyard-raft/src/state_machine.rs:223-266 | a commit answers with the epoch or names the first thing wrong: volume, epoch, or the version expected at the block |
| MetadataHistory.CommittedStands | crates/blockyard-raft/src/state_machine.rs:268-294 | in any run every field of a committed mapping is found at its block until the volume is deleted or another commit to the block succeeds |
| MetadataIndex.StoredAt | crates/blockyard-raft/src/state_machine.rs:268-292 | after a commit, its slot holds the new mapping and every other slot what it held |
| MetadataIndex.DeletedAt | crates/blockyard-raft/src/state_machine.rs:200-212 | after a deletion, the volume's slots are empty and all others unchanged |
| MetadataIndex.ReachableIndexesSound | crates/blockyard-raft/src/state_machine.rs:200-294 | in every reachable state each index entry points at a live mapping carrying that id or version |
| MetadataIndex.CompleteIffFresh | crates/blockyard-raft/src/state_machine.rs:268-292 | a stored mapping keeps both indexes complete if and only if its version and id are in use at no other slot |
| MetadataIndex.BatchCompleteIffFresh | crates/blockyard-raft/src/state_machine.rs:296-317 | the same, entry by entry, through a batch |
| MetadataIndex.DeleteKeepsComplete | crates/blockyard-raft/src/state_machine.rs:205-212 | deleting a volume takes no other volume's mapping out of the indexes |
| MetadataIndex.RunCompleteIffFresh | crates/blockyard-raft/src/state_machine.rs:150-404 | over any run, the indexes stay complete throughout if and only if every stored version and id was fresh |
| MetadataIndex.LookupsAreScans | crates/blockyard-raft/src/state_machine.rs:407-417 | while sound and complete, each lookup returns the one mapping that a scan of all mappings finds |
| MetadataIndex.MissMeansAbsent | crates/blockyard-raft/src/state_machine.rs:407-417 | and it finds nothing exactly when no mapping carries the id or version |
| MetadataIndex.RunLookupsFind | crates/blockyard-raft/src/state_machine.rs:407-417 | after any run that stored only fresh versions and ids, both lookups give the one mapping that a scan finds, or nothing where it finds none |
| MetadataIndex.DuplicateVersionHidesMapping | crates/blockyard-common/src/placement.rs:58-64 | a run that reuses a version leaves a live mapping that its own version no longer finds |
| MetadataLeases.IssuedVersionsIncrease | crates/blockyard-raft/src/state_machine.rs:530-590 | lease versions handed out in a run strictly increase, across volumes, deletion and re-creation |
| MetadataLeases.ValidatedVersionsNeverDecrease | crates/blockyard-raft/src/state_machine.rs:624-656 | no later state of a run accepts an older version for a volume, at any clock readings |
| MetadataLeases.OneSessionPerVersion | crates/blockyard-raft/src/state_machine.rs:624-656 | in all states of a run a version validates for one session on one volume only |
| MetadataLeases.IssuedLeaseValidates | crates/blockyard-raft/src/state_machine.rs:505-591 | right after it is issued, a lease validates for exactly its session and version, exactly before request time plus time to live |
| MetadataLeases.RenewOutcome | crates/blockyard-raft/src/state_machine.rs:548-591 | a renewal is issued if and only if the session's lease validates at that time for some version |
| MetadataLeases.AcquireIff | crates/blockyard-raft/src/state_machine.rs:505-546 | an acquire, the holder's own included, is granted the next version if and only if the volume exists and no other session validates at that time; otherwise the denial names the reason |
| MetadataLeases.IssuedRecord | crates/blockyard-raft/src/state_machine.rs:530-591 | a grant records holder, time, expiry and version; a renewal changes expiry and version only |
| MetadataLeases.DenialReasons | crates/blockyard-raft/src/state_machine.rs:548-656 | which denial a renewal, a release or a write gets: no lease, held by another, expired, or a stale version |
| MetadataLeases.CleanupOutcome | crates/blockyard-raft/src/state_machine.rs:483-487 | a cleanup takes exactly the expired leases and answers with their number |
| MetadataLeases.NothingValidatesAfterRelease | crates/blockyard-raft/src/state_machine.rs:593-611 | after the holder's release, or after deletion of the volume, nothing validates |
| MetadataLeases.HeldWasIssued | crates/blockyard-raft/src/state_machine.rs:503-613 | every lease of a reachable state was handed to its holder, for that volume and version, by an earlier request |
| MetadataLeases.LeaseLeftAlone | crates/blockyard-raft/src/state_machine.rs:483-487 | a lease that is not reissued, released or deleted vanishes exactly through a cleanup stamped at or after its expiry |
| MetadataLeases.OtherSessionAcquiresIff | crates/blockyard-raft/src/state_machine.rs:505-546 | then another session acquires if and only if its request, or a cleanup before it, is stamped at or after the expiry |
| MetadataLeases.HolderAcquiresAgain | crates/blockyard-raft/src/state_machine.rs:519-546 | meanwhile the holder itself may acquire at any time and is granted the next version |
| MetadataLeases.ReleaseOutcome | crates/blockyard-raft/src/state_machine.rs:593-611 | another session's release is refused and changes nothing until the lease is cleaned up; the holder's own succeeds |
| MetadataLeases.LeaseExclusion | crates/blockyard-common/src/lease.rs:30-36 | with clocks that never go back, another session acquires if and only if at or after the last expiry given to the holder |
| MetadataLeases.ClockGoingBackBreaksExclusion | crates/blockyard-raft/src/state_machine.rs:483-546 | a run with one clock step back grants the lease before the first holder's expiry |
| MetadataCommits.AcceptableIffCommits | crates/blockyard-raft/src/state_machine.rs:236-266 | a test on the state before the batch and the entries ahead decides whether an entry commits |
| MetadataCommits.BatchLaw | crates/blockyard-raft/src/state_machine.rs:296-317 | a batch does what its entries up to the first unacceptable one do as single requests, and answers as that one does |
| MetadataCommits.AllOrNothingIff | crates/blockyard-raft/src/request.rs:65-67 | for every batch, the state ends up with all entries or as it was, indexes included, if and only if every entry is acceptable or the entries ahead of the first unacceptable one leave each slot they touch, and the index entries of their own versions and ids, as they were; all of it read off the state before the call |
| MetadataCommits.MappingsKeptIff | crates/blockyard-raft/src/state_machine.rs:296-317 | for every batch, accepted or not, the mappings alone are as before if and only if the entries up to the first unacceptable one leave each slot as it was |
| MetadataCommits.AllOrNothingIfAdvancing | crates/blockyard-raft/src/request.rs:65-67 | for batches in which each entry replaces a version by a later one, all-or-nothing holds if and only if all entries are acceptable or the first is not |
| MetadataCommits.BatchIsNotAtomic | crates/blockyard-raft/src/request.rs:65-67 | a reachable state and a batch of two that breaks the promise |
| MetadataCommits.CommitsFormChain | crates/blockyard-raft/src/state_machine.rs:252-293 | compare-and-swap commits to one block in any stretch of a run without deletion, batches included, each name the version the previous one left |
| MetadataCommits.NoLostUpdate | crates/blockyard-raft/src/state_machine.rs:252-293 | if each names a version below its own, versions strictly increase and no two replace the same version |
| LogReplay.ReplayInBatches | crates/blockyard-raft/src/store.rs:267-294 | splitting a log into two batches changes neither state nor responses |
| LogReplay.BatchingIsIrrelevant | crates/blockyard-raft/src/store.rs:267-294 | the same for any way of cutting a log into batches |
| LogReplay.ResumeAt | crates/blockyard-raft/src/store.rs:8-11 | replay resumed after n entries reaches the same state, with the responses of an uninterrupted run |
| LogReplay.ReplayIsRun | crates/blockyard-raft/src/store.rs:275-291 | apart from the raft marks, replaying a log runs its requests in order |
| LogReplay.ReplayAnswers | crates/blockyard-raft/src/store.rs:275-291 | each entry is answered as its request is in that run, other entries with an empty answer |
| LogReplay.MarksFollowLog | crates/blockyard-raft/src/store.rs:275-291 | after n entries the last applied id is that of entry n, and the membership that of the last membership entry, under its id |
| LogReplay.LastMembershipDecides | crates/blockyard-raft/src/store.rs:285-289 | that is the membership of entry k if no membership entry follows it |
| LogReplay.ReplayedIsWellFormed | crates/blockyard-raft/src/store.rs:275-291 | so every replayed state is well formed with sound indexes |
| LogStores.LogStore.SaveVote | crates/blockyard-raft/src/store.rs:106-110 | the vote is replaced and nothing else |
| LogStores.LogStore.Append | crates/blockyard-raft/src/store.rs:121-136 | entries are stored at their indexes, later ones winning |
| LogStores.LogStore.Truncate | crates/blockyard-raft/src/store.rs:138-145 | exactly the entries from the index on are removed |
| LogStores.LogStore.Purge | crates/blockyard-raft/src/store.rs:147-155 | exactly the entries up to the index are removed and the purge mark is set |
| LogStores.PersistentLogStore.SaveVote | crates/blockyard-raft/src/persistent_store.rs:138-147 | as in memory |
| LogStores.PersistentLogStore.Append | crates/blockyard-raft/src/persistent_store.rs:165-187 | as in memory, in one transaction |
| LogStores.PersistentLogStore.Truncate | crates/blockyard-raft/src/persistent_store.rs:189-205 | as in memory, in one transaction |
| LogStores.PersistentLogStore.Purge | crates/blockyard-raft/src/persistent_store.rs:207-226 | as in memory, entries and purge mark in one transaction |
| LogStores.ReadHeld | crates/blockyard-raft/src/persistent_store.rs:90-104 | held entries are read back as that stretch of the log |
| LogStores.AppendedAt | crates/blockyard-raft/src/store.rs:121-136 | after appending, each index holds the last entry appended there, or what it held |
| LogStores.TruncateThenRead | crates/blockyard-raft/src/store.rs:138-145 | after truncation nothing is read from the index on, and everything as before below it |
| LogStores.PurgeThenRead | crates/blockyard-raft/src/store.rs:147-155 | after a purge nothing is read up to the index, and everything as before above it |
| StateStores.ApplyEntries | crates/blockyard-raft/src/store.rs:267-294 | the loop over entries gives the state and responses of replay |
| StateStores.StateMachineStore.ApplyBatch | crates/blockyard-raft/src/store.rs:267-294 | the in-memory store applies entries as specified |
| StateStores.StateMachineStore.BuildSnapshot | crates/blockyard-raft/src/store.rs:211-248 | builds, numbers and keeps a snapshot of the state |
| StateStores.StateMachineStore.InstallSnapshot | crates/blockyard-raft/src/store.rs:306-334 | replaces state and snapshot, or nothing if the bytes do not decode |
| StateStores.PersistentStateMachineStore.Open | crates/blockyard-raft/src/persistent_store.rs:242-284 | loads the three persisted rows, each where it is present and decodes, else what was held |
| StateStores.PersistentStateMachineStore.PersistState | crates/blockyard-raft/src/persistent_store.rs:297-317 | all three rows are written from the state in memory |
| StateStores.PersistentStateMachineStore.ApplyBatch | crates/blockyard-raft/src/persistent_store.rs:396-426 | applies in memory, then persists the result |
| StateStores.PersistentStateMachineStore.BuildSnapshot | crates/blockyard-raft/src/persistent_store.rs:331-371 | writes the snapshot and leaves the state rows alone |
| StateStores.PersistentStateMachineStore.InstallSnapshot | crates/blockyard-raft/src/persistent_store.rs:438-472 | replaces memory, state rows and snapshot, or nothing if the bytes do not decode |
| StateStores.SnapshotThenSuffix | crates/blockyard-raft/src/store.rs:306-334 | whatever a store held, installing a snapshot built after n entries and applying the rest equals full replay, raft marks and responses included |
| StateStores.DamageOutcome | crates/blockyard-raft/src/persistent_store.rs:242-284 | missing or undecodable mark rows lose nothing; without the data row only the marks are left |
| CrashSafety.StepMatches | crates/blockyard-raft/src/persistent_store.rs:242-472 | each operation on the persistent store matches the same operation in memory, exactly until a reopen, up to snapshot numbers after |
| CrashSafety.PersistentMatchesMemory | crates/blockyard-raft/src/persistent_store.rs:242-472 | so do all sequences of operations, reopening at will and installing any snapshots: states, snapshots and answers are equal while there is no reopen, and equal up to snapshot numbers after |
| CrashSafety.StoreSteps | crates/blockyard-raft/src/store.rs:211-334 | what each operation leaves and answers: fields, id and number of a built snapshot, state and marks after an install, nothing after a failed one |
| CrashSafety.CurrentIsLastKept | crates/blockyard-raft/src/store.rs:211-345 | through any operations the current snapshot is that of the last successful build or install, and builds are numbered in order |
| CrashSafety.UninterruptedApply | crates/blockyard-raft/src/persistent_store.rs:396-426 | the events of an apply that is not interrupted add up to the store's operation |
| CrashSafety.UninterruptedSnapshots | crates/blockyard-raft/src/persistent_store.rs:438-472 | the same for installing and building snapshots and for reopening |
| CrashSafety.EveryRunIsSafe | crates/blockyard-raft/src/persistent_store.rs:242-472 | under any interleaving of applies, snapshots, log changes, failed transactions and crashes at every transaction boundary, memory and disk each hold the fold of a prefix of the committed log |
| CrashSafety.AcknowledgedSurvives | crates/blockyard-raft/src/persistent_store.rs:421-425 | no entry whose apply returned is ever missing on disk again |
| CrashSafety.ReplayableIffHeld | crates/blockyard-raft/src/persistent_store.rs:207-226 | the log store can feed a replay if and only if it still holds each entry |
| CrashSafety.CrashRecovery | crates/blockyard-raft/src/persistent_store.rs:242-284 | after a crash anywhere, reopening and replaying gives the state and the answers of an uninterrupted run whenever the log store holds the committed entries that the disk state lacks |
| CrashSafety.UnpurgedRecovers | crates/blockyard-raft/src/persistent_store.rs:207-226 | in particular whenever none of them has been purged |
| CrashSafety.ResendingRecovers | crates/blockyard-raft/src/persistent_store.rs:165-187 | and whatever was purged, at any point of any run the missing entries can be appended again, after which the node recovers |
| CrashSafety.StoringEnablesCommit | crates/blockyard-raft/src/persistent_store.rs:165-187 | appending the next entries of the log lets them be committed |
| CrashSafety.NodesStayWellFormed | crates/blockyard-raft/src/persistent_store.rs:242-472 | at every point of every such run, memory and disk hold well-formed states with sound indexes |
| CrashSafety.NodesKeepMarks | crates/blockyard-raft/src/persistent_store.rs:396-472 | at every point of every such run memory, disk and snapshot carry the last applied id and the membership of the log up to where they stand |
| CrashSafety.NodesAgree | crates/blockyard-raft/src/persistent_store.rs:242-472 | nodes that applied equally many entries hold equal states, whatever batches, snapshots and crashes brought them there |
| ErasureCodec.FragmentSize | crates/blockyard-client/src/ec.rs:90-92 | the least size at which K fragments cover the data |
| ErasureCodec.Encode | crates/blockyard-client/src/ec.rs:99-145 | the shard loops split and pad the data as specified, then code it |
| ErasureCodec.EncodeOutcome | crates/blockyard-client/src/ec.rs:99-145 | encoding fails if and only if the data is empty or the library fails; fragments are numbered, the first K marked as data |
| ErasureCodec.PieceBytes | crates/blockyard-client/src/ec.rs:104-116 | each byte of a piece is the byte of the data there, or zero past its end |
| ErasureCodec.JoinedPieces | crates/blockyard-client/src/ec.rs:104-116 | the padded pieces joined together begin with the data |
| ErasureCodec.Decode | crates/blockyard-client/src/ec.rs:154-207 | count check, reconstruction, join and truncation, with all error cases |
| ErasureCodec.DecodeErrors | crates/blockyard-client/src/ec.rs:154-207 | which error decoding gives, and exactly when |
| ErasureCodec.DecodeAfterEncode | crates/blockyard-client/src/ec.rs:94-207 | any K fragments of any encoded data decode to exactly that data; fewer are reported as too few |
| XorCode.XorIsLawful | crates/blockyard-client/src/ec.rs:60-64 | the laws asked of the coding library can be met, for every K |
| ErasureRead.AskingOrder | crates/blockyard-client/src/ec_read_pipeline.rs:237-284 | each placement is asked for once, data before parity, each kind in the selector's order, ties as listed |
| ErasureRead.ReadFragments | crates/blockyard-client/src/ec_read_pipeline.rs:155-235 | the loop fills the slots, stops at K successes, reports each asked node once, in order, and panics on a fragment without a slot |
| ErasureRead.Read | crates/blockyard-client/src/ec_read_pipeline.rs:74-152 | every check, every error and the panic of the read, in order, for every mapping; nodes are asked and reported only by a read that passes its checks |
| ErasureFaults.Refusals | crates/blockyard-client/src/ec_read_pipeline.rs:79-119 | which refusal a read gets, exactly when, whatever the nodes would answer |
| ErasureFaults.ServedIsFresh | crates/blockyard-client/src/ec_read_pipeline.rs:90-151 | data is served only from a mapping at or above the watermark, with its version and checksum, naming the node of its first placement |
| ErasureFaults.StaleIff | crates/blockyard-client/src/ec_read_pipeline.rs:90-116 | a read reports a stale mapping if and only if the mapping is behind the watermark and the refresh works |
| ErasureFaults.UndecodableOutcome | crates/blockyard-client/src/ec_read_pipeline.rs:123-134 | what a read gives that has K answers and cannot decode them |
| ErasureFaults.ReportsAreRight | crates/blockyard-client/src/ec_read_pipeline.rs:167-229 | each asked node is reported once, in order, as read if and only if it answered |
| ErasureFaults.PositionIsFirst | crates/blockyard-client/src/ec_read_pipeline.rs:262-270 | a node's rank is where the selector first lists it, behind all listed ones if it does not |
| ErasureReadTheorems.ScanFills | crates/blockyard-client/src/ec_read_pipeline.rs:186-203 | with distinct fragment indexes each success fills its own slot with its node's reply |
| ErasureReadTheorems.AskedStopsAtK | crates/blockyard-client/src/ec_read_pipeline.rs:167-170 | at most K fragments are taken and no node is asked after the Kth answer, nor after a panic |
| ErasureReadTheorems.PanicsIff | crates/blockyard-client/src/ec_read_pipeline.rs:197-202 | the loop panics if and only if a node answers for an index outside the stripe while fewer than K have answered |
| ErasureFaults.OutsidePanics | crates/blockyard-client/src/ec_read_pipeline.rs:186-203 | for every mapping with an index outside the stripe there are answers on which the read panics |
| ErasureFaults.NeverPanicsIff | crates/blockyard-client/src/ec_read_pipeline.rs:155-203 | a read that goes ahead panics on no answers at all if and only if every index of the mapping is inside the stripe |
| ErasureReadTheorems.DataNodesSuffice | crates/blockyard-client/src/ec_read_pipeline.rs:237-284 | when all data nodes answer, exactly the K data nodes are asked |
| ErasureReadTheorems.EndToEnd | crates/blockyard-client/src/ec_read_pipeline.rs:66-152 | for all data, K, M and selector orders, a well-placed extent is read back exactly if at most M nodes fail, and in general if and only if K answer |
| ErasureFaults.DataAnswersDecide | crates/blockyard-client/src/ec_read_pipeline.rs:120-140 | when all data nodes answer with shards of one size, right or wrong, the read succeeds if and only if the joined and truncated bytes have the checksum, and is corrupt otherwise |
| ErasureFaults.BadFragmentDecides | crates/blockyard-client/src/ec_read_pipeline.rs:5-6 | so a corrupt data fragment decides the read although all other fragments, parity included, are good |
| ErasureFaults.OneBadByteFailsRead | crates/blockyard-client/src/ec_read_pipeline.rs:5-6 | for every extent, K, M and order, one wrong byte from one node fails the read |
| ErasureFaults.SilentFragmentIsMadeUpFor | crates/blockyard-client/src/ec_read_pipeline.rs:5-6 | had that node not answered, the read would have succeeded |
| ErasureFaults.ReadyExists | crates/blockyard-client/src/ec_read_pipeline.rs:66-152 | the extents these theorems speak of exist for any data and K |
| ErasureReadTheorems.RendezvousPlacesWell | crates/blockyard-common/src/placement.rs:102-115 | stripes placed by selection from enough distinct nodes are well placed |
| Membership.MemberList.constructor | crates/blockyard-gossip/src/member.rs:76-84 | a node starts by knowing itself, alive at incarnation zero |
| Membership.MemberList.ApplyUpdate | crates/blockyard-gossip/src/member.rs:147-183 | merging one update in place, with the change flag |
| Membership.MemberList.HandleLocalUpdate | crates/blockyard-gossip/src/member.rs:241-254 | claims about oneself raise the incarnation counter only |
| Membership.MemberList.ApplyUpdates | crates/blockyard-gossip/src/member.rs:224-228 | the loop merges all updates in order |
| Membership.MemberList.MarkMemberSuspect | crates/blockyard-gossip/src/member.rs:186-197 | an alive member becomes suspect, anything else stays |
| Membership.MemberList.MarkMemberDead | crates/blockyard-gossip/src/member.rs:200-211 | a member that is not dead becomes dead |
| Membership.MergeIsMax | crates/blockyard-gossip/src/member.rs:258-275 | the override rule keeps the higher of incarnation, then state |
| Membership.MergeLaw | crates/blockyard-gossip/src/member.rs:147-183 | after any updates, what is held of another member is the highest of what was held and received |
| Membership.OrderIsIrrelevant | crates/blockyard-gossip/src/member.rs:224-228 | order and repetition of updates do not matter |
| Membership.MergeInBatches | crates/blockyard-gossip/src/member.rs:224-228 | nor does batching |
| Membership.MergedRecord | crates/blockyard-gossip/src/member.rs:147-183 | the record held afterwards comes whole from a highest update, dated now, or is unchanged |
| Membership.MergeFlagIff | crates/blockyard-gossip/src/member.rs:147-183 | a merge reports a change if and only if another member became known or changed state |
| Membership.ClaimsRaiseCounter | crates/blockyard-gossip/src/member.rs:241-254 | each claim against oneself raises the counter by one and leaves the own record alone |
| Membership.MarksOutcome | crates/blockyard-gossip/src/member.rs:186-211 | what marking does, to whom, and what it reports |
| Membership.RecentAreNewest | crates/blockyard-gossip/src/member.rs:215-222 | a message carries the records of the highest incarnations, as many as fit |
| Membership.SwapAgrees | crates/blockyard-gossip/src/member.rs:215-228 | two nodes that swap whole views agree on every third member, on the higher of the two |
| Membership.PingAckAgrees | crates/blockyard-gossip/src/swim.rs:236-254 | so do two nodes after a ping and its ack, if the merged view fits in one message |
| Swim.SwimProtocol.BeginProbe | crates/blockyard-gossip/src/swim.rs:94-135 | without probe targets the cycle is skipped; otherwise the target at the next sequence number is pinged and the probe noted under a new one |
| Swim.SwimProtocol.SendIndirectProbes | crates/blockyard-gossip/src/swim.rs:183-227 | up to three of the alive members other than oneself and the target are sent the same request, and none if there are none |
| Swim.SwimProtocol.FinishProbe | crates/blockyard-gossip/src/swim.rs:138-180 | the target becomes suspect unless the wait has seen the ack, which it can miss at the deadline; the probe is forgotten |
| Swim.SwimProtocol.HandleMessage | crates/blockyard-gossip/src/swim.rs:230-340 | piggybacked and announced updates are merged, acks clear probes, replies carry the new view |
| Swim.SwimProtocol.ReapSuspects | crates/blockyard-gossip/src/swim.rs:343-360 | exactly the suspects whose time is up become dead |
| Swim.SwimProtocol.JoinSeeds | crates/blockyard-gossip/src/swim.rs:363-378 | a join goes once to each listed seed other than oneself, in order |
| SwimExchange.DeliverMerges | crates/blockyard-gossip/src/swim.rs:230-340 | after any delivered message the node holds of every other member the higher of what it held and what the message reports |
| SwimExchange.AnswersTo | crates/blockyard-gossip/src/swim.rs:238-310 | what each message is answered with, under which number, and to which address |
| SwimExchange.AcksClearProbes | crates/blockyard-gossip/src/swim.rs:282-287 | an ack clears the probe of its number and no other |
| SwimExchange.ProbeIsNoted | crates/blockyard-gossip/src/swim.rs:101-135 | a probe is noted under a number no pending probe has, and its ping is sent |
| SwimExchange.RelaysAreAsked | crates/blockyard-gossip/src/swim.rs:183-227 | asking relays marks the probe and sends what they need to ping the target |
| SwimExchange.ProbeEnds | crates/blockyard-gossip/src/swim.rs:147-153 | a probe that ends is forgotten and its target suspected unless the ack was seen; nothing else changes |
| SwimExchange.PingIsAcked | crates/blockyard-gossip/src/swim.rs:238-254 | a delivered ping is acked under its number with the view it leaves behind |
| SwimExchange.ProbeExchangeAgrees | crates/blockyard-gossip/src/swim.rs:94-287 | in the run of a probe, its ping and its ack, prober and target come to agree on every third member if both views fit, and the probe is no longer pending |
| SwimExchange.RelayedAckStaysAtRelay | crates/blockyard-gossip/src/swim.rs:255-281 | the ack to a relayed ping goes to the relay and no further |
| SwimExchange.JoinsGoToOthers | crates/blockyard-gossip/src/swim.rs:363-378 | joins go to the listed seeds other than oneself, in order and as often as listed |
| SwimExchange.BootsAlone | crates/blockyard-gossip/src/member.rs:76-84 | a node that boots knows only itself |
| SwimExchange.ReapWaits | crates/blockyard-gossip/src/swim.rs:343-360 | in any run reaping declares a member dead if and only if it has been suspect for the timeout since the step that made it so |
| SwimRuns.StepSafe | crates/blockyard-gossip/src/swim.rs:94-378 | each step keeps own records alive at incarnation zero and all messages at incarnation zero, and lets views only rise |
| SwimRuns.EveryRunIsSafe | crates/blockyard-gossip/src/swim.rs:94-378 | so in every state of every run of any nodes, with loss, duplication, reordering, late acks and restarts |
| SwimRuns.ViewsOnlyRise | crates/blockyard-gossip/src/member.rs:147-254 | over any run, until it restarts, a node's view of every other member only rises in incarnation, then state |
| SwimRuns.DeadForever | crates/blockyard-gossip/src/member.rs:241-254 | a member once seen as dead is seen so until the node seeing it restarts, while it holds itself alive, even if it joins again or restarts |
| SwimRuns.LiveNodeHeldDead | crates/blockyard-gossip/src/swim.rs:138-153 | for every suspicion timeout, a run in which both nodes are up and one comes to see the other as dead |
| SwimSuspicion.EveryRunIsGrounded | crates/blockyard-gossip/src/swim.rs:94-378 | in every run only members whose probe was given up are held or reported as suspect or dead |
| SwimSuspicion.SuspicionHasAProbe | crates/blockyard-gossip/src/swim.rs:138-153 | every suspect or dead record, in any view, goes back to an earlier probe of that member given up without a seen ack |
| Placement.SelectionIsLowestScores | crates/blockyard-common/src/placement.rs:70-100 | min(count, n) distinct nodes are selected, and no node left out scores lower |
| Placement.SelectionSequence | crates/blockyard-common/src/placement.rs:70-100 | the selection comes by rising score, ties as listed, and as listed if all nodes are wanted |
| Placement.LosingUnselected | crates/blockyard-common/src/placement.rs:70-100 | removing an unselected node keeps the selected set, ties included |
| Placement.LosingSelected | crates/blockyard-common/src/placement.rs:70-100 | removing a selected node replaces that one only, by the next in rank |
| Placement.JoiningDisplacesAtMostOne | crates/blockyard-common/src/placement.rs:70-100 | adding a node displaces at most one, and none unless it is selected |
| Placement.StripeGetsDistinctNodes | crates/blockyard-common/src/placement.rs:106-115 | a K+M stripe gets K+M distinct nodes when there are that many |
| ReplicaSelector.LatencyAwareSelector.RecordSuccess | crates/blockyard-client/src/selector.rs:79-95 | averages the latency and counts a suspect's failures down |
| ReplicaSelector.LatencyAwareSelector.RecordFailure | crates/blockyard-client/src/selector.rs:97-112 | counts up and marks suspect, or failed from three on |
| ReplicaSelector.LatencyAwareSelector.MarkSuspect | crates/blockyard-client/src/selector.rs:114-124 | marks suspect and keeps the count |
| ReplicaSelector.HealthAlwaysSound | crates/blockyard-client/src/selector.rs:79-124 | after any observations, healthy means no failures and failed means at least three |
| ReplicaSelector.LatencyStaysInRange | crates/blockyard-client/src/selector.rs:88 | the estimate stays within every range holding the default and all samples |
| ReplicaSelector.FailedUntilMarkedSuspect | crates/blockyard-client/src/selector.rs:79-124 | a failed replica stays failed until it is marked suspect |
| ReplicaSelector.RecoversAfter | crates/blockyard-client/src/selector.rs:89-94 | a suspect with c failures is healthy again after exactly max(1, c) successes, whatever others do |
| ReplicaSelector.FailsAfter | crates/blockyard-client/src/selector.rs:97-112 | each failure is counted, and a replica is failed if and only if the count reaches three |
| ReplicaSelector.CorruptionOutcome | crates/blockyard-client/src/selector.rs:114-124 | corruption makes any replica suspect and changes nothing else |
| ReplicaSelector.OthersUnaffected | crates/blockyard-client/src/selector.rs:79-124 | an observation of one replica leaves the others alone |
| ReplicaSelector.LatencyConverges | crates/blockyard-client/src/selector.rs:88 | each answer in a steady time halves the distance of the estimate from it |
| ReplicaSelector.SelectionOrder | crates/blockyard-client/src/selector.rs:53-73 | failed replicas come last, then local before remote, then the healthier, then the faster, and alike ones as listed |
| ReplicaSelector.SelectionIsPermutation | crates/blockyard-client/src/selector.rs:53-73 | every replica is selected as often as it is listed |
| ReplicaRead.ReadWithFallback | crates/blockyard-client/src/pipeline.rs:147-256 | the first node in order with the right checksum answers; each earlier one is reported once with the right kind, later ones are not asked; all corrupt exactly when all mismatched; the no-error fallback is unreachable |
| ReplicaRead.EffectsAreRight | crates/blockyard-client/src/pipeline.rs:170-237 | each node that did not answer well is reported once, as corrupt with both checksums or as failed with its error |
| ReplicaRead.MissesTeachSelector | crates/blockyard-client/src/pipeline.rs:170-237 | after the misses of a read the selector holds corrupt nodes suspect, counts failed ones, and leaves the others |
| ReplicaRead.MappingMeetsWatermark | crates/blockyard-client/src/pipeline.rs:95-145 | only a mapping at or above the watermark is used, the cached one if it qualifies, else the refreshed one; without one the error says what was missing |
| ReplicaRead.Read | crates/blockyard-client/src/pipeline.rs:55-93 | the whole read: each refusal with its own error before any node is asked; then result, reports and number of nodes asked as the fallback over the selected nodes |
| ReplicaRead.EveryReplicaCounts | crates/blockyard-client/src/pipeline.rs:84-92 | with the latency-aware selector, good data is found if and only if some replica of the mapping has it |
| DiskLifecycle.DiskInventory.DiscoverDisk | crates/blockyard-storage/src/disk.rs:144-158 | a new disk is registered with or without qualification, a known one refused |
| DiskLifecycle.DiskInventory.Transition | crates/blockyard-storage/src/disk.rs:162-190 | only legal transitions happen; degrading goes on to draining and queues the disk |
| DiskLifecycle.DiskInventory.Telemeter | crates/blockyard-storage/src/disk.rs:238-259 | telemetry accumulates and moves the state only along legal transitions |
| DiskLifecycle.DiskInventory.FinishQualification | crates/blockyard-storage/src/disk.rs:262-280 | a disk not yet qualified becomes so, a suspect one also healthy |
| DiskLifecycle.DiskInventory.BeginBurnIn | crates/blockyard-storage/src/disk.rs:283-300 | burn-in starts only from pending |
| DiskLifecycle.DiskInventory.TakeQueue | crates/blockyard-storage/src/disk.rs:350-353 | the whole queue is handed out and emptied |
| DiskLifecycle.TelemetryDegradesIff | crates/blockyard-storage/src/health.rs:69-116 | for every policy and history, telemetry degrades a disk if and only if it is healthy or suspect, the errors reach the degraded but not the failed threshold, and it is not critically hot |
| DiskRuns.TelemetryOutcome | crates/blockyard-storage/src/health.rs:69-116 | for every policy, history and state, exactly when a report leaves a disk failed, degraded, suspect, healthy, draining or removed |
| DiskRuns.AccumulatedErrors | crates/blockyard-storage/src/health.rs:69-84 | each count is added up; of temperature and latency the last report stands |
| DiskRuns.HealthAddsUp | crates/blockyard-storage/src/disk.rs:238-259 | in any run the errors kept of a disk are the sum over all reports since its discovery |
| DiskRuns.EnoughErrorsDenyReads | crates/blockyard-storage/src/disk.rs:204-259 | in any run a disk whose reports add up to the failed threshold is not read from again |
| DiskRuns.HeatDeniesReads | crates/blockyard-storage/src/disk.rs:204-259 | nor is one that was ever reported critically hot |
| DiskRuns.TransitionRule | crates/blockyard-common/src/disk_state.rs:51-84 | which transitions are legal |
| DiskRuns.TransitionOutcome | crates/blockyard-storage/src/disk.rs:162-190 | an accepted transition leaves the disk in the state asked for, or draining for degraded |
| DiskRuns.QualificationOutcome | crates/blockyard-storage/src/disk.rs:144-300 | how a disk starts, goes through burn-in and is qualified |
| DiskRuns.RefusedIff | crates/blockyard-storage/src/disk.rs:144-300 | which operation is refused, exactly when, and that it changes nothing |
| DiskRuns.OtherDisksStay | crates/blockyard-storage/src/disk.rs:144-300 | no operation touches any other disk |
| DiskRuns.PermissionsIff | crates/blockyard-storage/src/disk.rs:193-211 | in any run allocation is allowed if and only if the disk was qualified and is healthy or suspect, reading if and only if it is neither failed nor removed |
| DiskLifecycle.SeverityNeverDrops | crates/blockyard-common/src/disk_state.rs:51-84 | over any operations a disk never returns to a less severe state |
| DiskLifecycle.DenialIsForEver | crates/blockyard-storage/src/disk.rs:193-211 | allocation once denied by state, and reads once denied, are denied for ever |
| DiskLifecycle.UnqualifiedNeverAllocates | crates/blockyard-storage/src/disk.rs:193-202 | a disk in qualification never allocates until it is completed |
| DiskLifecycle.QueueConserves | crates/blockyard-storage/src/disk.rs:180-187 | what was handed out followed by what is queued is exactly what was ever enqueued, in order |
| DiskLifecycle.EnqueuedAtMostOnce | crates/blockyard-storage/src/disk.rs:180-187 | over a whole run each disk is enqueued at most once |
| DiskLifecycle.QueuedIff | crates/blockyard-storage/src/disk.rs:162-190 | in any run a disk has been queued if and only if it was asked to become degraded while not yet draining |
| DiskLifecycle.WorseningQueuesIff | crates/blockyard-storage/src/disk.rs:162-259 | an operation that worsens a disk not yet draining queues it if and only if it is that request |
| DiskLifecycle.DegradedIsUnqueued | crates/blockyard-storage/src/disk.rs:238-259 | in any run a disk found degraded was degraded by telemetry and has never been queued |
| DiskLifecycle.TelemetryDegradesUnqueued | crates/blockyard-storage/src/disk.rs:250-256 | every report with enough errors leaves a new disk degraded and the queue empty |
| Framing.FrameRoundTripIff | crates/blockyard-protocol/src/server.rs:140-159 | a written frame is read back, with the rest of the stream, if and only if it is at most 64 MiB long |
| Framing.FrameBytes | crates/blockyard-protocol/src/server.rs:152-159 | on the wire the length comes first, most significant byte in front |
| Framing.FrameCutShort | crates/blockyard-protocol/src/server.rs:140-150 | a frame cut anywhere is not read |
| Framing.RequestLoop | crates/blockyard-protocol/src/server.rs:189-238 | the loop takes exactly the requests that parsing the stream yields, and stops as it does |
| Framing.StreamRoundTrip | crates/blockyard-protocol/src/server.rs:189-238 | any sequence of requests with proper frames and payloads parses back to itself |
| Framing.TruncatedStream | crates/blockyard-protocol/src/server.rs:189-238 | from a stream cut at any byte, exactly the requests that arrived whole are handled |
| Framing.BadFrames | crates/blockyard-protocol/src/server.rs:140-238 | which frames stop the loop, and how |
| Framing.StopsAtFirstBad | crates/blockyard-protocol/src/server.rs:189-238 | whatever proper requests came before, the loop stops there having handled exactly those |
| Framing.UniquelyParsable | crates/blockyard-protocol/src/server.rs:189-238 | no two sequences of requests are sent as the same bytes |

## Left out

- MetadataMachine.MetadataStateMachine.ApplyLeaseRequest: the version counter and expiry times are unbounded; 64-bit overflow is not modelled.
- CrashSafety.CrashRecovery: assumes what consensus provides: entries applied in committed order, snapshots of the same log, committed entries neither overwritten nor truncated.
- CrashSafety.PersistentMatchesMemory: what applying entries does to a loaded state whose volume and mapping tables have different keys is not modelled; both stores stop there.
- ErasureRead.Read: a node's reply stands for the whole stored fragment; offset and length within it are not modelled, nor the debug logging of the refreshed mapping.
- Swim.SwimProtocol.BeginProbe: waiting for acks and the deadlines are steps of `SwimRuns` that may come at any time; the relay's forwarding of acks does not exist in the code and is not modelled.
- Framing.RequestLoop: the responses written back, the handshake and shutdown are not modelled.
- DiskLifecycle.DiskInventory.DiscoverDisk: registration only; mount checks, the identity file and bad regions are not modelled.
- Placement.StripeGetsDistinctNodes: K + M above 255 is not modelled (the code adds two bytes).
- Consensus itself, the database, the runtime and the network transports.
- The command line, HTTP interfaces, configuration, metrics, authentication and version negotiation.
- Listing and getter queries of the metadata state machine, which only read one field.
- Block-to-extent arithmetic and extent id hashing, which would add only easy members.
