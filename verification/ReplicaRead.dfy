/** Reading a replicated extent, falling back from replica to replica. */
module ReplicaRead {
  import opened Base
  import opened ReadTypes
  import Selector = ReplicaSelector

  datatype NodeReply = NodeReply(extentId: ExtentId, extentVersion: nat, checksum: Checksum, data: Bytes)

  // What each data node answers to this read.
  type Replies = NodeId -> Result<NodeReply, ReadError>

  // What the read tells the health subsystem and the replica selector.
  datatype Effect =
    | ReportCorruption(node: NodeId, expected: Checksum, actual: Checksum)
    | MarkSuspect(node: NodeId)
    | ReportFailure(node: NodeId, error: ReadError)
    | RecordFailure(node: NodeId)
    | RecordSuccess(node: NodeId)

  // ---------- What a reply amounts to ----------

  predicate Mismatched(reply: Replies, mapping: ExtentMapping, node: NodeId) {
    reply(node).Ok? && reply(node).value.checksum != mapping.checksum
  }

  predicate Good(reply: Replies, mapping: ExtentMapping, node: NodeId) {
    reply(node).Ok? && reply(node).value.checksum == mapping.checksum
  }

  // The effects of trying a node that does not answer well.
  function EffectsOfMiss(reply: Replies, mapping: ExtentMapping, node: NodeId): seq<Effect> {
    match reply(node)
    case Ok(r) => [ReportCorruption(node, mapping.checksum, r.checksum), MarkSuspect(node)]
    case Err(e) => [ReportFailure(node, e), RecordFailure(node)]
  }

  function EffectsOfMisses(reply: Replies, mapping: ExtentMapping, nodes: seq<NodeId>): seq<Effect> {
    if nodes == [] then []
    else
      EffectsOfMisses(reply, mapping, nodes[..|nodes| - 1])
      + EffectsOfMiss(reply, mapping, nodes[|nodes| - 1])
  }

  function MissError(reply: Replies, mapping: ExtentMapping, extent: ExtentId, node: NodeId): ReadError {
    match reply(node)
    case Ok(r) => ChecksumMismatch(node, extent, mapping.checksum, r.checksum)
    case Err(e) => e
  }

  // Node i is the first in the list that answers well.
  ghost predicate FirstGood(reply: Replies, mapping: ExtentMapping, nodes: seq<NodeId>, i: nat) {
    && i < |nodes| && Good(reply, mapping, nodes[i])
    && (forall j | 0 <= j < i :: !Good(reply, mapping, nodes[j]))
  }

  ghost predicate NoneGood(reply: Replies, mapping: ExtentMapping, nodes: seq<NodeId>) {
    forall j | 0 <= j < |nodes| :: !Good(reply, mapping, nodes[j])
  }

  // ---------- The fallback loop ----------

  // The result comes from the first node in order whose checksum matches; each
  // node before it is reported once, as corrupt or as failed; no node after it
  // is asked. Without such a node, the read fails as corrupt exactly when every
  // node mismatched, and otherwise with the error of the last node.
  ghost predicate FallbackOutcome(request: ReadRequest, mapping: ExtentMapping, nodes: seq<NodeId>, reply: Replies,
                                  r: Result<ReadResult, ReadError>, effects: seq<Effect>, asked: nat)
  {
    if !NoneGood(reply, mapping, nodes) then
      && 1 <= asked <= |nodes| && FirstGood(reply, mapping, nodes, asked - 1)
      && var node := nodes[asked - 1];
      && r == Ok(ReadResult(reply(node).value.extentId, reply(node).value.extentVersion,
                            reply(node).value.data, node))
      && effects == EffectsOfMisses(reply, mapping, nodes[..asked - 1]) + [RecordSuccess(node)]
    else
      && asked == |nodes|
      && effects == EffectsOfMisses(reply, mapping, nodes)
      && r == if forall i | 0 <= i < |nodes| :: Mismatched(reply, mapping, nodes[i])
              then Err(AllReplicasCorrupt(request.extentId))
              else
                var last := nodes[|nodes| - 1];
                match reply(last)
                case Err(e) => Err(e)
                case Ok(answer) => Err(ChecksumMismatch(last, request.extentId, mapping.checksum, answer.checksum))
  }

  method ReadWithFallback(request: ReadRequest, mapping: ExtentMapping, nodes: seq<NodeId>, reply: Replies)
    returns (r: Result<ReadResult, ReadError>, effects: seq<Effect>, asked: nat)
    ensures asked <= |nodes|
    ensures FallbackOutcome(request, mapping, nodes, reply, r, effects, asked)
  {
    var lastError: Option<ReadError> := None;
    var allCorrupt := true;
    effects, asked := [], 0;
    while asked < |nodes|
      invariant asked <= |nodes|
      invariant forall j | 0 <= j < asked :: !Good(reply, mapping, nodes[j])
      invariant allCorrupt <==> forall j | 0 <= j < asked :: Mismatched(reply, mapping, nodes[j])
      invariant lastError == if asked == 0 then None
                             else Some(MissError(reply, mapping, request.extentId, nodes[asked - 1]))
      invariant effects == EffectsOfMisses(reply, mapping, nodes[..asked])
    {
      var node := nodes[asked];
      assert nodes[..asked + 1][..asked] == nodes[..asked];
      asked := asked + 1;
      match reply(node) {
        case Ok(result) =>
          if result.checksum != mapping.checksum {
            effects := effects + [ReportCorruption(node, mapping.checksum, result.checksum), MarkSuspect(node)];
            lastError := Some(ChecksumMismatch(node, request.extentId, mapping.checksum, result.checksum));
          } else {
            effects := effects + [RecordSuccess(node)];
            r := Ok(ReadResult(result.extentId, result.extentVersion, result.data, node));
            return;
          }
        case Err(e) =>
          allCorrupt := false;
          effects := effects + [ReportFailure(node, e), RecordFailure(node)];
          lastError := Some(e);
      }
    }
    assert nodes[..asked] == nodes;
    if allCorrupt {
      r := Err(AllReplicasCorrupt(request.extentId));
    } else {
      // Some node failed, so an error is at hand; the fallback for a read that
      // asked no node is never taken.
      r := Err(lastError.value);
    }
  }

  // ---------- What is reported ----------

  // Each node that did not answer well is reported once: as corrupt, with both
  // checksums, and made suspect, if its checksum was wrong; as failed, with its
  // error, and counted against, if it failed.
  lemma {:induction false} EffectsAreRight(reply: Replies, mapping: ExtentMapping, nodes: seq<NodeId>, i: nat)
    requires i < |nodes|
    ensures var effects := EffectsOfMisses(reply, mapping, nodes);
            && |effects| == 2 * |nodes|
            && match reply(nodes[i])
               case Ok(answer) =>
                 && effects[2 * i] == ReportCorruption(nodes[i], mapping.checksum, answer.checksum)
                 && effects[2 * i + 1] == MarkSuspect(nodes[i])
               case Err(e) =>
                 effects[2 * i] == ReportFailure(nodes[i], e) && effects[2 * i + 1] == RecordFailure(nodes[i])
    decreases |nodes|
  {
    var last := |nodes| - 1;
    if i < last {
      EffectsAreRight(reply, mapping, nodes[..last], i);
    } else if last > 0 {
      EffectsAreRight(reply, mapping, nodes[..last], 0);
    }
  }

  // What the selector sees of the effects.
  function Observed(effects: seq<Effect>): seq<Selector.Observation> {
    if effects == [] then []
    else
      Observed(effects[..|effects| - 1])
      + match effects[|effects| - 1]
        case MarkSuspect(node) => [Selector.Corruption(node)]
        case RecordFailure(node) => [Selector.Failure(node)]
        case _ => []
  }

  lemma ObservedMiss(effects: seq<Effect>, reply: Replies, mapping: ExtentMapping, node: NodeId)
    ensures Observed(effects + EffectsOfMiss(reply, mapping, node))
         == Observed(effects) + [if reply(node).Ok? then Selector.Corruption(node) else Selector.Failure(node)]
  {
    var miss := EffectsOfMiss(reply, mapping, node);
    var all := effects + miss;
    assert all[..|all| - 1] == effects + [miss[0]];
    assert (effects + [miss[0]])[..|effects|] == effects;
  }

  // The selector's table after the misses.
  function Taught(stats: Selector.StatsMap, reply: Replies, mapping: ExtentMapping, nodes: seq<NodeId>)
    : Selector.StatsMap
  {
    Selector.AfterAll(stats, Observed(EffectsOfMisses(reply, mapping, nodes)))
  }

  lemma TaughtOneMore(stats: Selector.StatsMap, reply: Replies, mapping: ExtentMapping, front: seq<NodeId>,
                      last: NodeId)
    ensures Taught(stats, reply, mapping, front + [last])
         == Selector.Record(Taught(stats, reply, mapping, front),
                            if reply(last).Ok? then Selector.Corruption(last) else Selector.Failure(last))
  {
    var effects := EffectsOfMisses(reply, mapping, front);
    var o := if reply(last).Ok? then Selector.Corruption(last) else Selector.Failure(last);
    assert (front + [last])[..|front|] == front;
    ObservedMiss(effects, reply, mapping, last);
    assert (Observed(effects) + [o])[..|Observed(effects)|] == Observed(effects);
  }

  // What a node's record becomes by one miss.
  function Blamed(s: Selector.ReplicaStats, corrupt: bool): Selector.ReplicaStats {
    if corrupt then s.(health := Selector.Suspect)
    else s.(failureCount := s.failureCount + 1,
            health := if s.failureCount >= 2 then Selector.Failed else Selector.Suspect)
  }

  // After the misses of a read over distinct nodes, the selector holds every node with
  // a wrong checksum suspect at the same count, every node that failed one failure
  // further, failed from three on, and the others as they were.
  lemma {:induction false} MissesTeachSelector(stats: Selector.StatsMap, reply: Replies, mapping: ExtentMapping,
                                               nodes: seq<NodeId>, node: NodeId)
    requires Distinct(nodes)
    ensures Selector.StatsOf(Taught(stats, reply, mapping, nodes), node)
         == if node in nodes then Blamed(Selector.StatsOf(stats, node), reply(node).Ok?)
            else Selector.StatsOf(stats, node)
    decreases |nodes|
  {
    if nodes != [] {
      var front, last := nodes[..|nodes| - 1], nodes[|nodes| - 1];
      assert nodes == front + [last];
      assert last !in front;
      MissesTeachSelector(stats, reply, mapping, front, node);
      TaughtOneMore(stats, reply, mapping, front, last);
    }
  }

  // ---------- The whole read ----------

  // The cached and the refreshed mapping as the metadata service returns them.
  type MappingReply = Result<Option<ExtentMapping>, ReadError>

  function ResolveMapping(request: ReadRequest, cached: MappingReply, refreshed: MappingReply, watermark: nat)
    : Result<ExtentMapping, ReadError>
  {
    if cached.Err? then Err(cached.error)
    else if cached.value.None? then Err(ExtentNotFound(request.volumeId, request.extentId))
    else if cached.value.value.extentVersion < watermark then
      if refreshed.Err? then Err(refreshed.error)
      else if refreshed.value.None? then Err(ExtentNotFound(request.volumeId, request.extentId))
      else Ok(refreshed.value.value)
    else Ok(cached.value.value)
  }

  function VerifyMappingVersion(mapping: ExtentMapping, watermark: nat): Option<ReadError> {
    if mapping.extentVersion < watermark
    then Some(StaleMapping(mapping.extentId, mapping.extentVersion, watermark))
    else None
  }

  // The mapping that a read goes by, if it gets as far as asking nodes.
  function MappingUsed(request: ReadRequest, cached: MappingReply, refreshed: MappingReply, watermark: nat)
    : Option<ExtentMapping>
  {
    match ResolveMapping(request, cached, refreshed, watermark)
    case Err(_) => None
    case Ok(mapping) => if VerifyMappingVersion(mapping, watermark).None? then Some(mapping) else None
  }

  // Why a read has no mapping to go by: the metadata service failed, or has no
  // mapping of the extent, or even the refreshed one is behind the watermark.
  function MappingError(request: ReadRequest, cached: MappingReply, refreshed: MappingReply, watermark: nat)
    : ReadError
    requires MappingUsed(request, cached, refreshed, watermark).None?
  {
    if cached.Err? then cached.error
    else if cached.value.None? then ExtentNotFound(request.volumeId, request.extentId)
    else if refreshed.Err? then refreshed.error
    else if refreshed.value.None? then ExtentNotFound(request.volumeId, request.extentId)
    else
      StaleMapping(refreshed.value.value.extentId, refreshed.value.value.extentVersion, watermark)
  }

  // A mapping is used only if it is at or above the watermark, and one that is
  // available that far is used: the cached one first. Without one, the error says
  // what was missing.
  lemma MappingMeetsWatermark(request: ReadRequest, cached: MappingReply, refreshed: MappingReply, watermark: nat)
    ensures var used := MappingUsed(request, cached, refreshed, watermark);
            && (used.Some? ==> used.value.extentVersion >= watermark)
            && (cached.Ok? && cached.value.Some? && cached.value.value.extentVersion >= watermark ==>
                  used == cached.value)
            && (cached.Ok? && cached.value.Some? && cached.value.value.extentVersion < watermark
                && refreshed.Ok? && refreshed.value.Some?
                && refreshed.value.value.extentVersion >= watermark ==>
                  used == refreshed.value)
            && (used.None? ==>
                  var error := MappingError(request, cached, refreshed, watermark);
                  && error == (match ResolveMapping(request, cached, refreshed, watermark)
                               case Err(e) => e
                               case Ok(m) => VerifyMappingVersion(m, watermark).value)
                  && match cached
                  case Err(e) => error == e
                  case Ok(None) => error == ExtentNotFound(request.volumeId, request.extentId)
                  case Ok(Some(stale)) =>
                    && stale.extentVersion < watermark
                    && match refreshed
                       case Err(e) => error == e
                       case Ok(None) => error == ExtentNotFound(request.volumeId, request.extentId)
                       case Ok(Some(m)) =>
                         m.extentVersion < watermark && error == StaleMapping(m.extentId, m.extentVersion, watermark))
  {
  }

  // Refusals come before any node is asked, each with its own error. After that
  // the mapping is at or above the watermark, and the read goes through the nodes
  // that the selector chose for it.
  method Read(request: ReadRequest, watermark: Result<nat, ReadError>, cached: MappingReply,
              refreshed: MappingReply, select: seq<ReplicaLocation> -> seq<NodeId>, reply: Replies)
    returns (r: Result<ReadResult, ReadError>, effects: seq<Effect>, asked: nat)
    ensures request.length == 0 ==> r == Err(InvalidRequest) && effects == [] && asked == 0
    ensures request.length > 0 && watermark.Err? ==> r == Err(watermark.error) && effects == [] && asked == 0
    ensures request.length > 0 && watermark.Ok? ==>
            match MappingUsed(request, cached, refreshed, watermark.value)
            case None =>
              r == Err(MappingError(request, cached, refreshed, watermark.value)) && effects == [] && asked == 0
            case Some(mapping) =>
              var nodes := select(mapping.replicas);
              if mapping.replicas == [] || nodes == [] then
                r == Err(NoHealthyReplicas(request.extentId)) && effects == [] && asked == 0
              else
                FallbackOutcome(request, mapping, nodes, reply, r, effects, asked)
  {
    if request.length == 0 {
      return Err(InvalidRequest), [], 0;
    }
    if watermark.Err? {
      return Err(watermark.error), [], 0;
    }
    var resolved := ResolveMapping(request, cached, refreshed, watermark.value);
    if resolved.Err? {
      return Err(resolved.error), [], 0;
    }
    var mapping := resolved.value;
    var stale := VerifyMappingVersion(mapping, watermark.value);
    if stale.Some? {
      return Err(stale.value), [], 0;
    }
    if mapping.replicas == [] {
      return Err(NoHealthyReplicas(request.extentId)), [], 0;
    }
    var nodes := select(mapping.replicas);
    if nodes == [] {
      return Err(NoHealthyReplicas(request.extentId)), [], 0;
    }
    r, effects, asked := ReadWithFallback(request, mapping, nodes, reply);
  }

  // With the latency-aware selector, whatever it has recorded, a read finds good
  // data exactly when some replica of the mapping has it.
  lemma EveryReplicaCounts(stats: Selector.StatsMap, mapping: ExtentMapping, reply: Replies)
    ensures NoneGood(reply, mapping, Selector.SelectReplicas(stats, mapping.replicas)) <==>
            forall replica | replica in mapping.replicas :: !Good(reply, mapping, replica.nodeId)
  {
    var nodes := Selector.SelectReplicas(stats, mapping.replicas);
    var listed := Selector.LocationNodes(mapping.replicas);
    Selector.SelectionIsPermutation(stats, mapping.replicas);
    forall node ensures node in nodes <==> node in listed {
      assert node in nodes <==> node in multiset(nodes);
    }
    forall replica | replica in mapping.replicas ensures replica.nodeId in listed {
      var i :| 0 <= i < |mapping.replicas| && mapping.replicas[i] == replica;
      assert listed[i] == replica.nodeId;
    }
    forall node | node in listed ensures exists replica :: replica in mapping.replicas && replica.nodeId == node {
      var i :| 0 <= i < |listed| && listed[i] == node;
      assert mapping.replicas[i] in mapping.replicas;
    }
    assert forall i | 0 <= i < |nodes| :: nodes[i] in nodes;
  }
}
