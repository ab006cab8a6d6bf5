/** Per-replica health and latency, and the order in which replicas are tried. */
module ReplicaSelector {
  import opened Base
  import opened ReadTypes
  import opened StableSort

  const FAILURE_THRESHOLD: nat := 3
  const DEFAULT_LATENCY_US: nat := 1000

  datatype ReplicaHealth = Healthy | Suspect | Failed

  datatype ReplicaStats = ReplicaStats(health: ReplicaHealth, latencyUs: nat, failureCount: nat)

  const DEFAULT_STATS := ReplicaStats(Healthy, DEFAULT_LATENCY_US, 0)

  type StatsMap = map<NodeId, ReplicaStats>

  function StatsOf(stats: StatsMap, node: NodeId): ReplicaStats {
    if node in stats then stats[node] else DEFAULT_STATS
  }

  // ---------- What one observation does ----------

  function AfterSuccess(s: ReplicaStats, latencyUs: nat): ReplicaStats {
    var averaged := s.(latencyUs := (s.latencyUs + latencyUs) / 2);
    if s.health.Suspect? then
      var left := if s.failureCount == 0 then 0 else s.failureCount - 1;
      averaged.(failureCount := left, health := if left == 0 then Healthy else Suspect)
    else averaged
  }

  function AfterFailure(s: ReplicaStats): ReplicaStats {
    s.(failureCount := s.failureCount + 1,
       health := if s.failureCount + 1 >= FAILURE_THRESHOLD then Failed else Suspect)
  }

  function AfterCorruption(s: ReplicaStats): ReplicaStats {
    s.(health := Suspect)
  }

  datatype Observation =
    | Success(node: NodeId, latencyUs: nat)
    | Failure(node: NodeId)
    | Corruption(node: NodeId)

  function Observed(s: ReplicaStats, o: Observation): ReplicaStats {
    match o
    case Success(_, latencyUs) => AfterSuccess(s, latencyUs)
    case Failure(_) => AfterFailure(s)
    case Corruption(_) => AfterCorruption(s)
  }

  function Record(stats: StatsMap, o: Observation): StatsMap {
    stats[o.node := Observed(StatsOf(stats, o.node), o)]
  }

  function AfterAll(stats: StatsMap, os: seq<Observation>): StatsMap {
    if os == [] then stats else Record(AfterAll(stats, os[..|os| - 1]), os[|os| - 1])
  }

  // ---------- Choosing the order ----------

  datatype Candidate = Candidate(nodeId: NodeId, isLocal: bool, health: ReplicaHealth, latencyUs: nat)

  function HealthPriority(h: ReplicaHealth): nat {
    match h
    case Healthy => 0
    case Suspect => 1
    case Failed => 2
  }

  // Failed replicas last, then local before remote, healthier first, faster first.
  predicate NotAfter(a: Candidate, b: Candidate) {
    if a.health.Failed? != b.health.Failed? then !a.health.Failed?
    else if a.isLocal != b.isLocal then a.isLocal
    else if a.health != b.health then HealthPriority(a.health) < HealthPriority(b.health)
    else a.latencyUs <= b.latencyUs
  }

  function InOrder(): (Candidate, Candidate) -> bool {
    (a: Candidate, b: Candidate) => NotAfter(a, b)
  }

  function Candidates(stats: StatsMap, replicas: seq<ReplicaLocation>): (cs: seq<Candidate>)
    ensures |cs| == |replicas|
  {
    seq(|replicas|, i requires 0 <= i < |replicas| =>
      var s := StatsOf(stats, replicas[i].nodeId);
      Candidate(replicas[i].nodeId, replicas[i].isLocal, s.health, s.latencyUs))
  }

  function NodesOf(cs: seq<Candidate>): (ns: seq<NodeId>)
    ensures |ns| == |cs|
  {
    seq(|cs|, i requires 0 <= i < |cs| => cs[i].nodeId)
  }

  function SelectReplicas(stats: StatsMap, replicas: seq<ReplicaLocation>): seq<NodeId> {
    NodesOf(Sort(Candidates(stats, replicas), InOrder()))
  }

  class LatencyAwareSelector {
    var stats: StatsMap

    constructor ()
      ensures stats == map[]
    {
      stats := map[];
    }

    method RecordSuccess(node: NodeId, latencyUs: nat)
      modifies this
      ensures stats == Record(old(stats), Success(node, latencyUs))
    {
      var entry := if node in stats then stats[node] else DEFAULT_STATS;
      entry := entry.(latencyUs := (entry.latencyUs + latencyUs) / 2);
      if entry.health.Suspect? {
        if entry.failureCount > 0 {
          entry := entry.(failureCount := entry.failureCount - 1);
        }
        if entry.failureCount == 0 {
          entry := entry.(health := Healthy);
        }
      }
      stats := stats[node := entry];
    }

    method RecordFailure(node: NodeId)
      modifies this
      ensures stats == Record(old(stats), Failure(node))
    {
      var entry := if node in stats then stats[node] else DEFAULT_STATS;
      entry := entry.(failureCount := entry.failureCount + 1);
      if entry.failureCount >= FAILURE_THRESHOLD {
        entry := entry.(health := Failed);
      } else {
        entry := entry.(health := Suspect);
      }
      stats := stats[node := entry];
    }

    method MarkSuspect(node: NodeId)
      modifies this
      ensures stats == Record(old(stats), Corruption(node))
    {
      var entry := if node in stats then stats[node] else DEFAULT_STATS;
      stats := stats[node := entry.(health := Suspect)];
    }
  }

  // ---------- Health over runs ----------

  ghost predicate HealthSound(s: ReplicaStats) {
    && (s.health.Healthy? ==> s.failureCount == 0)
    && (s.health.Failed? ==> s.failureCount >= FAILURE_THRESHOLD)
  }

  lemma {:induction false} HealthAlwaysSound(os: seq<Observation>, node: NodeId)
    ensures HealthSound(StatsOf(AfterAll(map[], os), node))
    decreases |os|
  {
    if os != [] {
      HealthAlwaysSound(os[..|os| - 1], node);
    }
  }

  // The latency estimate stays within any range that holds the default and all
  // of the node's samples.
  lemma {:induction false} LatencyStaysInRange(os: seq<Observation>, node: NodeId, lo: nat, hi: nat)
    requires lo <= DEFAULT_LATENCY_US <= hi
    requires forall o | o in os && o.Success? && o.node == node :: lo <= o.latencyUs <= hi
    ensures lo <= StatsOf(AfterAll(map[], os), node).latencyUs <= hi
    decreases |os|
  {
    if os != [] {
      assert forall o | o in os[..|os| - 1] :: o in os;
      LatencyStaysInRange(os[..|os| - 1], node, lo, hi);
      assert os[|os| - 1] in os;
    }
  }

  // A failed replica stays failed until it is found corrupt, whatever else
  // is observed of it or of others.
  lemma {:induction false} FailedUntilMarkedSuspect(stats: StatsMap, os: seq<Observation>, node: NodeId)
    requires StatsOf(stats, node).health.Failed? && StatsOf(stats, node).failureCount >= FAILURE_THRESHOLD
    requires Corruption(node) !in os
    ensures StatsOf(AfterAll(stats, os), node).health.Failed?
    ensures StatsOf(AfterAll(stats, os), node).failureCount >= FAILURE_THRESHOLD
    decreases |os|
  {
    if os != [] {
      assert os == os[..|os| - 1] + [os[|os| - 1]];
      FailedUntilMarkedSuspect(stats, os[..|os| - 1], node);
    }
  }

  // How many of the observations are successes of the node.
  function Successes(os: seq<Observation>, node: NodeId): nat {
    if os == [] then 0
    else
      Successes(os[..|os| - 1], node)
      + (if os[|os| - 1].Success? && os[|os| - 1].node == node then 1 else 0)
  }

  // While a suspect replica sees successes only, it is healthy again exactly
  // from the max(1, c)-th on, c being its failure count.
  lemma {:induction false} RecoversAfter(stats: StatsMap, os: seq<Observation>, node: NodeId)
    requires StatsOf(stats, node).health.Suspect?
    requires forall o | o in os && o.node == node :: o.Success?
    ensures var c := StatsOf(stats, node).failureCount;
            var s := StatsOf(AfterAll(stats, os), node);
            if Successes(os, node) < Max(1, c)
            then s.health.Suspect? && s.failureCount == c - Successes(os, node)
            else s.health.Healthy? && s.failureCount == 0
    decreases |os|
  {
    if os != [] {
      assert os == os[..|os| - 1] + [os[|os| - 1]];
      RecoversAfter(stats, os[..|os| - 1], node);
      assert os[|os| - 1] in os;
    }
  }

  function Failures(os: seq<Observation>, node: NodeId): nat {
    if os == [] then 0
    else
      Failures(os[..|os| - 1], node)
      + (if os[|os| - 1].Failure? && os[|os| - 1].node == node then 1 else 0)
  }

  // While a replica sees failures only, each is counted; it is failed exactly from a
  // count of three on, and suspect before that; its latency estimate stays.
  lemma {:induction false} FailsAfter(stats: StatsMap, os: seq<Observation>, node: NodeId)
    requires forall o | o in os && o.node == node :: o.Failure?
    ensures var before, after := StatsOf(stats, node), StatsOf(AfterAll(stats, os), node);
            && after.failureCount == before.failureCount + Failures(os, node)
            && after.latencyUs == before.latencyUs
            && after.health == (if Failures(os, node) == 0 then before.health
                                else if after.failureCount >= 3 then Failed else Suspect)
    decreases |os|
  {
    if os != [] {
      assert os == os[..|os| - 1] + [os[|os| - 1]];
      FailsAfter(stats, os[..|os| - 1], node);
      assert os[|os| - 1] in os;
    }
  }

  // Corruption makes any replica suspect, a failed one too, and changes nothing else.
  lemma CorruptionOutcome(stats: StatsMap, node: NodeId)
    ensures StatsOf(Record(stats, Corruption(node)), node) == StatsOf(stats, node).(health := Suspect)
  {
  }

  // An observation of one replica leaves the others alone.
  lemma OthersUnaffected(stats: StatsMap, o: Observation, node: NodeId)
    requires o.node != node
    ensures StatsOf(Record(stats, o), node) == StatsOf(stats, node)
  {
  }

  // How far the estimate is from a latency, or from just below it where rounding down
  // stops.
  function Gap(estimate: nat, latencyUs: nat): nat {
    if estimate >= latencyUs then estimate - latencyUs else latencyUs - 1 - estimate
  }

  function Halved(gap: nat, times: nat): nat {
    if times == 0 then gap else Halved(gap, times - 1) / 2
  }

  lemma SuccessHalvesGap(s: ReplicaStats, latencyUs: nat)
    ensures Gap(AfterSuccess(s, latencyUs).latencyUs, latencyUs) == Gap(s.latencyUs, latencyUs) / 2
  {
  }

  // While a replica answers in a steady time, each answer halves the distance of its
  // estimate from that time.
  lemma {:induction false} LatencyConverges(stats: StatsMap, os: seq<Observation>, node: NodeId, latencyUs: nat)
    requires forall o | o in os && o.node == node :: o == Success(node, latencyUs)
    ensures Gap(StatsOf(AfterAll(stats, os), node).latencyUs, latencyUs)
         == Halved(Gap(StatsOf(stats, node).latencyUs, latencyUs), Successes(os, node))
    decreases |os|
  {
    if os != [] {
      assert os == os[..|os| - 1] + [os[|os| - 1]];
      LatencyConverges(stats, os[..|os| - 1], node, latencyUs);
      assert os[|os| - 1] in os;
      if os[|os| - 1].node == node {
        SuccessHalvesGap(StatsOf(AfterAll(stats, os[..|os| - 1]), node), latencyUs);
      }
    }
  }

  // ---------- The order ----------

  lemma InOrderIsPreorder()
    ensures TotalPreorder(InOrder())
  {
  }

  // Candidates between which the order has no preference.
  function AlikeTo(c: Candidate): Candidate -> bool {
    (d: Candidate) => d.health == c.health && d.isLocal == c.isLocal && d.latencyUs == c.latencyUs
  }

  // Every replica is tried exactly once. None that has failed is tried before one
  // that has not; among those alike in this, local ones come first; then the
  // healthier; then the faster; and those alike in all of this as they are listed.
  lemma SelectionOrder(stats: StatsMap, replicas: seq<ReplicaLocation>)
    ensures var cs := Sort(Candidates(stats, replicas), InOrder());
            && SelectReplicas(stats, replicas) == NodesOf(cs)
            && multiset(cs) == multiset(Candidates(stats, replicas))
            && (forall i, j | 0 <= i < j < |cs| ::
                  && (cs[i].health.Failed? ==> cs[j].health.Failed?)
                  && (cs[i].health.Failed? == cs[j].health.Failed? && cs[j].isLocal ==> cs[i].isLocal)
                  && (cs[i].health.Failed? == cs[j].health.Failed? && cs[i].isLocal == cs[j].isLocal ==>
                        HealthPriority(cs[i].health) <= HealthPriority(cs[j].health))
                  && (cs[i].health == cs[j].health && cs[i].isLocal == cs[j].isLocal ==>
                        cs[i].latencyUs <= cs[j].latencyUs))
            && (forall c :: Filter(AlikeTo(c), cs) == Filter(AlikeTo(c), Candidates(stats, replicas)))
  {
    var cs := Sort(Candidates(stats, replicas), InOrder());
    InOrderIsPreorder();
    SortSorts(Candidates(stats, replicas), InOrder());
    SortPermutes(Candidates(stats, replicas), InOrder());
    forall i, j | 0 <= i < j < |cs|
      ensures NotAfter(cs[i], cs[j])
    {
      assert InOrder()(cs[i], cs[j]);
    }
    forall c ensures Filter(AlikeTo(c), cs) == Filter(AlikeTo(c), Candidates(stats, replicas)) {
      SortIsStable(AlikeTo(c), Candidates(stats, replicas), InOrder());
    }
  }

  lemma {:induction false} InsertKeepsNodes(x: Candidate, ys: seq<Candidate>)
    ensures multiset(NodesOf(Insert(x, ys, InOrder()))) == multiset{x.nodeId} + multiset(NodesOf(ys))
    decreases |ys|
  {
    if ys == [] {
      assert NodesOf([x]) == [x.nodeId];
    } else {
      assert NodesOf(ys) == [ys[0].nodeId] + NodesOf(ys[1..]);
      if NotAfter(x, ys[0]) {
        assert NodesOf([x] + ys) == [x.nodeId] + NodesOf(ys);
      } else {
        var rest := Insert(x, ys[1..], InOrder());
        assert NodesOf([ys[0]] + rest) == [ys[0].nodeId] + NodesOf(rest);
        InsertKeepsNodes(x, ys[1..]);
      }
    }
  }

  lemma {:induction false} SortKeepsNodes(cs: seq<Candidate>)
    ensures multiset(NodesOf(Sort(cs, InOrder()))) == multiset(NodesOf(cs))
    decreases |cs|
  {
    if cs != [] {
      assert NodesOf(cs) == [cs[0].nodeId] + NodesOf(cs[1..]);
      SortKeepsNodes(cs[1..]);
      InsertKeepsNodes(cs[0], Sort(cs[1..], InOrder()));
    }
  }

  function LocationNodes(replicas: seq<ReplicaLocation>): (ns: seq<NodeId>)
    ensures |ns| == |replicas|
  {
    seq(|replicas|, i requires 0 <= i < |replicas| => replicas[i].nodeId)
  }

  lemma SelectionIsPermutation(stats: StatsMap, replicas: seq<ReplicaLocation>)
    ensures multiset(SelectReplicas(stats, replicas)) == multiset(LocationNodes(replicas))
  {
    SortKeepsNodes(Candidates(stats, replicas));
    assert NodesOf(Candidates(stats, replicas)) == LocationNodes(replicas);
  }
}
