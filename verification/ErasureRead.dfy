/** Reading an erasure-coded extent from the nodes that hold its fragments. */
module ErasureRead {
  import opened Base
  import opened ErasureCodec
  import opened ReadTypes
  import opened StableSort

  datatype FragmentPlacement = FragmentPlacement(index: nat, isData: bool, nodeId: NodeId)

  datatype EcMapping = EcMapping(
    extentVersion: nat, checksum: Checksum, dataCount: nat, parityCount: nat, originalLen: nat,
    placements: seq<FragmentPlacement>)

  // A node's reply to the read of a placement: the fragment it returns, or an error.
  type Replies = FragmentPlacement -> Option<Shard>

  // ---------- The order in which nodes are asked ----------

  // Where the selector ranks a node; nodes it does not rank come last.
  function Position(order: seq<NodeId>, node: NodeId): nat {
    if order == [] then 0
    else if order[0] == node then 0
    else 1 + Position(order[1..], node)
  }

  function ByPosition(order: seq<NodeId>): (FragmentPlacement, FragmentPlacement) -> bool {
    (a: FragmentPlacement, b: FragmentPlacement) => Position(order, a.nodeId) <= Position(order, b.nodeId)
  }

  function IsData(): FragmentPlacement -> bool {
    (p: FragmentPlacement) => p.isData
  }

  function IsParity(): FragmentPlacement -> bool {
    (p: FragmentPlacement) => !p.isData
  }

  // Data fragments before parity fragments, each in the selector's order.
  function Ordered(order: seq<NodeId>, ps: seq<FragmentPlacement>): seq<FragmentPlacement> {
    Sort(Filter(IsData(), ps), ByPosition(order)) + Sort(Filter(IsParity(), ps), ByPosition(order))
  }

  lemma {:induction false} FilterSplits(ps: seq<FragmentPlacement>)
    ensures |Filter(IsData(), ps)| + |Filter(IsParity(), ps)| == |ps|
    ensures multiset(Filter(IsData(), ps)) + multiset(Filter(IsParity(), ps)) == multiset(ps)
    decreases |ps|
  {
    if ps != [] {
      assert ps == [ps[0]] + ps[1..];
      FilterSplits(ps[1..]);
    }
  }

  lemma OrderedPermutes(order: seq<NodeId>, ps: seq<FragmentPlacement>)
    ensures multiset(Ordered(order, ps)) == multiset(ps)
    ensures |Ordered(order, ps)| == |ps|
    ensures forall p :: p in Ordered(order, ps) <==> p in ps
  {
    FilterSplits(ps);
    SortPermutes(Filter(IsData(), ps), ByPosition(order));
    SortPermutes(Filter(IsParity(), ps), ByPosition(order));
    forall p ensures p in Ordered(order, ps) <==> p in ps {
      assert p in Ordered(order, ps) <==> p in multiset(Ordered(order, ps));
    }
  }

  // Placements between which the order has no preference.
  function AlikeTo(order: seq<NodeId>, p: FragmentPlacement): FragmentPlacement -> bool {
    (q: FragmentPlacement) => q.isData == p.isData && Position(order, q.nodeId) == Position(order, p.nodeId)
  }

  lemma {:induction false} AlikeAreOfOneKind(order: seq<NodeId>, p: FragmentPlacement, ps: seq<FragmentPlacement>)
    ensures var alike := AlikeTo(order, p);
            Filter(alike, Filter(IsData(), ps)) + Filter(alike, Filter(IsParity(), ps)) == Filter(alike, ps)
    decreases |ps|
  {
    if ps != [] {
      AlikeAreOfOneKind(order, p, ps[1..]);
      AlikeAreEmptyElsewhere(order, p, ps[1..]);
    }
  }

  lemma {:induction false} AlikeAreEmptyElsewhere(order: seq<NodeId>, p: FragmentPlacement,
                                                  ps: seq<FragmentPlacement>)
    ensures Filter(AlikeTo(order, p), Filter(if p.isData then IsParity() else IsData(), ps)) == []
    decreases |ps|
  {
    if ps != [] {
      AlikeAreEmptyElsewhere(order, p, ps[1..]);
    }
  }

  lemma {:induction false} FilterJoin(f: FragmentPlacement -> bool, ps: seq<FragmentPlacement>,
                                      qs: seq<FragmentPlacement>)
    ensures Filter(f, ps + qs) == Filter(f, ps) + Filter(f, qs)
    decreases |ps|
  {
    if ps == [] {
      assert ps + qs == qs;
    } else {
      FilterJoin(f, ps[1..], qs);
      assert (ps + qs)[1..] == ps[1..] + qs;
    }
  }

  lemma OrderedIsStable(order: seq<NodeId>, ps: seq<FragmentPlacement>, p: FragmentPlacement)
    ensures Filter(AlikeTo(order, p), Ordered(order, ps)) == Filter(AlikeTo(order, p), ps)
  {
    var data, parity := Filter(IsData(), ps), Filter(IsParity(), ps);
    FilterJoin(AlikeTo(order, p), Sort(data, ByPosition(order)), Sort(parity, ByPosition(order)));
    SortIsStable(AlikeTo(order, p), data, ByPosition(order));
    SortIsStable(AlikeTo(order, p), parity, ByPosition(order));
    AlikeAreOfOneKind(order, p, ps);
  }

  lemma OrderedByRank(order: seq<NodeId>, ps: seq<FragmentPlacement>, i: nat, j: nat)
    requires i < j < |Ordered(order, ps)|
    ensures var a, b := Ordered(order, ps)[i], Ordered(order, ps)[j];
            && (b.isData ==> a.isData)
            && (a.isData == b.isData ==> Position(order, a.nodeId) <= Position(order, b.nodeId))
  {
    var data, parity := Filter(IsData(), ps), Filter(IsParity(), ps);
    var first, second := Sort(data, ByPosition(order)), Sort(parity, ByPosition(order));
    SortSorts(data, ByPosition(order));
    SortSorts(parity, ByPosition(order));
    forall p ensures (p in first ==> p.isData) && (p in second ==> !p.isData) {
      SameElements(data, ByPosition(order), p);
      FilterElements(IsData(), ps, p);
      SameElements(parity, ByPosition(order), p);
      FilterElements(IsParity(), ps, p);
    }
    var a, b := Ordered(order, ps)[i], Ordered(order, ps)[j];
    if j < |first| {
      assert a == first[i] && b == first[j];
      assert ByPosition(order)(a, b);
    } else if i < |first| {
      assert a == first[i] && b == second[j - |first|];
    } else {
      assert a == second[i - |first|] && b == second[j - |first|];
      assert ByPosition(order)(a, b);
    }
  }

  // Each placement is listed once: all data fragments before all parity fragments,
  // each kind in the selector's order, and where that has no preference as given.
  lemma AskingOrder(order: seq<NodeId>, ps: seq<FragmentPlacement>)
    ensures var os := Ordered(order, ps);
            && multiset(os) == multiset(ps)
            && (forall i, j | 0 <= i < j < |os| ::
                  && (os[j].isData ==> os[i].isData)
                  && (os[i].isData == os[j].isData ==>
                        Position(order, os[i].nodeId) <= Position(order, os[j].nodeId)))
            && (forall p :: Filter(AlikeTo(order, p), os) == Filter(AlikeTo(order, p), ps))
  {
    OrderedPermutes(order, ps);
    var os := Ordered(order, ps);
    forall i, j | 0 <= i < j < |os|
      ensures (os[j].isData ==> os[i].isData)
           && (os[i].isData == os[j].isData ==> Position(order, os[i].nodeId) <= Position(order, os[j].nodeId))
    {
      OrderedByRank(order, ps, i, j);
    }
    forall p ensures Filter(AlikeTo(order, p), os) == Filter(AlikeTo(order, p), ps) {
      OrderedIsStable(order, ps, p);
    }
  }

  // ---------- The read loop ----------

  // Fragments received so far, how many, how many nodes have been asked, and
  // whether the loop has ended in a panic.
  datatype Scan = Scan(slots: seq<Option<Fragment>>, successes: nat, asked: nat, panicked: bool)

  predicate InRange(ps: seq<FragmentPlacement>, total: nat) {
    forall i | 0 <= i < |ps| :: ps[i].index < total
  }

  lemma OrderedInRange(order: seq<NodeId>, ps: seq<FragmentPlacement>, total: nat)
    requires InRange(ps, total)
    ensures |Ordered(order, ps)| == |ps| && InRange(Ordered(order, ps), total)
  {
    OrderedPermutes(order, ps);
    forall i | 0 <= i < |Ordered(order, ps)| ensures Ordered(order, ps)[i].index < total {
      assert Ordered(order, ps)[i] in ps;
    }
  }

  // The loop after its first n rounds over the ordered placements. A fragment
  // that arrives for a slot that does not exist makes it panic.
  function ScanFirst(ps: seq<FragmentPlacement>, k: nat, total: nat, reply: Replies, n: nat): (s: Scan)
    requires n <= |ps|
    ensures |s.slots| == total && s.asked <= n
    ensures InRange(ps, total) ==> !s.panicked
  {
    if n == 0 then Scan(seq(total, _ => None), 0, 0, false)
    else
      var s := ScanFirst(ps, k, total, reply, n - 1);
      var p := ps[n - 1];
      if s.panicked || s.successes >= k then s
      else
        match reply(p)
        case None => s.(asked := n)
        case Some(data) =>
          if p.index >= total then s.(asked := n, panicked := true)
          else Scan(s.slots[p.index := Some(Fragment(p.index, p.isData, data))], s.successes + 1, n, false)
  }

  // A call returns a result or panics.
  datatype Outcome<T> = Returned(result: Result<T, ReadError>) | Panicked

  datatype Report = ReadOk(nodeId: NodeId) | ReadFailed(nodeId: NodeId)

  // What is reported for a node that has been asked.
  function Reported(p: FragmentPlacement, reply: Replies): Report {
    if reply(p).Some? then ReadOk(p.nodeId) else ReadFailed(p.nodeId)
  }

  function ReportsFor(ps: seq<FragmentPlacement>, reply: Replies): seq<Report> {
    seq(|ps|, i requires 0 <= i < |ps| => Reported(ps[i], reply))
  }

  function ScanOutcome(extent: ExtentId, k: nat, s: Scan): Outcome<seq<Option<Fragment>>> {
    if s.panicked then Panicked
    else if s.successes < k then Returned(Err(AllReplicasFailed(extent)))
    else Returned(Ok(s.slots))
  }

  method ReadFragments(request: ReadRequest, mapping: EcMapping, order: seq<NodeId>, reply: Replies)
    returns (r: Outcome<seq<Option<Fragment>>>, reports: seq<Report>)
    ensures var ps := Ordered(order, mapping.placements);
            var s := ScanFirst(ps, mapping.dataCount, mapping.dataCount + mapping.parityCount, reply, |ps|);
            && reports == ReportsFor(ps[..s.asked], reply)
            && r == ScanOutcome(request.extentId, mapping.dataCount, s)
  {
    var k, total := mapping.dataCount, mapping.dataCount + mapping.parityCount;
    var ordered := Ordered(order, mapping.placements);
    var scan;
    scan, reports := AskInTurn(ordered, k, total, reply);
    r := ScanOutcome(request.extentId, k, scan);
  }

  // Ask the nodes in turn until K fragments have arrived.
  method AskInTurn(ordered: seq<FragmentPlacement>, k: nat, total: nat, reply: Replies)
    returns (scan: Scan, reports: seq<Report>)
    ensures scan == ScanFirst(ordered, k, total, reply, |ordered|)
    ensures reports == ReportsFor(ordered[..scan.asked], reply)
  {
    var results: seq<Option<Fragment>> := seq(total, _ => None);
    var successCount := 0;
    reports := [];
    var i := 0;
    while i < |ordered|
      invariant i <= |ordered| && |results| == total
      invariant ScanFirst(ordered, k, total, reply, i) == Scan(results, successCount, i, false)
      invariant reports == ReportsFor(ordered[..i], reply)
    {
      if successCount >= k {
        StoppedScan(ordered, k, total, reply, i, |ordered|);
        break;
      }
      var p := ordered[i];
      OneMoreReport(ordered, reply, i);
      i := i + 1;
      match reply(p) {
        case Some(data) =>
          reports := reports + [ReadOk(p.nodeId)];
          if p.index >= total {
            StoppedScan(ordered, k, total, reply, i, |ordered|);
            return Scan(results, successCount, i, true), reports;
          }
          results := results[p.index := Some(Fragment(p.index, p.isData, data))];
          successCount := successCount + 1;
        case None =>
          reports := reports + [ReadFailed(p.nodeId)];
      }
    }
    scan := Scan(results, successCount, i, false);
  }

  lemma OneMoreReport(ps: seq<FragmentPlacement>, reply: Replies, i: nat)
    requires i < |ps|
    ensures ReportsFor(ps[..i + 1], reply) == ReportsFor(ps[..i], reply) + [Reported(ps[i], reply)]
  {
  }

  // Once K fragments have arrived, further rounds change nothing.
  lemma {:induction false} StoppedScan(ps: seq<FragmentPlacement>, k: nat, total: nat, reply: Replies, n: nat, m: nat)
    requires n <= m <= |ps|
    requires ScanFirst(ps, k, total, reply, n).successes >= k || ScanFirst(ps, k, total, reply, n).panicked
    ensures ScanFirst(ps, k, total, reply, m) == ScanFirst(ps, k, total, reply, n)
    decreases m
  {
    if n < m {
      StoppedScan(ps, k, total, reply, n, m - 1);
    }
  }

  // What the read needs from outside: the session's write watermark, the error of
  // the metadata refresh if it fails, and the coding library for K and M, if it
  // accepts them.
  datatype Context = Context(
    watermark: Result<nat, ReadError>, refreshError: Option<ReadError>, rs: Option<ReedSolomon>,
    checksum: Bytes -> Checksum)

  // The node named as the source, whichever nodes were asked.
  function SourceNode(mapping: EcMapping): NodeId {
    if mapping.placements == [] then NodeId(0) else mapping.placements[0].nodeId
  }

  // The request passes every check that comes before the first node is asked.
  ghost predicate GoesAhead(ctx: Context, request: ReadRequest, mapping: EcMapping) {
    && request.length > 0
    && ctx.watermark.Ok? && ctx.watermark.value <= mapping.extentVersion
    && mapping.dataCount >= 1 && mapping.parityCount >= 1 && ctx.rs.Some?
  }

  ghost function EcRead(ctx: Context, request: ReadRequest, mapping: EcMapping, order: seq<NodeId>, reply: Replies)
    : Outcome<ReadResult>
  {
    var k, m := mapping.dataCount, mapping.parityCount;
    var ps := Ordered(order, mapping.placements);
    if request.length == 0 then Returned(Err(InvalidRequest))
    else if ctx.watermark.Err? then Returned(Err(ctx.watermark.error))
    else if mapping.extentVersion < ctx.watermark.value then
      if ctx.refreshError.Some? then Returned(Err(ctx.refreshError.value))
      else Returned(Err(StaleMapping(request.extentId, mapping.extentVersion, ctx.watermark.value)))
    else if k == 0 || m == 0 || ctx.rs.None? then Returned(Err(InvalidRequest))
    else
      var s := ScanFirst(ps, k, k + m, reply, |ps|);
      match ScanOutcome(request.extentId, k, s)
      case Panicked => Panicked
      case Returned(Err(e)) => Returned(Err(e))
      case Returned(Ok(slots)) =>
        match Decoded(ctx.rs.value, k, m, slots, mapping.originalLen)
        case Err(InsufficientFragments(_, _)) => Returned(Err(AllReplicasFailed(request.extentId)))
        case Err(_) => Returned(Err(InvalidRequest))
        case Ok(data) =>
          if ctx.checksum(data) != mapping.checksum then Returned(Err(AllReplicasCorrupt(request.extentId)))
          else Returned(Ok(ReadResult(request.extentId, mapping.extentVersion, data, SourceNode(mapping))))
  }

  // Nodes are asked, and reported on, only by a read that goes ahead.
  method Read(ctx: Context, request: ReadRequest, mapping: EcMapping, order: seq<NodeId>, reply: Replies)
    returns (r: Outcome<ReadResult>, reports: seq<Report>)
    ensures r == EcRead(ctx, request, mapping, order, reply)
    ensures !GoesAhead(ctx, request, mapping) ==> reports == []
    ensures GoesAhead(ctx, request, mapping) ==>
            var ps := Ordered(order, mapping.placements);
            var s := ScanFirst(ps, mapping.dataCount, mapping.dataCount + mapping.parityCount, reply, |ps|);
            reports == ReportsFor(ps[..s.asked], reply)
  {
    reports := [];
    if request.length == 0 {
      return Returned(Err(InvalidRequest)), reports;
    }
    if ctx.watermark.Err? {
      return Returned(Err(ctx.watermark.error)), reports;
    }
    if mapping.extentVersion < ctx.watermark.value {
      if ctx.refreshError.Some? {
        return Returned(Err(ctx.refreshError.value)), reports;
      }
      return Returned(Err(StaleMapping(request.extentId, mapping.extentVersion, ctx.watermark.value))), reports;
    }
    if mapping.dataCount == 0 || mapping.parityCount == 0 || ctx.rs.None? {
      return Returned(Err(InvalidRequest)), reports;
    }
    var fragments;
    fragments, reports := ReadFragments(request, mapping, order, reply);
    if fragments.Panicked? {
      return Panicked, reports;
    }
    if fragments.result.Err? {
      return Returned(Err(fragments.result.error)), reports;
    }
    var decoded := Decode(ctx.rs.value, mapping.dataCount, mapping.parityCount, fragments.result.value,
                          mapping.originalLen);
    match decoded
    case Err(e) =>
      var error := if e.InsufficientFragments? then AllReplicasFailed(request.extentId) else InvalidRequest;
      return Returned(Err(error)), reports;
    case Ok(data) =>
      if ctx.checksum(data) != mapping.checksum {
        return Returned(Err(AllReplicasCorrupt(request.extentId))), reports;
      }
      r := Returned(Ok(ReadResult(request.extentId, mapping.extentVersion, data, SourceNode(mapping))));
  }
}
