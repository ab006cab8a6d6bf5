/** Erasure-coded reads of bad placements and of corrupt fragments. */
module ErasureFaults {
  import opened Base
  import opened ErasureCodec
  import opened ErasureRead
  import opened ErasureReadTheorems
  import opened ReadTypes
  import XorCode

  // ---------- Reads that do not go ahead ----------

  // The session's writes are not all in the mapping.
  predicate Stale(ctx: Context, mapping: EcMapping) {
    ctx.watermark.Ok? && mapping.extentVersion < ctx.watermark.value
  }

  // Every read whose request, watermark, mapping version or coding parameters are
  // not in order is refused, in that order of precedence, whatever the nodes would
  // answer. All others go ahead.
  lemma Refusals(ctx: Context, request: ReadRequest, mapping: EcMapping, order: seq<NodeId>, reply: Replies)
    ensures var r := EcRead(ctx, request, mapping, order, reply);
            && (request.length == 0 ==> r == Returned(Err(InvalidRequest)))
            && (request.length > 0 && ctx.watermark.Err? ==> r == Returned(Err(ctx.watermark.error)))
            && (request.length > 0 && Stale(ctx, mapping) ==>
                  r == Returned(Err(if ctx.refreshError.Some? then ctx.refreshError.value
                                    else StaleMapping(request.extentId, mapping.extentVersion, ctx.watermark.value))))
            && (request.length > 0 && ctx.watermark.Ok? && !Stale(ctx, mapping)
                && (mapping.dataCount == 0 || mapping.parityCount == 0 || ctx.rs.None?) ==>
                  r == Returned(Err(InvalidRequest)))
    ensures !GoesAhead(ctx, request, mapping) <==>
            || request.length == 0 || ctx.watermark.Err? || Stale(ctx, mapping)
            || mapping.dataCount == 0 || mapping.parityCount == 0 || ctx.rs.None?
  {
  }

  // So data is served only from a mapping at or above the watermark, with the
  // version and the checksum of that mapping; the source named is the node of its
  // first placement, whichever nodes were asked.
  lemma ServedIsFresh(ctx: Context, request: ReadRequest, mapping: EcMapping, order: seq<NodeId>, reply: Replies)
    ensures var r := EcRead(ctx, request, mapping, order, reply);
            r.Returned? && r.result.Ok? ==>
            && request.length > 0 && ctx.watermark.Ok? && mapping.extentVersion >= ctx.watermark.value
            && r.result.value.extentId == request.extentId
            && r.result.value.extentVersion == mapping.extentVersion
            && ctx.checksum(r.result.value.data) == mapping.checksum
            && (mapping.placements != [] ==> r.result.value.sourceNode == mapping.placements[0].nodeId)
  {
    Refusals(ctx, request, mapping, order, reply);
  }

  // A stale mapping is reported as such exactly when the refresh works, if no error
  // of the metadata service looks the same.
  lemma StaleIff(ctx: Context, request: ReadRequest, mapping: EcMapping, order: seq<NodeId>, reply: Replies)
    requires ctx.watermark.Err? ==> !ctx.watermark.error.StaleMapping?
    requires ctx.refreshError.Some? ==> !ctx.refreshError.value.StaleMapping?
    ensures var r := EcRead(ctx, request, mapping, order, reply);
            (r.Returned? && r.result.Err? && r.result.error.StaleMapping?) <==>
            request.length > 0 && Stale(ctx, mapping) && ctx.refreshError.None?
  {
    Refusals(ctx, request, mapping, order, reply);
  }

  // A read that has its K answers and cannot decode them fails as too few if answers
  // for the same fragment have displaced one another, and as invalid otherwise.
  lemma UndecodableOutcome(ctx: Context, request: ReadRequest, mapping: EcMapping, order: seq<NodeId>,
                           reply: Replies)
    requires GoesAhead(ctx, request, mapping)
    ensures var k, m := mapping.dataCount, mapping.parityCount;
            var ps := Ordered(order, mapping.placements);
            var s := ScanFirst(ps, k, k + m, reply, |ps|);
            !s.panicked && s.successes >= k && Decoded(ctx.rs.value, k, m, s.slots, mapping.originalLen).Err? ==>
              EcRead(ctx, request, mapping, order, reply)
              == Returned(Err(if Present(s.slots) < k then AllReplicasFailed(request.extentId) else InvalidRequest))
  {
    var k, m := mapping.dataCount, mapping.parityCount;
    var ps := Ordered(order, mapping.placements);
    DecodeErrors(ctx.rs.value, k, m, ScanFirst(ps, k, k + m, reply, |ps|).slots, mapping.originalLen);
  }

  // ---------- What is reported ----------

  // How many of the reports are of a successful read.
  function OkReports(reports: seq<Report>): nat {
    if reports == [] then 0
    else OkReports(reports[..|reports| - 1]) + (if reports[|reports| - 1].ReadOk? then 1 else 0)
  }

  lemma {:induction false} OkReportsCount(ps: seq<FragmentPlacement>, reply: Replies, n: nat)
    requires n <= |ps|
    ensures OkReports(ReportsFor(ps[..n], reply)) == Answers(ps, reply, n)
  {
    if n > 0 {
      OkReportsCount(ps, reply, n - 1);
      OneMoreReport(ps, reply, n - 1);
    }
  }

  // Every asked node is reported once, in the order of asking: as read exactly if it
  // answered. As many are reported read as fragments were kept, and one more if that
  // one made the read panic.
  lemma ReportsAreRight(mapping: EcMapping, order: seq<NodeId>, reply: Replies)
    ensures var ps := Ordered(order, mapping.placements);
            var k, total := mapping.dataCount, mapping.dataCount + mapping.parityCount;
            var s := ScanFirst(ps, k, total, reply, |ps|);
            var reports := ReportsFor(ps[..s.asked], reply);
            && |reports| == s.asked
            && (forall i | 0 <= i < s.asked ::
                  && (reply(ps[i]).Some? ==> reports[i] == ReadOk(ps[i].nodeId))
                  && (reply(ps[i]).None? ==> reports[i] == ReadFailed(ps[i].nodeId)))
            && OkReports(reports) == s.successes + (if s.panicked then 1 else 0)
  {
    var ps := Ordered(order, mapping.placements);
    var k, total := mapping.dataCount, mapping.dataCount + mapping.parityCount;
    AskedStopsAtK(ps, k, total, reply, |ps|);
    OkReportsCount(ps, reply, ScanFirst(ps, k, total, reply, |ps|).asked);
  }

  // The selector's rank of a node is where it first occurs in the order; nodes that
  // do not occur rank behind all that do.
  lemma {:induction false} PositionIsFirst(order: seq<NodeId>, node: NodeId)
    ensures Position(order, node) <= |order| && node !in order[..Position(order, node)]
    ensures if node in order then Position(order, node) < |order| && order[Position(order, node)] == node
            else Position(order, node) == |order|
    decreases |order|
  {
    if order != [] && order[0] != node {
      PositionIsFirst(order[1..], node);
      var p := Position(order[1..], node);
      assert order[..p + 1] == [order[0]] + order[1..][..p];
      assert node in order <==> node in order[1..];
    }
  }

  // ---------- Fragment indexes outside the stripe ----------

  // The one node answers, with nothing, and no other does.
  function OnlyFrom(only: FragmentPlacement): Replies {
    (p: FragmentPlacement) => if p == only then Some([]) else None
  }

  lemma {:induction false} NoAnswersBefore(ps: seq<FragmentPlacement>, only: FragmentPlacement, n: nat)
    requires n <= |ps| && only !in ps[..n]
    ensures Answers(ps, OnlyFrom(only), n) == 0
  {
    if n > 0 {
      assert ps[..n] == ps[..n - 1] + [ps[n - 1]];
      NoAnswersBefore(ps, only, n - 1);
    }
  }

  // The first placement from n on whose index is outside the stripe.
  function FirstOutside(ps: seq<FragmentPlacement>, total: nat, n: nat): (i: nat)
    requires n <= |ps| && !InRange(ps, total) && forall j | 0 <= j < n :: ps[j].index < total
    ensures i < |ps| && ps[i].index >= total && forall j | 0 <= j < i :: ps[j].index < total
    decreases |ps| - n
  {
    if ps[n].index >= total then n else FirstOutside(ps, total, n + 1)
  }

  // With any placement outside the stripe, the answer of one node is enough to
  // make the read panic.
  lemma OutsidePanics(ctx: Context, request: ReadRequest, mapping: EcMapping, order: seq<NodeId>)
    returns (reply: Replies)
    requires GoesAhead(ctx, request, mapping)
    requires !InRange(mapping.placements, mapping.dataCount + mapping.parityCount)
    ensures EcRead(ctx, request, mapping, order, reply).Panicked?
  {
    var k, total := mapping.dataCount, mapping.dataCount + mapping.parityCount;
    var ps := Ordered(order, mapping.placements);
    OrderedOutside(order, mapping.placements, total);
    var i := FirstOutside(ps, total, 0);
    reply := OnlyFrom(ps[i]);
    assert ps[i] !in ps[..i];
    NoAnswersBefore(ps, ps[i], i);
    assert Misplaced(ps, k, total, reply, i);
    PanicsIff(ps, k, total, reply, |ps|);
  }

  lemma OrderedOutside(order: seq<NodeId>, ps: seq<FragmentPlacement>, total: nat)
    requires !InRange(ps, total)
    ensures !InRange(Ordered(order, ps), total)
  {
    OrderedPermutes(order, ps);
    var i :| 0 <= i < |ps| && ps[i].index >= total;
    assert ps[i] in Ordered(order, ps);
  }

  // A read that goes ahead is safe from panic, whatever the nodes answer, exactly
  // if all fragment indexes of the mapping are inside the stripe.
  lemma NeverPanicsIff(ctx: Context, request: ReadRequest, mapping: EcMapping, order: seq<NodeId>)
    requires GoesAhead(ctx, request, mapping)
    ensures (forall reply: Replies :: !EcRead(ctx, request, mapping, order, reply).Panicked?) <==>
            InRange(mapping.placements, mapping.dataCount + mapping.parityCount)
  {
    if InRange(mapping.placements, mapping.dataCount + mapping.parityCount) {
      OrderedInRange(order, mapping.placements, mapping.dataCount + mapping.parityCount);
    } else {
      var reply := OutsidePanics(ctx, request, mapping, order);
    }
  }

  // ---------- Corrupt fragments ----------

  // The data nodes answer with these shards.
  ghost predicate DataAnswers(mapping: EcMapping, reply: Replies, shards: seq<Shard>) {
    && |shards| == mapping.dataCount
    && forall p | p in mapping.placements && p.index < mapping.dataCount :: reply(p) == Some(shards[p.index])
  }

  lemma CollectsFirst(ps: seq<FragmentPlacement>, k: nat, total: nat, reply: Replies, shards: seq<Shard>)
    requires k <= |ps| && |shards| == k && InRange(ps, total) && DistinctIndexes(ps)
    requires forall i | 0 <= i < k :: ps[i].index < k && reply(ps[i]) == Some(shards[ps[i].index])
    ensures var s := ScanFirst(ps, k, total, reply, |ps|);
            && !s.panicked && s.successes == Present(s.slots) == k
            && forall i | 0 <= i < total && s.slots[i].Some? :: i < k && s.slots[i].value.data == shards[i]
  {
    AllAnswerPrefix(ps, k, total, reply, k);
    StoppedScan(ps, k, total, reply, k, |ps|);
    ScanFills(ps, k, total, reply, k);
  }

  // What the loop collects is then some of the data shards, K in all.
  lemma CollectsData(mapping: EcMapping, order: seq<NodeId>, reply: Replies, shards: seq<Shard>)
    requires WellPlaced(mapping.placements, mapping.dataCount, mapping.parityCount)
    requires DataAnswers(mapping, reply, shards)
    ensures var k, total := mapping.dataCount, mapping.dataCount + mapping.parityCount;
            var ps := Ordered(order, mapping.placements);
            var s := ScanFirst(ps, k, total, reply, |ps|);
            && !s.panicked && s.successes == Present(s.slots) == k
            && forall i | 0 <= i < total && s.slots[i].Some? :: i < k && s.slots[i].value.data == shards[i]
  {
    var k, m := mapping.dataCount, mapping.parityCount;
    var ps := Ordered(order, mapping.placements);
    OrderedReady(order, mapping.placements, k, m, reply);
    FirstAreData(order, mapping.placements, k, m);
    forall i | 0 <= i < k ensures ps[i].index < k && reply(ps[i]) == Some(shards[ps[i].index]) {
      assert ps[i] in mapping.placements && ps[i].isData;
    }
    CollectsFirst(ps, k, k + m, reply, shards);
  }

  // Any K data shards of one size are part of a codeword.
  lemma CollectedDecodes(rs: ReedSolomon, k: nat, m: nat, shards: seq<Shard>, size: nat,
                         slots: seq<Option<Fragment>>, n: nat)
    requires Lawful(rs, k, m) && size > 0 && |shards| == k && Uniform(shards, size)
    requires |slots| == k + m && Present(slots) == k
    requires forall i | 0 <= i < k + m && slots[i].Some? :: i < k && slots[i].value.data == shards[i]
    ensures Decoded(rs, k, m, slots, n) == Ok(Joined(shards)[..Min(n, |Joined(shards)|)])
  {
    var all := shards + Blank(m, size);
    assert Uniform(all, size) && all[..k] == shards;
    var codeword := rs.encode(all).value;
    assert codeword[..k] == shards;
    forall i | 0 <= i < k + m && Contents(slots)[i].Some? ensures Contents(slots)[i].value == codeword[i] {
      assert codeword[i] == codeword[..k][i];
    }
    PresentContents(slots);
    ReconstructedDecodes(rs, k, m, slots, n, codeword);
  }

  lemma DataDecodes(rs: ReedSolomon, mapping: EcMapping, order: seq<NodeId>, reply: Replies,
                    shards: seq<Shard>, size: nat)
    requires WellPlaced(mapping.placements, mapping.dataCount, mapping.parityCount)
    requires Lawful(rs, mapping.dataCount, mapping.parityCount)
    requires DataAnswers(mapping, reply, shards) && size > 0 && Uniform(shards, size)
    ensures var k, m := mapping.dataCount, mapping.parityCount;
            var ps := Ordered(order, mapping.placements);
            var s := ScanFirst(ps, k, k + m, reply, |ps|);
            && !s.panicked && s.successes >= k
            && Decoded(rs, k, m, s.slots, mapping.originalLen)
               == Ok(Joined(shards)[..Min(mapping.originalLen, |Joined(shards)|)])
  {
    var k, m := mapping.dataCount, mapping.parityCount;
    var ps := Ordered(order, mapping.placements);
    CollectsData(mapping, order, reply, shards);
    CollectedDecodes(rs, k, m, shards, size, ScanFirst(ps, k, k + m, reply, |ps|).slots, mapping.originalLen);
  }

  // What a read gives that has decoded these bytes.
  function Checked(ctx: Context, request: ReadRequest, mapping: EcMapping, bytes: Bytes): Outcome<ReadResult> {
    if ctx.checksum(bytes) == mapping.checksum then Success(request, mapping, bytes)
    else Returned(Err(AllReplicasCorrupt(request.extentId)))
  }

  lemma DecodedIsChecked(ctx: Context, request: ReadRequest, mapping: EcMapping, order: seq<NodeId>,
                         reply: Replies, s: Scan, bytes: Bytes)
    requires GoesAhead(ctx, request, mapping)
    requires var ps := Ordered(order, mapping.placements);
             s == ScanFirst(ps, mapping.dataCount, mapping.dataCount + mapping.parityCount, reply, |ps|)
    requires !s.panicked && s.successes >= mapping.dataCount
    requires Decoded(ctx.rs.value, mapping.dataCount, mapping.parityCount, s.slots, mapping.originalLen) == Ok(bytes)
    ensures EcRead(ctx, request, mapping, order, reply) == Checked(ctx, request, mapping, bytes)
  {
  }

  // When all data nodes answer, with shards of one size, right or wrong, parity
  // plays no part: the read succeeds exactly if the joined and truncated bytes have
  // the checksum of the mapping.
  lemma DataAnswersDecide(ctx: Context, request: ReadRequest, mapping: EcMapping, order: seq<NodeId>,
                          reply: Replies, shards: seq<Shard>, size: nat)
    requires GoesAhead(ctx, request, mapping)
    requires WellPlaced(mapping.placements, mapping.dataCount, mapping.parityCount)
    requires Lawful(ctx.rs.value, mapping.dataCount, mapping.parityCount)
    requires DataAnswers(mapping, reply, shards) && size > 0 && Uniform(shards, size)
    ensures var joined := Joined(shards);
            EcRead(ctx, request, mapping, order, reply)
            == Checked(ctx, request, mapping, joined[..Min(mapping.originalLen, |joined|)])
  {
    var ps := Ordered(order, mapping.placements);
    var s := ScanFirst(ps, mapping.dataCount, mapping.dataCount + mapping.parityCount, reply, |ps|);
    DataDecodes(ctx.rs.value, mapping, order, reply, shards, size);
    DecodedIsChecked(ctx, request, mapping, order, reply, s,
                     Joined(shards)[..Min(mapping.originalLen, |Joined(shards)|)]);
  }

  // Every node returns the fragment it holds, except that fragment f is answered
  // as given.
  function ButFor(stored: seq<Fragment>, f: nat, answer: Option<Shard>): Replies {
    (p: FragmentPlacement) =>
      if p.index == f then answer
      else if p.index < |stored| then Some(stored[p.index].data)
      else None
  }

  lemma StoredPieces(ctx: Context, request: ReadRequest, mapping: EcMapping, data: Bytes, i: nat)
    requires Ready(ctx, request, mapping, data) && i < mapping.dataCount
    ensures |Stored(ctx, mapping, data)| == mapping.dataCount + mapping.parityCount
    ensures Stored(ctx, mapping, data)[i].data == Piece(data, FragmentSize(|data|, mapping.dataCount), i)
  {
    var k, m := mapping.dataCount, mapping.parityCount;
    var size := FragmentSize(|data|, k);
    EncodesToCodeword(ctx.rs.value, k, m, data);
    StoredFragments(ctx, request, mapping, data);
    var codeword := ctx.rs.value.encode(Pieces(data, size, k) + Blank(m, size)).value;
    assert codeword[i] == codeword[..k][i] == Pieces(data, size, k)[i];
  }

  // The holder of data fragment f returns that of other bytes; all other nodes,
  // the M parity nodes among them, return what they hold. The read goes by the
  // bad fragment and fails, unless the checksum cannot tell the bytes apart.
  lemma BadFragmentDecides(ctx: Context, request: ReadRequest, mapping: EcMapping, order: seq<NodeId>,
                           data: Bytes, other: Bytes, f: nat)
    requires Ready(ctx, request, mapping, data) && f < mapping.dataCount && |other| == |data|
    requires var size := FragmentSize(|data|, mapping.dataCount);
             forall i | 0 <= i < mapping.dataCount && i != f :: Piece(other, size, i) == Piece(data, size, i)
    ensures var bad := Piece(other, FragmentSize(|data|, mapping.dataCount), f);
            EcRead(ctx, request, mapping, order, ButFor(Stored(ctx, mapping, data), f, Some(bad)))
            == Checked(ctx, request, mapping, other)
  {
    var k := mapping.dataCount;
    var size := FragmentSize(|data|, k);
    var shards := Pieces(other, size, k);
    var reply := ButFor(Stored(ctx, mapping, data), f, Some(Piece(other, size, f)));
    forall p | p in mapping.placements && p.index < k ensures reply(p) == Some(shards[p.index]) {
      StoredPieces(ctx, request, mapping, data, p.index);
    }
    DataAnswersDecide(ctx, request, mapping, order, reply, shards, size);
    PiecesCover(other, k);
  }

  // Had that node failed instead, the read would have succeeded.
  lemma SilentFragmentIsMadeUpFor(ctx: Context, request: ReadRequest, mapping: EcMapping, order: seq<NodeId>,
                                  data: Bytes, f: nat)
    requires Ready(ctx, request, mapping, data)
    ensures EcRead(ctx, request, mapping, order, ButFor(Stored(ctx, mapping, data), f, None))
         == Success(request, mapping, data)
  {
    var reply := ButFor(Stored(ctx, mapping, data), f, None);
    var failed := set p | p in mapping.placements && p.index == f :: p.nodeId;
    if p :| p in mapping.placements && p.index == f {
      assert failed == {p.nodeId};
    } else {
      assert failed == {};
    }
    assert Honest(mapping.placements, reply, Stored(ctx, mapping, data), failed);
    EndToEnd(ctx, request, mapping, order, reply, data, failed);
  }

  // One wrong byte from one node fails the read of any extent, whatever K, M and
  // the order, although all parity fragments are good.
  lemma OneBadByteFailsRead(ctx: Context, request: ReadRequest, mapping: EcMapping, order: seq<NodeId>,
                            data: Bytes, wrong: bv8) returns (bad: Shard)
    requires Ready(ctx, request, mapping, data)
    requires ctx.checksum(data[0 := wrong]) != ctx.checksum(data)
    ensures var reply := ButFor(Stored(ctx, mapping, data), 0, Some(bad));
            && EcRead(ctx, request, mapping, order, reply) == Returned(Err(AllReplicasCorrupt(request.extentId)))
            && forall p: FragmentPlacement | 0 < p.index < mapping.dataCount + mapping.parityCount ::
                 p.index < |Stored(ctx, mapping, data)| && reply(p) == Some(Stored(ctx, mapping, data)[p.index].data)
  {
    var k := mapping.dataCount;
    var size := FragmentSize(|data|, k);
    var other := data[0 := wrong];
    forall i | 0 < i < k ensures Piece(other, size, i) == Piece(data, size, i) {
      assert i * size >= size;
    }
    bad := Piece(other, size, 0);
    StoredPieces(ctx, request, mapping, data, 0);
    BadFragmentDecides(ctx, request, mapping, order, data, other, 0);
  }

  function Told(data: Bytes): Bytes -> Checksum {
    (bytes: Bytes) => if bytes == data then "good" else "bad"
  }

  // There are such extents: any data coded with any K and one parity fragment, under
  // a checksum that tells it from all other data.
  lemma ReadyExists(k: nat, data: Bytes) returns (ctx: Context, request: ReadRequest, mapping: EcMapping)
    requires k >= 1 && data != []
    ensures Ready(ctx, request, mapping, data) && mapping.dataCount == k
    ensures forall other | other != data :: ctx.checksum(other) != ctx.checksum(data)
  {
    XorCode.XorIsLawful(k);
    ctx := Context(Ok(0), None, Some(XorCode.Code(k)), Told(data));
    request := ReadRequest(VolumeId(0), ExtentId(0), 0, 1);
    var nodes := seq(k + 1, i requires 0 <= i < k + 1 => NodeId(i));
    mapping := EcMapping(0, ctx.checksum(data), k, 1, |data|, Spread(nodes, k));
  }
}
