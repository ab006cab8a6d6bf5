/** End-to-end correctness of erasure-coded reads. */
module ErasureReadTheorems {
  import opened Base
  import opened ErasureCodec
  import opened ErasureRead
  import opened ReadTypes
  import opened StableSort
  import Rendezvous = Placement

  // Each of the K+M fragments has its own placement, on a node of its own.
  ghost predicate WellPlaced(ps: seq<FragmentPlacement>, k: nat, m: nat) {
    && |ps| == k + m
    && InRange(ps, k + m)
    && (forall i, j | 0 <= i < j < |ps| :: ps[i].index != ps[j].index && ps[i].nodeId != ps[j].nodeId)
    && (forall i | 0 <= i < |ps| :: ps[i].isData <==> ps[i].index < k)
  }

  // Nodes outside `failed` return the fragment they hold; the others return it
  // or fail.
  ghost predicate Honest(ps: seq<FragmentPlacement>, reply: Replies, fragments: seq<Fragment>, failed: set<NodeId>) {
    forall p | p in ps && p.index < |fragments| ::
      && (p.nodeId !in failed ==> reply(p).Some?)
      && (reply(p).Some? ==> reply(p).value == fragments[p.index].data)
  }

  // ---------- Counting ----------

  function Answers(ps: seq<FragmentPlacement>, reply: Replies, n: nat): nat
    requires n <= |ps|
  {
    if n == 0 then 0 else Answers(ps, reply, n - 1) + (if reply(ps[n - 1]).Some? then 1 else 0)
  }

  lemma {:induction false} ScanCounts(ps: seq<FragmentPlacement>, k: nat, total: nat, reply: Replies, n: nat)
    requires n <= |ps| && !ScanFirst(ps, k, total, reply, n).panicked
    ensures ScanFirst(ps, k, total, reply, n).successes == Min(k, Answers(ps, reply, n))
  {
    if n > 0 {
      ScanCounts(ps, k, total, reply, n - 1);
    }
  }

  ghost function Answering(ps: seq<FragmentPlacement>, reply: Replies): set<FragmentPlacement> {
    set p | p in ps && reply(p).Some?
  }

  lemma {:induction false} AnswersCounted(ps: seq<FragmentPlacement>, reply: Replies, n: nat)
    requires n <= |ps| && Distinct(ps)
    ensures Answers(ps, reply, n) == |Answering(ps[..n], reply)|
  {
    if n > 0 {
      AnswersCounted(ps, reply, n - 1);
      assert ps[..n] == ps[..n - 1] + [ps[n - 1]];
      assert ps[n - 1] !in ps[..n - 1];
      assert Answering(ps[..n], reply)
          == Answering(ps[..n - 1], reply) + (if reply(ps[n - 1]).Some? then {ps[n - 1]} else {});
    }
  }

  lemma {:induction false} SizeOfDistinct(ps: seq<FragmentPlacement>)
    requires Distinct(ps)
    ensures |set p | p in ps| == |ps|
    decreases |ps|
  {
    if ps != [] {
      var last := |ps| - 1;
      assert ps == ps[..last] + [ps[last]];
      SizeOfDistinct(ps[..last]);
      assert (set p | p in ps) == (set p | p in ps[..last]) + {ps[last]};
    }
  }

  // Placements on distinct nodes are no more numerous than their nodes.
  lemma {:induction false} NodesBoundPlacements(xs: set<FragmentPlacement>, nodes: set<NodeId>)
    requires forall p | p in xs :: p.nodeId in nodes
    requires forall p, q | p in xs && q in xs && p != q :: p.nodeId != q.nodeId
    ensures |xs| <= |nodes|
    decreases |xs|
  {
    if xs != {} {
      var p :| p in xs;
      NodesBoundPlacements(xs - {p}, nodes - {p.nodeId});
    }
  }

  lemma EnoughAnswer(ps: seq<FragmentPlacement>, reply: Replies, fragments: seq<Fragment>, failed: set<NodeId>,
                     k: nat, m: nat)
    requires WellPlaced(ps, k, m) && |fragments| == k + m
    requires Honest(ps, reply, fragments, failed) && |failed| <= m
    ensures |Answering(ps, reply)| >= k
  {
    var all := set p | p in ps;
    var silent := all - Answering(ps, reply);
    SizeOfDistinct(ps);
    forall p, q | p in silent && q in silent && p != q ensures p.nodeId != q.nodeId {
      var i :| 0 <= i < |ps| && ps[i] == p;
      var j :| 0 <= j < |ps| && ps[j] == q;
    }
    forall p | p in silent ensures p.nodeId in failed {
      assert p in ps && p.index < |fragments|;
    }
    NodesBoundPlacements(silent, failed);
    assert all == Answering(ps, reply) + silent;
    assert |all| == |Answering(ps, reply)| + |silent|;
  }

  // ---------- What the loop collects ----------

  lemma {:induction false} PresentUpdate<T>(slots: seq<Option<T>>, i: nat, x: T)
    requires i < |slots| && slots[i].None?
    ensures Present(slots[i := Some(x)]) == Present(slots) + 1
    decreases |slots|
  {
    var last := |slots| - 1;
    if i == last {
      assert slots[i := Some(x)][..last] == slots[..last];
    } else {
      assert slots[i := Some(x)][..last] == slots[..last][i := Some(x)];
      PresentUpdate(slots[..last], i, x);
    }
  }

  lemma {:induction false} NonePresent<T>(slots: seq<Option<T>>)
    requires forall i | 0 <= i < |slots| :: slots[i].None?
    ensures Present(slots) == 0
    decreases |slots|
  {
    if slots != [] {
      NonePresent(slots[..|slots| - 1]);
    }
  }

  ghost predicate DistinctIndexes(ps: seq<FragmentPlacement>) {
    forall i, j | 0 <= i < j < |ps| :: ps[i].index != ps[j].index
  }

  // With distinct fragment indexes, every success fills a slot of its own, with
  // the reply to the placement of that slot.
  lemma {:induction false} ScanFills(ps: seq<FragmentPlacement>, k: nat, total: nat, reply: Replies, n: nat)
    requires n <= |ps| && InRange(ps, total) && DistinctIndexes(ps)
    ensures var s := ScanFirst(ps, k, total, reply, n);
            && Present(s.slots) == s.successes
            && (forall i | 0 <= i < total && s.slots[i].Some? ::
                  exists j :: 0 <= j < n && ps[j].index == i && reply(ps[j]) == Some(s.slots[i].value.data))
  {
    if n == 0 {
      NonePresent(ScanFirst(ps, k, total, reply, 0).slots);
    } else {
      ScanFills(ps, k, total, reply, n - 1);
      var before := ScanFirst(ps, k, total, reply, n - 1);
      var p := ps[n - 1];
      assert before.slots[p.index].None? by {
        assert forall j | 0 <= j < n - 1 :: ps[j].index != p.index;
      }
      if before.successes < k && reply(p).Some? {
        PresentUpdate(before.slots, p.index, Fragment(p.index, p.isData, reply(p).value));
        var s := ScanFirst(ps, k, total, reply, n);
        forall i | 0 <= i < total && s.slots[i].Some?
          ensures exists j :: 0 <= j < n && ps[j].index == i && reply(ps[j]) == Some(s.slots[i].value.data)
        {
          if i == p.index {
            assert ps[n - 1].index == i;
          } else {
            assert s.slots[i] == before.slots[i];
          }
        }
      }
    }
  }

  lemma PermutedIndexes(ps: seq<FragmentPlacement>, qs: seq<FragmentPlacement>)
    requires multiset(ps) == multiset(qs) && DistinctIndexes(ps)
    ensures DistinctIndexes(qs) && Distinct(qs)
  {
    assert Distinct(ps);
    DistinctCounts(ps);
    DistinctCounts(qs);
    forall i, j | 0 <= i < j < |qs| ensures qs[i].index != qs[j].index {
      assert qs[i] in multiset(qs) && qs[j] in multiset(qs);
      var a :| 0 <= a < |ps| && ps[a] == qs[i];
      var b :| 0 <= b < |ps| && ps[b] == qs[j];
      assert a != b;
    }
  }

  lemma OrderedReady(order: seq<NodeId>, placements: seq<FragmentPlacement>, k: nat, m: nat, reply: Replies)
    requires WellPlaced(placements, k, m)
    ensures var ps := Ordered(order, placements);
            && InRange(ps, k + m) && DistinctIndexes(ps)
            && (forall p | p in ps :: p in placements)
            && Answers(ps, reply, |ps|) == |Answering(placements, reply)|
  {
    var ps := Ordered(order, placements);
    OrderedPermutes(order, placements);
    forall i | 0 <= i < |ps| ensures ps[i].index < k + m {
      assert ps[i] in placements;
    }
    PermutedIndexes(placements, ps);
    AnswersCounted(ps, reply, |ps|);
    assert ps[..|ps|] == ps;
    assert Answering(ps, reply) == Answering(placements, reply);
  }

  lemma ScanSurvives(ps: seq<FragmentPlacement>, k: nat, reply: Replies, fragments: seq<Fragment>)
    requires InRange(ps, |fragments|) && DistinctIndexes(ps)
    requires forall p | p in ps && reply(p).Some? && p.index < |fragments| :: reply(p).value == fragments[p.index].data
    ensures var s := ScanFirst(ps, k, |fragments|, reply, |ps|);
            Survive(s.slots, fragments) && Present(s.slots) == s.successes == Min(k, Answers(ps, reply, |ps|))
  {
    ScanCounts(ps, k, |fragments|, reply, |ps|);
    ScanFills(ps, k, |fragments|, reply, |ps|);
  }

  // ---------- The theorem ----------

  // The extent was written with this data, the library is lawful for its K and
  // M, and the request can go ahead.
  ghost predicate Ready(ctx: Context, request: ReadRequest, mapping: EcMapping, data: Bytes) {
    && GoesAhead(ctx, request, mapping)
    && data != []
    && mapping.originalLen == |data| && mapping.checksum == ctx.checksum(data)
    && WellPlaced(mapping.placements, mapping.dataCount, mapping.parityCount)
    && Lawful(ctx.rs.value, mapping.dataCount, mapping.parityCount)
  }

  // The fragments the nodes hold.
  function Stored(ctx: Context, mapping: EcMapping, data: Bytes): seq<Fragment> {
    if ctx.rs.Some? && mapping.dataCount >= 1 then
      var encoded := Encoded(ctx.rs.value, mapping.dataCount, mapping.parityCount, data);
      if encoded.Ok? then encoded.value else []
    else []
  }

  function Success(request: ReadRequest, mapping: EcMapping, data: Bytes): Outcome<ReadResult> {
    Returned(Ok(ReadResult(request.extentId, mapping.extentVersion, data, SourceNode(mapping))))
  }

  function TooFew(request: ReadRequest): Outcome<ReadResult> {
    Returned(Err(AllReplicasFailed(request.extentId)))
  }

  lemma ReadFromScan(ctx: Context, request: ReadRequest, mapping: EcMapping, order: seq<NodeId>, reply: Replies,
                     data: Bytes, s: Scan)
    requires Ready(ctx, request, mapping, data)
    requires InRange(Ordered(order, mapping.placements), mapping.dataCount + mapping.parityCount)
    requires var ps := Ordered(order, mapping.placements);
             s == ScanFirst(ps, mapping.dataCount, mapping.dataCount + mapping.parityCount, reply, |ps|)
    requires s.successes >= mapping.dataCount ==>
             Decoded(ctx.rs.value, mapping.dataCount, mapping.parityCount, s.slots, mapping.originalLen) == Ok(data)
    ensures EcRead(ctx, request, mapping, order, reply)
         == if s.successes >= mapping.dataCount then Success(request, mapping, data)
            else TooFew(request)
  {
  }

  lemma ScanDecodes(rs: ReedSolomon, k: nat, m: nat, data: Bytes, ps: seq<FragmentPlacement>, reply: Replies)
    requires Lawful(rs, k, m) && data != [] && InRange(ps, k + m) && DistinctIndexes(ps)
    requires Encoded(rs, k, m, data).Ok? ==>
             var fragments := Encoded(rs, k, m, data).value;
             forall p | p in ps && reply(p).Some? && p.index < |fragments| :: reply(p).value == fragments[p.index].data
    ensures var s := ScanFirst(ps, k, k + m, reply, |ps|);
            && s.successes == Min(k, Answers(ps, reply, |ps|))
            && (s.successes >= k ==> Decoded(rs, k, m, s.slots, |data|) == Ok(data))
  {
    EncodesToCodeword(rs, k, m, data);
    ScanSurvives(ps, k, reply, Encoded(rs, k, m, data).value);
    DecodeAfterEncode(rs, k, m, data, ScanFirst(ps, k, k + m, reply, |ps|).slots);
  }

  lemma StoredFragments(ctx: Context, request: ReadRequest, mapping: EcMapping, data: Bytes)
    requires Ready(ctx, request, mapping, data)
    ensures |Stored(ctx, mapping, data)| == mapping.dataCount + mapping.parityCount
    ensures Encoded(ctx.rs.value, mapping.dataCount, mapping.parityCount, data) == Ok(Stored(ctx, mapping, data))
  {
    EncodesToCodeword(ctx.rs.value, mapping.dataCount, mapping.parityCount, data);
  }

  lemma ReadDecides(ctx: Context, request: ReadRequest, mapping: EcMapping, order: seq<NodeId>, reply: Replies,
                    data: Bytes, failed: set<NodeId>)
    requires Ready(ctx, request, mapping, data)
    requires Honest(mapping.placements, reply, Stored(ctx, mapping, data), failed)
    ensures EcRead(ctx, request, mapping, order, reply)
         == if |Answering(mapping.placements, reply)| >= mapping.dataCount then Success(request, mapping, data)
            else TooFew(request)
  {
    var k, m := mapping.dataCount, mapping.parityCount;
    StoredFragments(ctx, request, mapping, data);
    OrderedReady(order, mapping.placements, k, m, reply);
    var ps := Ordered(order, mapping.placements);
    ScanDecodes(ctx.rs.value, k, m, data, ps, reply);
    ReadFromScan(ctx, request, mapping, order, reply, data, ScanFirst(ps, k, k + m, reply, |ps|));
  }

  // A well-placed extent of any data is read back exactly as long as at most M
  // nodes fail. Given which nodes answer, K answers are enough and necessary.
  lemma EndToEnd(ctx: Context, request: ReadRequest, mapping: EcMapping, order: seq<NodeId>, reply: Replies,
                 data: Bytes, failed: set<NodeId>)
    requires Ready(ctx, request, mapping, data)
    requires Honest(mapping.placements, reply, Stored(ctx, mapping, data), failed)
    ensures |failed| <= mapping.parityCount ==>
            EcRead(ctx, request, mapping, order, reply) == Success(request, mapping, data)
    ensures EcRead(ctx, request, mapping, order, reply)
         == if |Answering(mapping.placements, reply)| >= mapping.dataCount then Success(request, mapping, data)
            else TooFew(request)
  {
    ReadDecides(ctx, request, mapping, order, reply, data, failed);
    StoredFragments(ctx, request, mapping, data);
    if |failed| <= mapping.parityCount {
      EnoughAnswer(mapping.placements, reply, Stored(ctx, mapping, data), failed,
                   mapping.dataCount, mapping.parityCount);
    }
  }

  // ---------- Which nodes are asked ----------

  lemma {:induction false} AllAnswerPrefix(ps: seq<FragmentPlacement>, k: nat, total: nat, reply: Replies, n: nat)
    requires n <= |ps| && InRange(ps, total) && n <= k
    requires forall i | 0 <= i < n :: reply(ps[i]).Some?
    ensures var s := ScanFirst(ps, k, total, reply, n); s.successes == n && s.asked == n
  {
    if n > 0 {
      AllAnswerPrefix(ps, k, total, reply, n - 1);
    }
  }

  lemma {:induction false} Pigeonhole(ps: seq<FragmentPlacement>, lo: nat, hi: nat)
    requires lo <= hi && DistinctIndexes(ps)
    requires forall p | p in ps :: lo <= p.index < hi
    ensures |ps| <= hi - lo
  {
    var indexes := set p | p in ps :: p.index;
    IndexCount(ps);
    assert indexes <= Range(lo, hi);
    SubsetSize(indexes, Range(lo, hi));
  }

  lemma SubsetSize(a: set<nat>, b: set<nat>)
    requires a <= b
    ensures |a| <= |b|
  {
    assert b == a + (b - a);
  }

  ghost function Range(lo: nat, hi: nat): (r: set<nat>)
    requires lo <= hi
    ensures |r| == hi - lo && forall i :: i in r <==> lo <= i < hi
    decreases hi
  {
    if lo == hi then {} else Range(lo, hi - 1) + {hi - 1}
  }

  lemma {:induction false} IndexCount(ps: seq<FragmentPlacement>)
    requires DistinctIndexes(ps)
    ensures |set p | p in ps :: p.index| == |ps|
    decreases |ps|
  {
    if ps != [] {
      var last := |ps| - 1;
      IndexCount(ps[..last]);
      assert ps == ps[..last] + [ps[last]];
      assert (set p | p in ps :: p.index) == (set p | p in ps[..last] :: p.index) + {ps[last].index};
      assert ps[last].index !in (set p | p in ps[..last] :: p.index);
    }
  }

  lemma {:induction false} FilterKeepsIndexes(f: FragmentPlacement -> bool, ps: seq<FragmentPlacement>)
    requires DistinctIndexes(ps)
    ensures DistinctIndexes(Filter(f, ps))
    decreases |ps|
  {
    if ps != [] {
      assert DistinctIndexes(ps[1..]);
      FilterKeepsIndexes(f, ps[1..]);
      forall q | q in Filter(f, ps[1..]) ensures q.index != ps[0].index {
        FilterElements(f, ps[1..], q);
      }
    }
  }

  // A well-placed extent has exactly K data placements.
  lemma DataPlacements(ps: seq<FragmentPlacement>, k: nat, m: nat)
    requires WellPlaced(ps, k, m)
    ensures |Filter(IsData(), ps)| == k
  {
    FilterSplits(ps);
    FilterKeepsIndexes(IsData(), ps);
    FilterKeepsIndexes(IsParity(), ps);
    forall p | p in Filter(IsData(), ps) ensures 0 <= p.index < k {
      FilterElements(IsData(), ps, p);
    }
    forall p | p in Filter(IsParity(), ps) ensures k <= p.index < k + m {
      FilterElements(IsParity(), ps, p);
    }
    Pigeonhole(Filter(IsData(), ps), 0, k);
    Pigeonhole(Filter(IsParity(), ps), k, k + m);
  }

  lemma FirstAreData(order: seq<NodeId>, placements: seq<FragmentPlacement>, k: nat, m: nat)
    requires WellPlaced(placements, k, m)
    ensures var ps := Ordered(order, placements);
            |ps| == k + m && forall i | 0 <= i < k :: ps[i].isData && ps[i] in placements
  {
    var ps, data := Ordered(order, placements), Filter(IsData(), placements);
    OrderedInRange(order, placements, k + m);
    DataPlacements(placements, k, m);
    SortPermutes(data, ByPosition(order));
    forall i | 0 <= i < k ensures ps[i].isData && ps[i] in placements {
      assert ps[i] == Sort(data, ByPosition(order))[i];
      SameElements(data, ByPosition(order), ps[i]);
      FilterElements(IsData(), placements, ps[i]);
    }
  }

  lemma FirstKSuffice(ps: seq<FragmentPlacement>, k: nat, total: nat, reply: Replies)
    requires k <= |ps| && InRange(ps, total)
    requires forall i | 0 <= i < k :: reply(ps[i]).Some?
    ensures var s := ScanFirst(ps, k, total, reply, |ps|); s.successes == s.asked == k
  {
    AllAnswerPrefix(ps, k, total, reply, k);
    StoppedScan(ps, k, total, reply, k, |ps|);
  }

  // When every data node answers, exactly the K data nodes are asked.
  lemma DataNodesSuffice(mapping: EcMapping, order: seq<NodeId>, reply: Replies)
    requires WellPlaced(mapping.placements, mapping.dataCount, mapping.parityCount)
    requires forall p | p in mapping.placements && p.isData :: reply(p).Some?
    ensures var ps := Ordered(order, mapping.placements);
            var s := ScanFirst(ps, mapping.dataCount, mapping.dataCount + mapping.parityCount, reply, |ps|);
            && s.asked == s.successes == mapping.dataCount <= |ps|
            && forall i | 0 <= i < mapping.dataCount :: ps[i].isData
  {
    var k, m := mapping.dataCount, mapping.parityCount;
    var ps := Ordered(order, mapping.placements);
    OrderedInRange(order, mapping.placements, k + m);
    FirstAreData(order, mapping.placements, k, m);
    FirstKSuffice(ps, k, k + m, reply);
  }

  // The read never keeps more than K fragments, and asks no node after the Kth
  // answer, nor after one that makes it panic.
  lemma {:induction false} AskedStopsAtK(ps: seq<FragmentPlacement>, k: nat, total: nat, reply: Replies, n: nat)
    requires n <= |ps|
    ensures var s := ScanFirst(ps, k, total, reply, n);
            && s.successes <= k
            && s.successes + (if s.panicked then 1 else 0) == Answers(ps, reply, s.asked)
            && (s.asked < n ==> s.successes == k || s.panicked)
            && (0 < s.asked ==> Answers(ps, reply, s.asked - 1) < k)
  {
    if n > 0 {
      AskedStopsAtK(ps, k, total, reply, n - 1);
    }
  }

  // Placement i is answered with a fragment for which there is no slot, before K
  // fragments have arrived.
  ghost predicate Misplaced(ps: seq<FragmentPlacement>, k: nat, total: nat, reply: Replies, i: nat)
    requires i < |ps|
  {
    reply(ps[i]).Some? && ps[i].index >= total && Answers(ps, reply, i) < k
  }

  // The loop panics exactly if some answer is misplaced.
  lemma {:induction false} PanicsIff(ps: seq<FragmentPlacement>, k: nat, total: nat, reply: Replies, n: nat)
    requires n <= |ps|
    ensures ScanFirst(ps, k, total, reply, n).panicked <==>
            exists i :: 0 <= i < n && Misplaced(ps, k, total, reply, i)
  {
    if n > 0 {
      PanicsIff(ps, k, total, reply, n - 1);
      if !ScanFirst(ps, k, total, reply, n - 1).panicked {
        ScanCounts(ps, k, total, reply, n - 1);
        assert ScanFirst(ps, k, total, reply, n).panicked <==> Misplaced(ps, k, total, reply, n - 1);
      }
    }
  }

  // ---------- Placements made by rendezvous selection ----------

  // Fragment i goes to the i-th selected node.
  function Spread(nodes: seq<NodeId>, k: nat): seq<FragmentPlacement> {
    seq(|nodes|, i requires 0 <= i < |nodes| => FragmentPlacement(i, i < k, nodes[i]))
  }

  // With at least K+M distinct nodes to choose from, selection places every
  // stripe well, so the end-to-end theorem applies to it.
  lemma RendezvousPlacesWell(score: Rendezvous.Score, nodes: seq<NodeId>, k: nat, m: nat)
    requires Distinct(nodes) && k + m <= 255 && k + m <= |nodes|
    ensures WellPlaced(Spread(Rendezvous.SelectEcNodes(score, nodes, k, m), k), k, m)
  {
    Rendezvous.StripeGetsDistinctNodes(score, nodes, k, m);
    var selected := Rendezvous.SelectEcNodes(score, nodes, k, m);
    var ps := Spread(selected, k);
    forall i, j | 0 <= i < j < |ps| ensures ps[i].index != ps[j].index && ps[i].nodeId != ps[j].nodeId {
      assert selected[i] != selected[j];
    }
  }
}
