/** Rendezvous selection of the nodes that hold a block. */
module Placement {
  import opened Base
  import opened StableSort

  // The hash of (volume, block, node), for one volume and block.
  type Score = NodeId -> nat

  function ByScore(score: Score): (NodeId, NodeId) -> bool {
    (a: NodeId, b: NodeId) => score(a) <= score(b)
  }

  function SelectNodes(score: Score, nodes: seq<NodeId>, count: nat): seq<NodeId> {
    if |nodes| <= count then nodes
    else
      var sorted := Sort(nodes, ByScore(score));
      SortPermutes(nodes, ByScore(score));
      sorted[..count]
  }

  // One node per fragment of a K+M stripe.
  function SelectEcNodes(score: Score, nodes: seq<NodeId>, dataChunks: nat, parityChunks: nat): seq<NodeId>
    requires dataChunks + parityChunks <= 255
  {
    SelectNodes(score, nodes, dataChunks + parityChunks)
  }

  function Selected(score: Score, nodes: seq<NodeId>, count: nat): set<NodeId> {
    set n | n in SelectNodes(score, nodes, count)
  }

  // ---------- Helpers ----------

  function Ranked(score: Score, nodes: seq<NodeId>): (r: seq<NodeId>)
    ensures |r| == |nodes|
  {
    SortPermutes(nodes, ByScore(score));
    Sort(nodes, ByScore(score))
  }

  lemma RankedDistinct(score: Score, nodes: seq<NodeId>)
    requires Distinct(nodes)
    ensures Distinct(Ranked(score, nodes))
  {
    SortPermutes(nodes, ByScore(score));
    DistinctCounts(nodes);
    DistinctCounts(Ranked(score, nodes));
  }

  // As a set, the selection is always the top of the ranking.
  lemma SelectedIsTop(score: Score, nodes: seq<NodeId>, count: nat)
    ensures Selected(score, nodes, count) == set n | n in Ranked(score, nodes)[..Min(count, |nodes|)]
  {
    if |nodes| <= count {
      assert Ranked(score, nodes)[..|nodes|] == Ranked(score, nodes);
      forall n ensures n in nodes <==> n in Ranked(score, nodes) {
        SameElements(nodes, ByScore(score), n);
      }
    }
  }

  // ---------- What is selected ----------

  // Of distinct nodes, exactly min(count, n) distinct ones are selected, and no
  // node left out scores below a selected one.
  lemma SelectionIsLowestScores(score: Score, nodes: seq<NodeId>, count: nat)
    requires Distinct(nodes)
    ensures var sel := SelectNodes(score, nodes, count);
            && Distinct(sel) && |sel| == Min(count, |nodes|)
            && (forall n | n in sel :: n in nodes)
            && (forall n, m | n in sel && m in nodes && m !in sel :: score(n) <= score(m))
  {
    var sel := SelectNodes(score, nodes, count);
    var ranked := Ranked(score, nodes);
    RankedDistinct(score, nodes);
    SortSorts(nodes, ByScore(score));
    forall n ensures n in ranked <==> n in nodes {
      SameElements(nodes, ByScore(score), n);
    }
    forall n, m | n in sel && m in nodes && m !in sel ensures score(n) <= score(m) {
      var i :| 0 <= i < |sel| && sel[i] == n;
      var j :| 0 <= j < |ranked| && ranked[j] == m;
      assert |nodes| > count && ranked[i] == n && i < count;
      assert forall h | 0 <= h < |sel| :: ranked[h] in sel;
      assert ByScore(score)(ranked[i], ranked[j]);
    }
  }

  function SameScore(score: Score, x: nat): NodeId -> bool {
    (n: NodeId) => score(n) == x
  }

  // If all nodes are wanted they come as listed; otherwise by rising score, nodes of
  // one score as listed.
  lemma SelectionSequence(score: Score, nodes: seq<NodeId>, count: nat)
    ensures |nodes| <= count ==> SelectNodes(score, nodes, count) == nodes
    ensures |nodes| > count ==>
            var sel := SelectNodes(score, nodes, count);
            && sel == Ranked(score, nodes)[..count]
            && (forall i, j | 0 <= i < j < |sel| :: score(sel[i]) <= score(sel[j]))
            && (forall x :: Filter(SameScore(score, x), Ranked(score, nodes)) == Filter(SameScore(score, x), nodes))
  {
    if |nodes| > count {
      var ranked := Ranked(score, nodes);
      SortSorts(nodes, ByScore(score));
      forall i, j | 0 <= i < j < |ranked| ensures score(ranked[i]) <= score(ranked[j]) {
        assert ByScore(score)(ranked[i], ranked[j]);
      }
      forall x ensures Filter(SameScore(score, x), ranked) == Filter(SameScore(score, x), nodes) {
        SortIsStable(SameScore(score, x), nodes, ByScore(score));
      }
    }
  }

  // A K+M stripe gets K+M different nodes whenever that many are available.
  lemma StripeGetsDistinctNodes(score: Score, nodes: seq<NodeId>, k: nat, m: nat)
    requires Distinct(nodes) && k + m <= 255 && k + m <= |nodes|
    ensures Distinct(SelectEcNodes(score, nodes, k, m)) && |SelectEcNodes(score, nodes, k, m)| == k + m
  {
    SelectionIsLowestScores(score, nodes, k + m);
  }

  // ---------- Stability under membership change ----------

  lemma RankedWithout(score: Score, nodes: seq<NodeId>, p: nat)
    requires Distinct(nodes) && p < |nodes|
    ensures var ranked := Ranked(score, nodes);
            Ranked(score, Without(nodes, ranked[p])) == ranked[..p] + ranked[p + 1..]
  {
    var ranked := Ranked(score, nodes);
    RankedDistinct(score, nodes);
    FilterSort(OtherThan(ranked[p]), nodes, ByScore(score));
    WithoutAt(ranked, p);
  }

  lemma RankOf(score: Score, nodes: seq<NodeId>, z: NodeId) returns (p: nat)
    requires z in nodes
    ensures p < |nodes| && Ranked(score, nodes)[p] == z
  {
    SameElements(nodes, ByScore(score), z);
    var ranked := Ranked(score, nodes);
    p :| p < |ranked| && ranked[p] == z;
  }

  // Losing a node that was not selected changes nothing.
  lemma LosingUnselected(score: Score, nodes: seq<NodeId>, count: nat, z: NodeId)
    requires Distinct(nodes) && z in nodes && z !in Selected(score, nodes, count)
    ensures Selected(score, Without(nodes, z), count) == Selected(score, nodes, count)
  {
    var ranked := Ranked(score, nodes);
    var p := RankOf(score, nodes, z);
    SelectedIsTop(score, nodes, count);
    SelectedIsTop(score, Without(nodes, z), count);
    RankedWithout(score, nodes, p);
    var less := Without(nodes, z);
    assert |Ranked(score, less)| == |less|;
    assert forall i | 0 <= i < Min(count, |nodes|) :: ranked[i] in ranked[..Min(count, |nodes|)];
    assert Ranked(score, less)[..Min(count, |less|)] == ranked[..count];
  }

  lemma PrefixWithout(ranked: seq<NodeId>, top: nat, p: nat, n: NodeId)
    requires Distinct(ranked) && p < top <= |ranked|
    ensures n in ranked[..p] + ranked[p + 1..top] <==> n in ranked[..top] && n != ranked[p]
  {
    var kept := ranked[..p] + ranked[p + 1..top];
    if n in ranked[..top] && n != ranked[p] {
      var i :| 0 <= i < top && ranked[i] == n;
      assert kept[if i < p then i else i - 1] == n;
    }
  }

  lemma TopWithout(score: Score, nodes: seq<NodeId>, count: nat, p: nat)
    requires Distinct(nodes) && p < Min(count, |nodes|)
    ensures var ranked := Ranked(score, nodes);
            var less := Without(nodes, ranked[p]);
            Ranked(score, less)[..Min(count, |less|)]
            == (ranked[..p] + ranked[p + 1..Min(count, |nodes|)])
               + (if count < |nodes| then [ranked[count]] else [])
  {
    RankedWithout(score, nodes, p);
    var ranked := Ranked(score, nodes);
    assert |Ranked(score, Without(nodes, ranked[p]))| == |nodes| - 1;
  }

  lemma AfterLosing(score: Score, nodes: seq<NodeId>, count: nat, p: nat, n: NodeId)
    requires Distinct(nodes) && p < Min(count, |nodes|)
    ensures var ranked := Ranked(score, nodes);
            n in Selected(score, Without(nodes, ranked[p]), count) <==>
            || (n in Selected(score, nodes, count) && n != ranked[p])
            || (count < |nodes| && n == ranked[count])
  {
    var ranked, top := Ranked(score, nodes), Min(count, |nodes|);
    SelectedIsTop(score, nodes, count);
    SelectedIsTop(score, Without(nodes, ranked[p]), count);
    RankedDistinct(score, nodes);
    TopWithout(score, nodes, count, p);
    PrefixWithout(ranked, top, p, n);
  }

  // Losing a selected node replaces that node only, by the next in rank, and by
  // none when every node was selected.
  lemma LosingSelected(score: Score, nodes: seq<NodeId>, count: nat, z: NodeId)
    requires Distinct(nodes) && z in Selected(score, nodes, count)
    ensures Selected(score, Without(nodes, z), count)
         == (Selected(score, nodes, count) - {z})
            + (if count < |nodes| then {Ranked(score, nodes)[count]} else {})
    ensures count < |nodes| ==> Ranked(score, nodes)[count] !in Selected(score, nodes, count)
  {
    var ranked, top := Ranked(score, nodes), Min(count, |nodes|);
    SelectedIsTop(score, nodes, count);
    RankedDistinct(score, nodes);
    var p: nat :| p < top && ranked[..top][p] == z;
    forall n
      ensures n in Selected(score, Without(nodes, z), count) <==>
              || (n in Selected(score, nodes, count) && n != z)
              || (count < |nodes| && n == ranked[count])
    {
      AfterLosing(score, nodes, count, p, n);
    }
  }

  // A node joining, wherever it is listed, displaces at most one node, and only
  // if it is itself selected.
  lemma JoiningDisplacesAtMostOne(score: Score, nodes: seq<NodeId>, count: nat, z: NodeId)
    requires Distinct(nodes) && z in nodes
    ensures var before := Selected(score, Without(nodes, z), count);
            var after := Selected(score, nodes, count);
            && after <= before + {z}
            && |before - after| <= 1
            && (z !in after ==> after == before)
  {
    var before := Selected(score, Without(nodes, z), count);
    var after := Selected(score, nodes, count);
    if z !in after {
      LosingUnselected(score, nodes, count, z);
      assert before - after == {};
    } else {
      LosingSelected(score, nodes, count, z);
      if count < |nodes| {
        assert before - after == {Ranked(score, nodes)[count]};
      } else {
        assert before - after == {};
      }
    }
  }
}
