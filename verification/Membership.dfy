/** A node's view of the cluster membership and how updates are merged into it. */
module Membership {
  import opened Base
  import opened StableSort

  type Addr = nat

  datatype MemberState = Alive | Suspect | Dead

  datatype Update = Update(nodeId: NodeId, addr: Addr, state: MemberState, incarnation: nat)

  datatype Member = Member(nodeId: NodeId, addr: Addr, state: MemberState, incarnation: nat, stateChange: nat) {
    function ToUpdate(): Update {
      Update(nodeId, addr, state, incarnation)
    }
  }

  datatype View = View(local: NodeId, members: map<NodeId, Member>, incarnation: nat)

  function NewView(local: NodeId, addr: Addr, now: nat): View {
    View(local, map[local := Member(local, addr, Alive, 0, now)], 0)
  }

  // Higher priority wins on equal incarnation.
  function Priority(state: MemberState): nat {
    match state
    case Alive => 0
    case Suspect => 1
    case Dead => 2
  }

  predicate ShouldOverride(existing: Member, u: Update) {
    if u.incarnation > existing.incarnation then true
    else if u.incarnation < existing.incarnation then false
    else Priority(u.state) > Priority(existing.state)
  }

  // Merge one update; the flag tells whether the member's state changed.
  function Merge(v: View, u: Update, now: nat): (View, bool) {
    if u.nodeId == v.local then
      (if u.state.Alive? then v else v.(incarnation := v.incarnation + 1), false)
    else if u.nodeId in v.members && !ShouldOverride(v.members[u.nodeId], u) then (v, false)
    else
      var changed := u.nodeId !in v.members || v.members[u.nodeId].state != u.state;
      (v.(members := v.members[u.nodeId := Member(u.nodeId, u.addr, u.state, u.incarnation, now)]), changed)
  }

  function MergeAll(v: View, us: seq<Update>, now: nat): View {
    if us == [] then v else Merge(MergeAll(v, us[..|us| - 1], now), us[|us| - 1], now).0
  }

  function MarkSuspect(v: View, node: NodeId, now: nat): (View, bool) {
    if node in v.members && v.members[node].state.Alive?
    then (v.(members := v.members[node := v.members[node].(state := Suspect, stateChange := now)]), true)
    else (v, false)
  }

  function MarkDead(v: View, node: NodeId, now: nat): (View, bool) {
    if node in v.members && !v.members[node].state.Dead?
    then (v.(members := v.members[node := v.members[node].(state := Dead, stateChange := now)]), true)
    else (v, false)
  }

  // ---------- Piggybacked updates ----------

  // Some order in which the members are listed.
  ghost predicate IsListing(listing: seq<NodeId>, v: View) {
    Distinct(listing) && forall n :: n in listing <==> n in v.members
  }

  function NewestFirst(): (Update, Update) -> bool {
    (a: Update, b: Update) => a.incarnation >= b.incarnation
  }

  function Updates(v: View, listing: seq<NodeId>): (us: seq<Update>)
    requires forall n | n in listing :: n in v.members
    ensures |us| == |listing|
  {
    seq(|listing|, i requires 0 <= i < |listing| => v.members[listing[i]].ToUpdate())
  }

  // At most max updates, those of the highest incarnations first.
  function RecentUpdates(v: View, listing: seq<NodeId>, max: nat): seq<Update>
    requires forall n | n in listing :: n in v.members
  {
    var sorted := Sort(Updates(v, listing), NewestFirst());
    sorted[..Min(max, |sorted|)]
  }

  // ---------- The member list object ----------

  class MemberList {
    const local: NodeId
    var members: map<NodeId, Member>
    var incarnation: nat

    function Value(): View
      reads this
    {
      View(local, members, incarnation)
    }

    constructor (local: NodeId, addr: Addr, now: nat)
      ensures Value() == NewView(local, addr, now)
    {
      this.local := local;
      members := map[local := Member(local, addr, Alive, 0, now)];
      incarnation := 0;
    }

    method ApplyUpdate(u: Update, now: nat) returns (changed: bool)
      modifies this
      ensures (Value(), changed) == Merge(old(Value()), u, now)
    {
      if u.nodeId == local {
        changed := HandleLocalUpdate(u);
        return;
      }
      if u.nodeId in members && !ShouldOverride(members[u.nodeId], u) {
        return false;
      }
      changed := u.nodeId !in members || members[u.nodeId].state != u.state;
      members := members[u.nodeId := Member(u.nodeId, u.addr, u.state, u.incarnation, now)];
    }

    method HandleLocalUpdate(u: Update) returns (changed: bool)
      modifies this`incarnation
      ensures !changed
      ensures incarnation == if u.state.Alive? then old(incarnation) else old(incarnation) + 1
    {
      if !u.state.Alive? {
        incarnation := incarnation + 1;
      }
      changed := false;
    }

    method ApplyUpdates(us: seq<Update>, now: nat)
      modifies this
      ensures Value() == MergeAll(old(Value()), us, now)
    {
      for i := 0 to |us|
        invariant Value() == MergeAll(old(Value()), us[..i], now)
      {
        assert us[..i + 1][..i] == us[..i];
        var _ := ApplyUpdate(us[i], now);
      }
      assert us[..|us|] == us;
    }

    method MarkMemberSuspect(node: NodeId, now: nat) returns (marked: bool)
      modifies this`members
      ensures (Value(), marked) == MarkSuspect(old(Value()), node, now)
    {
      if node in members && members[node].state.Alive? {
        members := members[node := members[node].(state := Suspect, stateChange := now)];
        return true;
      }
      marked := false;
    }

    method MarkMemberDead(node: NodeId, now: nat) returns (marked: bool)
      modifies this`members
      ensures (Value(), marked) == MarkDead(old(Value()), node, now)
    {
      if node in members && !members[node].state.Dead? {
        members := members[node := members[node].(state := Dead, stateChange := now)];
        return true;
      }
      marked := false;
    }
  }

  // ---------- The merge law ----------

  // Incarnation first, then state, as one number.
  function Level(state: MemberState, incarnation: nat): nat {
    3 * incarnation + Priority(state)
  }

  // What a view holds about a member, -1 standing for nothing.
  function Held(v: View, x: NodeId): int {
    if x in v.members then Level(v.members[x].state, v.members[x].incarnation) else -1
  }

  // The highest level the updates report for x.
  function Highest(us: seq<Update>, x: NodeId): int {
    if us == [] then -1
    else
      var rest := Highest(us[..|us| - 1], x);
      var last := us[|us| - 1];
      if last.nodeId == x && Level(last.state, last.incarnation) > rest
      then Level(last.state, last.incarnation)
      else rest
  }

  lemma LevelDecides(s: MemberState, i: nat, t: MemberState, j: nat)
    ensures Level(s, i) == Level(t, j) <==> s == t && i == j
    ensures Level(s, i) > Level(t, j) <==> i > j || (i == j && Priority(s) > Priority(t))
  {
  }

  lemma MergeIsMax(v: View, u: Update, now: nat, x: NodeId)
    requires x != v.local
    ensures Merge(v, u, now).0.local == v.local
    ensures Held(Merge(v, u, now).0, x)
         == if u.nodeId == x && Level(u.state, u.incarnation) > Held(v, x) then Level(u.state, u.incarnation)
            else Held(v, x)
  {
    if u.nodeId == x && x in v.members {
      LevelDecides(u.state, u.incarnation, v.members[x].state, v.members[x].incarnation);
    }
  }

  // For every other member, a view ends up with the highest of what it held and
  // of everything received.
  lemma {:induction false} MergeLaw(v: View, us: seq<Update>, now: nat, x: NodeId)
    requires x != v.local
    ensures MergeAll(v, us, now).local == v.local
    ensures Held(MergeAll(v, us, now), x)
         == if Highest(us, x) > Held(v, x) then Highest(us, x) else Held(v, x)
    decreases |us|
  {
    if us != [] {
      MergeLaw(v, us[..|us| - 1], now, x);
      MergeIsMax(MergeAll(v, us[..|us| - 1], now), us[|us| - 1], now, x);
    }
  }

  lemma {:induction false} HighestBounds(us: seq<Update>, x: NodeId)
    ensures forall u | u in us && u.nodeId == x :: Level(u.state, u.incarnation) <= Highest(us, x)
    ensures Highest(us, x) != -1 ==>
            exists u :: u in us && u.nodeId == x && Level(u.state, u.incarnation) == Highest(us, x)
    ensures Highest(us, x) >= -1
    decreases |us|
  {
    if us != [] {
      var front, last := us[..|us| - 1], us[|us| - 1];
      HighestBounds(front, x);
      assert us == front + [last];
      if Highest(us, x) != -1 {
        if Highest(us, x) == Highest(front, x) {
          var u :| u in front && u.nodeId == x && Level(u.state, u.incarnation) == Highest(front, x);
          assert u in us;
        } else {
          assert last in us;
        }
      }
    }
  }

  lemma HighestIgnoresOrder(us: seq<Update>, ws: seq<Update>, x: NodeId)
    requires forall u :: u in us <==> u in ws
    ensures Highest(us, x) == Highest(ws, x)
  {
    HighestBounds(us, x);
    HighestBounds(ws, x);
  }

  lemma {:induction false} MergeInBatches(v: View, us: seq<Update>, ws: seq<Update>, now: nat)
    ensures MergeAll(v, us + ws, now) == MergeAll(MergeAll(v, us, now), ws, now)
    decreases |ws|
  {
    if ws == [] {
      assert us + ws == us;
    } else {
      assert (us + ws)[..|us + ws| - 1] == us + ws[..|ws| - 1];
      MergeInBatches(v, us, ws[..|ws| - 1], now);
    }
  }

  // Two views that hold the same level hold the same state and incarnation.
  ghost predicate Agree(v: View, w: View, x: NodeId) {
    (x in v.members <==> x in w.members)
    && (x in v.members ==>
          v.members[x].state == w.members[x].state && v.members[x].incarnation == w.members[x].incarnation)
  }

  lemma SameLevelAgrees(v: View, w: View, x: NodeId)
    ensures Held(v, x) == Held(w, x) <==> Agree(v, w, x)
  {
    if x in v.members && x in w.members {
      LevelDecides(v.members[x].state, v.members[x].incarnation, w.members[x].state, w.members[x].incarnation);
    }
  }

  // Order, repetition and batching of the received updates do not matter.
  lemma OrderIsIrrelevant(v: View, us: seq<Update>, ws: seq<Update>, now: nat, later: nat, x: NodeId)
    requires forall u :: u in us <==> u in ws
    requires x != v.local
    ensures Agree(MergeAll(v, us, now), MergeAll(v, ws, later), x)
  {
    MergeLaw(v, us, now, x);
    MergeLaw(v, ws, later, x);
    HighestIgnoresOrder(us, ws, x);
    SameLevelAgrees(MergeAll(v, us, now), MergeAll(v, ws, later), x);
  }

  // ---------- Records, flags and claims against oneself ----------

  // The record held afterwards comes whole from one of the highest updates, under
  // the time of the merge, or is the one held before.
  lemma {:induction false} MergedRecord(v: View, us: seq<Update>, now: nat, x: NodeId)
    requires x != v.local
    ensures var w := MergeAll(v, us, now);
            if Highest(us, x) > Held(v, x) then
              exists u :: u in us && u.nodeId == x && Level(u.state, u.incarnation) == Highest(us, x)
                          && x in w.members && w.members[x] == Member(x, u.addr, u.state, u.incarnation, now)
            else (x in w.members <==> x in v.members) && (x in v.members ==> w.members[x] == v.members[x])
    decreases |us|
  {
    if us != [] {
      var front, last := us[..|us| - 1], us[|us| - 1];
      MergedRecord(v, front, now, x);
      MergeLaw(v, front, now, x);
      MergeIsMax(MergeAll(v, front, now), last, now, x);
      MergeLaw(v, us, now, x);
      assert last in us && forall u | u in front :: u in us;
    }
  }

  // A merge says that something changed exactly if another member became known or
  // changed its state.
  lemma MergeFlagIff(v: View, u: Update, now: nat)
    ensures var (w, changed) := Merge(v, u, now);
            changed <==>
            && u.nodeId != v.local && u.nodeId in w.members
            && (u.nodeId !in v.members || v.members[u.nodeId].state != w.members[u.nodeId].state)
  {
  }

  // How many of the updates hold x to be suspect or dead.
  function Claims(us: seq<Update>, x: NodeId): nat {
    if us == [] then 0
    else
      Claims(us[..|us| - 1], x) + (if us[|us| - 1].nodeId == x && !us[|us| - 1].state.Alive? then 1 else 0)
  }

  // Claims against oneself raise the counter by one each and never touch one's own
  // record.
  lemma {:induction false} ClaimsRaiseCounter(v: View, us: seq<Update>, now: nat)
    ensures var w := MergeAll(v, us, now);
            && w.local == v.local
            && w.incarnation == v.incarnation + Claims(us, v.local)
            && (v.local in w.members <==> v.local in v.members)
            && (v.local in v.members ==> w.members[v.local] == v.members[v.local])
    decreases |us|
  {
    if us != [] {
      ClaimsRaiseCounter(v, us[..|us| - 1], now);
    }
  }

  // Marking as suspect works on the alive, marking as dead on all but the dead; it
  // notes the time and says whether it did anything.
  lemma MarksOutcome(v: View, node: NodeId, now: nat)
    ensures var (w, marked) := MarkSuspect(v, node, now);
            && (marked <==> node in v.members && v.members[node].state.Alive?)
            && w.local == v.local && w.incarnation == v.incarnation
            && w.members == if marked then v.members[node := v.members[node].(state := Suspect, stateChange := now)]
                            else v.members
    ensures var (w, marked) := MarkDead(v, node, now);
            && (marked <==> node in v.members && !v.members[node].state.Dead?)
            && w.local == v.local && w.incarnation == v.incarnation
            && w.members == if marked then v.members[node := v.members[node].(state := Dead, stateChange := now)]
                            else v.members
  {
  }

  // A message carries as many records as there are, up to the limit, and none that is
  // left out is of a higher incarnation than one that is sent.
  lemma RecentAreNewest(v: View, listing: seq<NodeId>, max: nat) returns (rest: seq<Update>)
    requires IsListing(listing, v)
    ensures var sent := RecentUpdates(v, listing, max);
            && |sent| == Min(max, |listing|)
            && multiset(sent) + multiset(rest) == multiset(Updates(v, listing))
            && forall u, w | u in sent && w in rest :: u.incarnation >= w.incarnation
  {
    var us := Updates(v, listing);
    var sorted := Sort(us, NewestFirst());
    SortPermutes(us, NewestFirst());
    SortSorts(us, NewestFirst());
    var cut := Min(max, |sorted|);
    rest := sorted[cut..];
    assert sorted == sorted[..cut] + rest;
    forall u, w | u in sorted[..cut] && w in rest ensures u.incarnation >= w.incarnation {
      NewerComesFirst(sorted, cut, u, w);
    }
  }

  lemma NewerComesFirst(sorted: seq<Update>, cut: nat, u: Update, w: Update)
    requires Sorted(sorted, NewestFirst()) && cut <= |sorted| && u in sorted[..cut] && w in sorted[cut..]
    ensures u.incarnation >= w.incarnation
  {
    var i :| 0 <= i < cut && sorted[i] == u;
    var j :| cut <= j < |sorted| && sorted[j] == w;
    assert NewestFirst()(sorted[i], sorted[j]);
  }

  // ---------- Exchanging whole views ----------

  ghost predicate Consistent(v: View) {
    forall n | n in v.members :: v.members[n].nodeId == n
  }

  lemma UpdatesTellAll(v: View, listing: seq<NodeId>, x: NodeId)
    requires Consistent(v) && IsListing(listing, v)
    ensures Highest(Updates(v, listing), x) == Held(v, x)
  {
    var us := Updates(v, listing);
    HighestBounds(us, x);
    if x in v.members {
      var i :| 0 <= i < |listing| && listing[i] == x;
      assert us[i] in us && us[i] == v.members[x].ToUpdate();
    }
    forall u | u in us && u.nodeId == x
      ensures x in v.members && Level(u.state, u.incarnation) == Held(v, x)
    {
      var i :| 0 <= i < |us| && us[i] == u;
      assert listing[i] in v.members;
    }
  }

  // A view small enough to fit is sent whole.
  lemma WholeViewSent(v: View, listing: seq<NodeId>, max: nat, x: NodeId)
    requires Consistent(v) && IsListing(listing, v) && |listing| <= max
    ensures Highest(RecentUpdates(v, listing, max), x) == Held(v, x)
  {
    var us := Updates(v, listing);
    var sorted := Sort(us, NewestFirst());
    SortPermutes(us, NewestFirst());
    assert RecentUpdates(v, listing, max) == sorted;
    forall u ensures u in sorted <==> u in us {
      SameElements(us, NewestFirst(), u);
    }
    HighestIgnoresOrder(sorted, us, x);
    UpdatesTellAll(v, listing, x);
  }

  // Two nodes that send each other their whole views agree on every third node,
  // on the higher of what they held.
  lemma SwapAgrees(a: View, b: View, listA: seq<NodeId>, listB: seq<NodeId>, max: nat, now: nat, x: NodeId)
    requires Consistent(a) && IsListing(listA, a) && |listA| <= max
    requires Consistent(b) && IsListing(listB, b) && |listB| <= max
    requires x != a.local && x != b.local
    ensures var a' := MergeAll(a, RecentUpdates(b, listB, max), now);
            var b' := MergeAll(b, RecentUpdates(a, listA, max), now);
            Agree(a', b', x) && Held(a', x) == if Held(a, x) > Held(b, x) then Held(a, x) else Held(b, x)
  {
    WholeViewSent(a, listA, max, x);
    WholeViewSent(b, listB, max, x);
    MergeLaw(a, RecentUpdates(b, listB, max), now, x);
    MergeLaw(b, RecentUpdates(a, listA, max), now, x);
    SameLevelAgrees(MergeAll(a, RecentUpdates(b, listB, max), now),
                    MergeAll(b, RecentUpdates(a, listA, max), now), x);
  }

  lemma {:induction false} MergeKeepsConsistent(v: View, us: seq<Update>, now: nat)
    requires Consistent(v)
    ensures Consistent(MergeAll(v, us, now))
    decreases |us|
  {
    if us != [] {
      MergeKeepsConsistent(v, us[..|us| - 1], now);
    }
  }

  // The same for a ping answered by an ack: the answer is sent after merging the
  // ping, so the merged view must still fit.
  lemma PingAckAgrees(a: View, b: View, listA: seq<NodeId>, listB: seq<NodeId>, max: nat, now: nat, x: NodeId)
    requires Consistent(a) && IsListing(listA, a) && |listA| <= max
    requires Consistent(b)
    requires IsListing(listB, MergeAll(b, RecentUpdates(a, listA, max), now)) && |listB| <= max
    requires x != a.local && x != b.local
    ensures var b' := MergeAll(b, RecentUpdates(a, listA, max), now);
            var a' := MergeAll(a, RecentUpdates(b', listB, max), now);
            Agree(a', b', x) && Held(a', x) == if Held(a, x) > Held(b, x) then Held(a, x) else Held(b, x)
  {
    var b' := MergeAll(b, RecentUpdates(a, listA, max), now);
    MergeKeepsConsistent(b, RecentUpdates(a, listA, max), now);
    WholeViewSent(a, listA, max, x);
    MergeLaw(b, RecentUpdates(a, listA, max), now, x);
    WholeViewSent(b', listB, max, x);
    MergeLaw(a, RecentUpdates(b', listB, max), now, x);
    SameLevelAgrees(MergeAll(a, RecentUpdates(b', listB, max), now), b', x);
  }
}
