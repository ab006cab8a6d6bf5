/** Safety of the whole gossip system, over every run. */
module SwimRuns {
  import opened Base
  import opened Membership
  import opened StableSort
  import opened Swim

  // A probe cycle that a node has started and not ended.
  datatype Cycle = Cycle(id: NodeId, seqNo: nat, target: NodeId)

  // `sent` holds every message ever sent. A message may reach any node, any
  // number of times, in any order, or never.
  datatype System = System(nodes: map<NodeId, Node>, sent: set<Message>, cycles: set<Cycle>)

  // Booting a node that is already there restarts it with nothing remembered.
  datatype Step =
    | Boot(id: NodeId, addr: Addr, now: nat)
    | StartProbing(id: NodeId, target: NodeId, listing: seq<NodeId>)
    | AskForRelay(id: NodeId, seqNo: nat, target: NodeId, targetAddr: Addr, listing: seq<NodeId>)
    | EndProbing(id: NodeId, seqNo: nat, target: NodeId, ackSeen: bool, now: nat)
    | Deliver(id: NodeId, msg: Message, listing: seq<NodeId>, now: nat)
    | ReapDead(id: NodeId, now: nat, timeout: nat)
    | JoinSeeds(id: NodeId)

  ghost predicate CanHappen(s: System, step: Step) {
    if step.Boot? then true
    else
      && step.id in s.nodes
      && match step
         case Boot(_, _, _) => true
         case StartProbing(id, target, listing) =>
           ProbeTarget(s.nodes[id].view, target) && Lists(listing, s.nodes[id])
         case AskForRelay(id, seqNo, target, _, listing) =>
           && Cycle(id, seqNo, target) in s.cycles
           && Lists(listing, s.nodes[id]) && exists relay :: RelayCandidate(s.nodes[id].view, relay, target)
         case EndProbing(id, seqNo, target, ackSeen, _) =>
           Cycle(id, seqNo, target) in s.cycles && (ackSeen ==> seqNo !in s.nodes[id].pending)
         case Deliver(id, msg, listing, now) => msg in s.sent && Lists(listing, TakeIn(s.nodes[id], msg, now))
         case ReapDead(_, _, _) => true
         case JoinSeeds(_) => true
  }

  function Put(s: System, id: NodeId, n: Node, out: set<Message>): System {
    s.(nodes := s.nodes[id := n], sent := s.sent + out)
  }

  function Next(s: System, step: Step): System
    requires CanHappen(s, step)
  {
    match step
    case Boot(id, addr, now) =>
      Put(s, id, NewNode(id, addr, now), {}).(cycles := set c | c in s.cycles && c.id != id)
    case StartProbing(id, target, listing) =>
      var (n, ping) := StartProbe(s.nodes[id], target, listing);
      Put(s, id, n, {ping}).(cycles := s.cycles + {Cycle(id, n.lastSeq, target)})
    case AskForRelay(id, seqNo, target, targetAddr, listing) =>
      var (n, pingReq) := AskRelays(s.nodes[id], seqNo, target, targetAddr, listing);
      Put(s, id, n, {pingReq})
    case EndProbing(id, seqNo, target, ackSeen, now) =>
      var n := EndProbe(s.nodes[id], seqNo, target, ackSeen, now);
      Put(s, id, n, {}).(cycles := s.cycles - {Cycle(id, seqNo, target)})
    case Deliver(id, msg, listing, now) =>
      var n := TakeIn(s.nodes[id], msg, now);
      var reply := Reply(n, msg, listing);
      Put(s, id, n, if reply.Some? then {reply.value.0} else {})
    case ReapDead(id, now, timeout) =>
      Put(s, id, s.nodes[id].(view := Reap(s.nodes[id].view, now, timeout)), {})
    case JoinSeeds(id) => Put(s, id, s.nodes[id], {Join(id, s.nodes[id].addr)})
  }

  // ---------- What holds of every node and every message ----------

  // A view whose own record is untouched and in which no incarnation has risen.
  ghost predicate Unrefuted(v: View) {
    && Consistent(v)
    && v.local in v.members && v.members[v.local].state.Alive?
    && (forall x | x in v.members :: v.members[x].incarnation == 0)
  }

  ghost predicate NodeSafe(id: NodeId, n: Node) {
    n.view.local == id && Unrefuted(n.view) && forall q | q in n.pending :: q <= n.lastSeq
  }

  ghost predicate ZeroUpdates(us: seq<Update>) {
    forall u | u in us :: u.incarnation == 0
  }

  // Only these messages are ever sent, and they carry incarnation zero.
  ghost predicate MessageSafe(msg: Message) {
    (msg.Ping? || msg.PingReq? || msg.Ack? || msg.Join?) && ZeroUpdates(msg.Piggybacked())
  }

  ghost predicate Safe(s: System) {
    && (forall id | id in s.nodes :: NodeSafe(id, s.nodes[id]))
    && (forall msg | msg in s.sent :: MessageSafe(msg))
    && (forall c | c in s.cycles :: c.target != c.id)
  }

  // w knows at least as much about every other member, and the same about itself.
  ghost predicate Rises(v: View, w: View) {
    && v.local == w.local
    && (forall x | x != v.local :: Held(v, x) <= Held(w, x))
    && Held(v, v.local) == Held(w, v.local)
  }

  // ---------- One node ----------

  lemma MergeSafe(v: View, u: Update, now: nat)
    requires Unrefuted(v) && u.incarnation == 0
    ensures Unrefuted(Merge(v, u, now).0) && Rises(v, Merge(v, u, now).0)
  {
    forall x | x != v.local ensures Held(v, x) <= Held(Merge(v, u, now).0, x) {
      MergeIsMax(v, u, now, x);
    }
  }

  lemma RisesFurther(u: View, v: View, w: View)
    requires Rises(u, v) && Rises(v, w)
    ensures Rises(u, w)
  {
    forall x | x != u.local ensures Held(u, x) <= Held(w, x) {
      assert Held(u, x) <= Held(v, x) <= Held(w, x);
    }
  }

  lemma {:induction false} MergeAllSafe(v: View, us: seq<Update>, now: nat)
    requires Unrefuted(v) && ZeroUpdates(us)
    ensures Unrefuted(MergeAll(v, us, now)) && Rises(v, MergeAll(v, us, now))
    decreases |us|
  {
    if us != [] {
      var front := us[..|us| - 1];
      assert forall u | u in front :: u in us;
      MergeAllSafe(v, front, now);
      MergeSafe(MergeAll(v, front, now), us[|us| - 1], now);
      RisesFurther(v, MergeAll(v, front, now), MergeAll(v, us, now));
    }
  }

  lemma TakeInSafe(id: NodeId, n: Node, msg: Message, now: nat)
    requires NodeSafe(id, n) && MessageSafe(msg)
    ensures NodeSafe(id, TakeIn(n, msg, now)) && Rises(n.view, TakeIn(n, msg, now).view)
  {
    var merged := MergeAll(n.view, msg.Piggybacked(), now);
    MergeAllSafe(n.view, msg.Piggybacked(), now);
    if Announced(msg).Some? {
      MergeSafe(merged, Announced(msg).value, now);
      RisesFurther(n.view, merged, TakeIn(n, msg, now).view);
    }
  }

  lemma PiggybackSafe(n: Node, listing: seq<NodeId>)
    requires Unrefuted(n.view) && forall x | x in listing :: x in n.view.members
    ensures ZeroUpdates(Piggyback(n, listing))
  {
    var us := Updates(n.view, listing);
    var sorted := Sort(us, NewestFirst());
    forall u | u in Piggyback(n, listing) ensures u.incarnation == 0 {
      assert u in sorted;
      SameElements(us, NewestFirst(), u);
    }
  }

  lemma EndProbeSafe(id: NodeId, n: Node, seqNo: nat, target: NodeId, ackSeen: bool, now: nat)
    requires NodeSafe(id, n) && target != id
    ensures var m := EndProbe(n, seqNo, target, ackSeen, now); NodeSafe(id, m) && Rises(n.view, m.view)
  {
  }

  lemma ReapSafe(v: View, now: nat, timeout: nat)
    requires Unrefuted(v)
    ensures Unrefuted(Reap(v, now, timeout)) && Rises(v, Reap(v, now, timeout))
  {
  }

  // ---------- One step of the system ----------

  lemma PutSafe(s: System, id: NodeId, n: Node, out: set<Message>)
    requires Safe(s) && NodeSafe(id, n) && forall msg | msg in out :: MessageSafe(msg)
    ensures Safe(Put(s, id, n, out))
  {
  }

  predicate Restarts(step: Step, id: NodeId) {
    step.Boot? && step.id == id
  }

  // Every node stays, and unless it is restarted its view rises.
  ghost predicate ViewsRise(s: System, step: Step, t: System) {
    forall id | id in s.nodes ::
      id in t.nodes && (!Restarts(step, id) ==> Rises(s.nodes[id].view, t.nodes[id].view))
  }

  lemma DeliverSafe(s: System, step: Step)
    requires Safe(s) && step.Deliver? && CanHappen(s, step)
    ensures Safe(Next(s, step)) && ViewsRise(s, step, Next(s, step))
  {
    var id := step.id;
    var n := TakeIn(s.nodes[id], step.msg, step.now);
    TakeInSafe(id, s.nodes[id], step.msg, step.now);
    PiggybackSafe(n, step.listing);
    var reply := Reply(n, step.msg, step.listing);
    PutSafe(s, id, n, if reply.Some? then {reply.value.0} else {});
  }

  lemma StartProbingSafe(s: System, step: Step)
    requires Safe(s) && step.StartProbing? && CanHappen(s, step)
    ensures Safe(Next(s, step)) && ViewsRise(s, step, Next(s, step))
  {
    var (n, ping) := StartProbe(s.nodes[step.id], step.target, step.listing);
    PiggybackSafe(s.nodes[step.id], step.listing);
    PutSafe(s, step.id, n, {ping});
  }

  lemma AskForRelaySafe(s: System, step: Step)
    requires Safe(s) && step.AskForRelay? && CanHappen(s, step)
    ensures Safe(Next(s, step)) && ViewsRise(s, step, Next(s, step))
  {
    var n := s.nodes[step.id];
    var (m, pingReq) := AskRelays(n, step.seqNo, step.target, step.targetAddr, step.listing);
    PiggybackSafe(n, step.listing);
    PutSafe(s, step.id, m, {pingReq});
  }

  lemma EndProbingSafe(s: System, step: Step)
    requires Safe(s) && step.EndProbing? && CanHappen(s, step)
    ensures Safe(Next(s, step)) && ViewsRise(s, step, Next(s, step))
  {
    var n := s.nodes[step.id];
    EndProbeSafe(step.id, n, step.seqNo, step.target, step.ackSeen, step.now);
    PutSafe(s, step.id, EndProbe(n, step.seqNo, step.target, step.ackSeen, step.now), {});
  }

  lemma StepSafe(s: System, step: Step)
    requires Safe(s) && CanHappen(s, step)
    ensures Safe(Next(s, step)) && ViewsRise(s, step, Next(s, step))
  {
    match step
    case Boot(id, addr, now) => PutSafe(s, id, NewNode(id, addr, now), {});
    case StartProbing(_, _, _) => StartProbingSafe(s, step);
    case AskForRelay(_, _, _, _, _) => AskForRelaySafe(s, step);
    case EndProbing(_, _, _, _, _) => EndProbingSafe(s, step);
    case Deliver(_, _, _, _) => DeliverSafe(s, step);
    case ReapDead(id, now, timeout) =>
      ReapSafe(s.nodes[id].view, now, timeout);
      PutSafe(s, id, s.nodes[id].(view := Reap(s.nodes[id].view, now, timeout)), {});
    case JoinSeeds(id) => PutSafe(s, id, s.nodes[id], {Join(id, s.nodes[id].addr)});
  }

  // ---------- Runs ----------

  ghost predicate Follows(s: System, step: Step, t: System) {
    CanHappen(s, step) && t == Next(s, step)
  }

  ghost predicate IsRun(states: seq<System>, steps: seq<Step>) {
    && |states| == |steps| + 1
    && states[0] == System(map[], {}, {})
    && forall i | 0 <= i < |steps| :: Follows(states[i], steps[i], states[i + 1])
  }

  lemma {:induction false} EveryRunIsSafe(states: seq<System>, steps: seq<Step>, i: nat)
    requires IsRun(states, steps) && i <= |steps|
    ensures Safe(states[i])
  {
    if i > 0 {
      EveryRunIsSafe(states, steps, i - 1);
      assert Follows(states[i - 1], steps[i - 1], states[i]);
      StepSafe(states[i - 1], steps[i - 1]);
    }
  }

  lemma RunStepRises(states: seq<System>, steps: seq<Step>, i: nat, id: NodeId)
    requires IsRun(states, steps) && i < |steps|
    requires id in states[i].nodes && !Restarts(steps[i], id)
    ensures id in states[i + 1].nodes && Rises(states[i].nodes[id].view, states[i + 1].nodes[id].view)
  {
    EveryRunIsSafe(states, steps, i);
    assert Follows(states[i], steps[i], states[i + 1]);
    StepSafe(states[i], steps[i]);
  }

  // As long as a node is not restarted, its view of every other member only rises
  // in the order of incarnation, then state; its record of itself never changes.
  lemma {:induction false} ViewsOnlyRise(states: seq<System>, steps: seq<Step>, i: nat, j: nat, id: NodeId)
    requires IsRun(states, steps) && i <= j <= |steps| && id in states[i].nodes
    requires forall k | i <= k < j :: !Restarts(steps[k], id)
    ensures id in states[j].nodes && Rises(states[i].nodes[id].view, states[j].nodes[id].view)
    decreases j
  {
    if i < j {
      ViewsOnlyRise(states, steps, i, j - 1, id);
      RunStepRises(states, steps, j - 1, id);
      RisesFurther(states[i].nodes[id].view, states[j - 1].nodes[id].view, states[j].nodes[id].view);
    }
  }

  ghost predicate SeesDead(s: System, id: NodeId, x: NodeId) {
    id in s.nodes && x in s.nodes[id].view.members && s.nodes[id].view.members[x].state.Dead?
  }

  ghost predicate SeesAlive(s: System, id: NodeId, x: NodeId) {
    id in s.nodes && x in s.nodes[id].view.members && s.nodes[id].view.members[x].state.Alive?
  }

  // No node ever learns a higher incarnation than zero, so a member once seen as
  // dead is seen as dead until the node that sees it so restarts. The member may
  // join again, restart or answer every probe; it knows itself to be alive.
  lemma DeadForever(states: seq<System>, steps: seq<Step>, i: nat, j: nat, id: NodeId, x: NodeId)
    requires IsRun(states, steps) && i <= j <= |steps|
    requires SeesDead(states[i], id, x)
    requires forall k | i <= k < j :: !Restarts(steps[k], id)
    ensures SeesDead(states[j], id, x)
    ensures x in states[j].nodes ==> SeesAlive(states[j], x, x)
  {
    EveryRunIsSafe(states, steps, i);
    EveryRunIsSafe(states, steps, j);
    ViewsOnlyRise(states, steps, i, j, id);
    assert NodeSafe(id, states[i].nodes[id]) && NodeSafe(id, states[j].nodes[id]);
    var v, w := states[i].nodes[id].view, states[j].nodes[id].view;
    assert x != id;
    assert Held(v, x) == 2 <= Held(w, x);
    if x in states[j].nodes {
      assert NodeSafe(x, states[j].nodes[x]);
    }
  }

  // ---------- A live node held dead ----------

  lemma RunOneMore(states: seq<System>, steps: seq<Step>, step: Step)
    requires IsRun(states, steps) && CanHappen(states[|steps|], step)
    ensures IsRun(states + [Next(states[|steps|], step)], steps + [step])
  {
    var more, all := states + [Next(states[|steps|], step)], steps + [step];
    forall i | 0 <= i < |all| ensures Follows(more[i], all[i], more[i + 1]) {
      if i < |steps| {
        assert Follows(states[i], steps[i], states[i + 1]);
      }
    }
  }

  // Two nodes, the second of which has joined at the first.
  lemma JoinedRun(a: NodeId, b: NodeId) returns (states: seq<System>, steps: seq<Step>)
    requires a != b
    ensures IsRun(states, steps)
    ensures var s := states[|steps|];
            && a in s.nodes && b in s.nodes && s.cycles == {}
            && s.nodes[a].view.local == a && s.nodes[a].view.members.Keys == {a, b}
            && s.nodes[a].view.members[b].state.Alive?
  {
    states, steps := [System(map[], {}, {})], [];
    var s1 := Next(states[0], Boot(a, 1, 0));
    RunOneMore(states, steps, Boot(a, 1, 0));
    states, steps := states + [s1], steps + [Boot(a, 1, 0)];
    var s2 := Next(s1, Boot(b, 2, 0));
    RunOneMore(states, steps, Boot(b, 2, 0));
    states, steps := states + [s2], steps + [Boot(b, 2, 0)];
    var s3 := Next(s2, JoinSeeds(b));
    RunOneMore(states, steps, JoinSeeds(b));
    states, steps := states + [s3], steps + [JoinSeeds(b)];
    var joined := Deliver(a, Join(b, 2), [a, b], 0);
    assert TakeIn(s3.nodes[a], Join(b, 2), 0).view.members.Keys == {a, b};
    var s4 := Next(s3, joined);
    RunOneMore(states, steps, joined);
    states, steps := states + [s4], steps + [joined];
  }

  // A run of two nodes in which both are up throughout and one comes to see the
  // other as dead, whatever the suspicion timeout: a late ack is enough.
  lemma LiveNodeHeldDead(a: NodeId, b: NodeId, timeout: nat) returns (states: seq<System>, steps: seq<Step>)
    requires a != b
    ensures IsRun(states, steps)
    ensures SeesDead(states[|steps|], a, b) && SeesAlive(states[|steps|], b, b)
  {
    states, steps := JoinedRun(a, b);
    var s := states[|steps|];
    var probe := StartProbing(a, b, [a, b]);
    var s1 := Next(s, probe);
    RunOneMore(states, steps, probe);
    states, steps := states + [s1], steps + [probe];
    var give := EndProbing(a, s1.nodes[a].lastSeq, b, false, 0);
    var s2 := Next(s1, give);
    RunOneMore(states, steps, give);
    states, steps := states + [s2], steps + [give];
    var s3 := Next(s2, ReapDead(a, timeout, timeout));
    RunOneMore(states, steps, ReapDead(a, timeout, timeout));
    states, steps := states + [s3], steps + [ReapDead(a, timeout, timeout)];
    EveryRunIsSafe(states, steps, |steps|);
    assert NodeSafe(b, s3.nodes[b]);
  }
}
