/** Where suspicions come from: a probe that somebody gave up, and nowhere else. */
module SwimSuspicion {
  import opened Base
  import opened Membership
  import opened StableSort
  import opened Swim
  import opened SwimRuns

  // The member whose probe the step gives up, if it does.
  function GivenUp(step: Step): set<NodeId> {
    if step.EndProbing? && !step.ackSeen then {step.target} else {}
  }

  // The members whose probes the first n steps gave up.
  function Doubted(steps: seq<Step>, n: nat): set<NodeId>
    requires n <= |steps|
  {
    if n == 0 then {} else Doubted(steps, n - 1) + GivenUp(steps[n - 1])
  }

  ghost predicate UpdatesGrounded(us: seq<Update>, doubted: set<NodeId>) {
    forall u | u in us :: u.state.Alive? || u.nodeId in doubted
  }

  ghost predicate ViewGrounded(v: View, doubted: set<NodeId>) {
    forall x | x in v.members :: v.members[x].state.Alive? || x in doubted
  }

  // Nobody but the doubted is held, or reported, as anything but alive.
  ghost predicate Grounded(s: System, doubted: set<NodeId>) {
    && (forall id | id in s.nodes :: ViewGrounded(s.nodes[id].view, doubted))
    && (forall msg | msg in s.sent :: UpdatesGrounded(msg.Piggybacked(), doubted))
  }

  lemma {:induction false} MergeAllGrounded(v: View, us: seq<Update>, now: nat, doubted: set<NodeId>)
    requires ViewGrounded(v, doubted) && UpdatesGrounded(us, doubted)
    ensures ViewGrounded(MergeAll(v, us, now), doubted)
    decreases |us|
  {
    if us != [] {
      assert forall u | u in us[..|us| - 1] :: u in us;
      MergeAllGrounded(v, us[..|us| - 1], now, doubted);
      assert us[|us| - 1] in us;
    }
  }

  lemma TakeInGrounded(n: Node, msg: Message, now: nat, doubted: set<NodeId>)
    requires ViewGrounded(n.view, doubted) && MessageSafe(msg) && UpdatesGrounded(msg.Piggybacked(), doubted)
    ensures ViewGrounded(TakeIn(n, msg, now).view, doubted)
  {
    MergeAllGrounded(n.view, msg.Piggybacked(), now, doubted);
  }

  lemma PiggybackGrounded(n: Node, listing: seq<NodeId>, doubted: set<NodeId>)
    requires Consistent(n.view) && ViewGrounded(n.view, doubted)
    requires forall x | x in listing :: x in n.view.members
    ensures UpdatesGrounded(Piggyback(n, listing), doubted)
  {
    var us := Updates(n.view, listing);
    var sorted := Sort(us, NewestFirst());
    forall u | u in Piggyback(n, listing) ensures u.state.Alive? || u.nodeId in doubted {
      assert u in sorted;
      SameElements(us, NewestFirst(), u);
    }
  }

  lemma PutGrounded(s: System, id: NodeId, n: Node, out: set<Message>, doubted: set<NodeId>)
    requires Grounded(s, doubted) && ViewGrounded(n.view, doubted)
    requires forall msg | msg in out :: UpdatesGrounded(msg.Piggybacked(), doubted)
    ensures Grounded(Put(s, id, n, out), doubted)
  {
  }

  lemma MoreDoubted(s: System, doubted: set<NodeId>, more: set<NodeId>)
    requires Grounded(s, doubted) && doubted <= more
    ensures Grounded(s, more)
  {
  }

  lemma DeliverGrounded(s: System, step: Step, doubted: set<NodeId>)
    requires Safe(s) && Grounded(s, doubted) && step.Deliver? && CanHappen(s, step)
    ensures Grounded(Next(s, step), doubted)
  {
    var n := TakeIn(s.nodes[step.id], step.msg, step.now);
    TakeInGrounded(s.nodes[step.id], step.msg, step.now, doubted);
    TakeInSafe(step.id, s.nodes[step.id], step.msg, step.now);
    PiggybackGrounded(n, step.listing, doubted);
    var reply := Reply(n, step.msg, step.listing);
    PutGrounded(s, step.id, n, if reply.Some? then {reply.value.0} else {}, doubted);
  }

  lemma ProbeGrounded(s: System, step: Step, doubted: set<NodeId>)
    requires Safe(s) && Grounded(s, doubted) && (step.StartProbing? || step.AskForRelay?) && CanHappen(s, step)
    ensures Grounded(Next(s, step), doubted)
  {
    var n := s.nodes[step.id];
    assert NodeSafe(step.id, n);
    PiggybackGrounded(n, step.listing, doubted);
    if step.StartProbing? {
      var (m, ping) := StartProbe(n, step.target, step.listing);
      PutGrounded(s, step.id, m, {ping}, doubted);
    } else {
      var (m, pingReq) := AskRelays(n, step.seqNo, step.target, step.targetAddr, step.listing);
      PutGrounded(s, step.id, m, {pingReq}, doubted);
    }
  }

  lemma StepGrounded(s: System, step: Step, doubted: set<NodeId>)
    requires Safe(s) && Grounded(s, doubted) && GivenUp(step) <= doubted && CanHappen(s, step)
    ensures Grounded(Next(s, step), doubted)
  {
    match step
    case Deliver(_, _, _, _) => DeliverGrounded(s, step, doubted);
    case StartProbing(_, _, _) => ProbeGrounded(s, step, doubted);
    case AskForRelay(_, _, _, _, _) => ProbeGrounded(s, step, doubted);
    case EndProbing(id, seqNo, target, ackSeen, now) =>
      PutGrounded(s, id, EndProbe(s.nodes[id], seqNo, target, ackSeen, now), {}, doubted);
    case _ =>
  }

  lemma {:induction false} EveryRunIsGrounded(states: seq<System>, steps: seq<Step>, i: nat)
    requires IsRun(states, steps) && i <= |steps|
    ensures Grounded(states[i], Doubted(steps, i))
  {
    if i > 0 {
      EveryRunIsGrounded(states, steps, i - 1);
      EveryRunIsSafe(states, steps, i - 1);
      assert Follows(states[i - 1], steps[i - 1], states[i]);
      MoreDoubted(states[i - 1], Doubted(steps, i - 1), Doubted(steps, i));
      StepGrounded(states[i - 1], steps[i - 1], Doubted(steps, i));
    }
  }

  lemma {:induction false} DoubtedBySome(steps: seq<Step>, n: nat, x: NodeId) returns (k: nat)
    requires n <= |steps| && x in Doubted(steps, n)
    ensures k < n && steps[k].EndProbing? && steps[k].target == x && !steps[k].ackSeen
  {
    if x in Doubted(steps, n - 1) {
      k := DoubtedBySome(steps, n - 1, x);
    } else {
      k := n - 1;
    }
  }

  // In every run, a member is held as suspect or dead by anybody only if somebody,
  // earlier, gave up a probe of it without having seen an ack.
  lemma SuspicionHasAProbe(states: seq<System>, steps: seq<Step>, i: nat, id: NodeId, x: NodeId) returns (k: nat)
    requires IsRun(states, steps) && i <= |steps|
    requires id in states[i].nodes && x in states[i].nodes[id].view.members
    requires !states[i].nodes[id].view.members[x].state.Alive?
    ensures k < i && steps[k].EndProbing? && steps[k].target == x && !steps[k].ackSeen
  {
    EveryRunIsGrounded(states, steps, i);
    assert ViewGrounded(states[i].nodes[id].view, Doubted(steps, i));
    k := DoubtedBySome(steps, i, x);
  }
}
