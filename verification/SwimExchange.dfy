/** What nodes learn from messages, what they answer, and how long suspects are given. */
module SwimExchange {
  import opened Base
  import opened Membership
  import opened StableSort
  import opened Swim
  import opened SwimRuns

  function Higher(a: int, b: int): int {
    if a >= b then a else b
  }

  // ---------- What one message tells ----------

  // The highest level a message reports for a member.
  function Reported(msg: Message, x: NodeId): int {
    match msg
    case Ping(_, _, _, updates) => Highest(updates, x)
    case PingReq(_, _, _, _, _, updates) => Highest(updates, x)
    case Ack(_, _, _, updates) => Highest(updates, x)
    case Join(node, _) => if node == x then Level(Alive, 0) else -1
    case AliveMsg(node, _, incarnation) => if node == x then Level(Alive, incarnation) else -1
    case SuspectMsg(node, _, incarnation) => if node == x then Level(Suspect, incarnation) else -1
    case DeadMsg(node, _, incarnation) => if node == x then Level(Dead, incarnation) else -1
  }

  lemma TakeInLearns(n: Node, msg: Message, now: nat, x: NodeId)
    requires x != n.view.local
    ensures Held(TakeIn(n, msg, now).view, x) == Higher(Held(n.view, x), Reported(msg, x))
  {
    MergeLaw(n.view, msg.Piggybacked(), now, x);
    HighestBounds(msg.Piggybacked(), x);
    if Announced(msg).Some? {
      MergeIsMax(MergeAll(n.view, msg.Piggybacked(), now), Announced(msg).value, now, x);
    }
  }

  // After a message is delivered, the node holds of every other member the higher of
  // what it held and of what the message reports. No other node is affected.
  lemma DeliverMerges(s: System, step: Step, x: NodeId)
    requires Safe(s) && step.Deliver? && CanHappen(s, step) && x != step.id
    ensures step.id in Next(s, step).nodes
    ensures Held(Next(s, step).nodes[step.id].view, x)
         == Higher(Held(s.nodes[step.id].view, x), Reported(step.msg, x))
    ensures forall id | id in s.nodes && id != step.id ::
              id in Next(s, step).nodes && Next(s, step).nodes[id] == s.nodes[id]
  {
    assert NodeSafe(step.id, s.nodes[step.id]);
    TakeInLearns(s.nodes[step.id], step.msg, step.now, x);
  }

  // What each message is answered with, and where the answer goes.
  lemma AnswersTo(n: Node, msg: Message, listing: seq<NodeId>)
    requires forall x | x in listing :: x in n.view.members
    ensures var updates := RecentUpdates(n.view, listing, 10);
            var reply := Reply(n, msg, listing);
            match msg
            case Ping(_, fromAddr, seqNo, _) => reply == Some((Ack(n.view.local, n.addr, seqNo, updates), fromAddr))
            case PingReq(_, _, _, targetAddr, seqNo, _) =>
              reply == Some((Ping(n.view.local, n.addr, seqNo, updates), targetAddr))
            case Join(_, addr) => reply == Some((Ack(n.view.local, n.addr, 0, updates), addr))
            case _ => reply.None?
  {
  }

  // An ack clears the probe of its number and no other; other messages clear none.
  lemma AcksClearProbes(n: Node, msg: Message, now: nat, q: nat)
    ensures var m := TakeIn(n, msg, now);
            && (q in m.pending <==> q in n.pending && !(msg.Ack? && msg.seqNo == q))
            && (q in m.pending ==> m.pending[q] == n.pending[q])
            && m.lastSeq == n.lastSeq && m.addr == n.addr
  {
  }

  // ---------- A ping and its ack ----------

  // The message that a probe sends.
  function PingOf(n: Node, listing: seq<NodeId>): Message
    requires forall x | x in listing :: x in n.view.members
  {
    Ping(n.view.local, n.addr, n.lastSeq + 2, RecentUpdates(n.view, listing, 10))
  }

  // A probe is noted under a number that no pending probe has, and its ping is sent.
  lemma ProbeIsNoted(s: System, a: NodeId, b: NodeId, listing: seq<NodeId>)
    requires Safe(s) && CanHappen(s, StartProbing(a, b, listing))
    ensures var t := Next(s, StartProbing(a, b, listing));
            var q := s.nodes[a].lastSeq + 2;
            && a in t.nodes && PingOf(s.nodes[a], listing) in t.sent
            && q !in s.nodes[a].pending
            && t.nodes[a] == s.nodes[a].(lastSeq := q, pending := s.nodes[a].pending[q := Probe(b, false)])
            && Cycle(a, q, b) in t.cycles
            && forall id | id in s.nodes && id != a :: id in t.nodes && t.nodes[id] == s.nodes[id]
  {
    assert NodeSafe(a, s.nodes[a]);
  }

  // Asking relays marks the probe, if it is still pending, and sends them what they
  // need to ping the target.
  lemma RelaysAreAsked(n: Node, seqNo: nat, target: NodeId, targetAddr: Addr, listing: seq<NodeId>)
    requires forall x | x in listing :: x in n.view.members
    ensures var (m, msg) := AskRelays(n, seqNo, target, targetAddr, listing);
            && msg == PingReq(n.view.local, n.addr, target, targetAddr, seqNo, RecentUpdates(n.view, listing, 10))
            && m.pending.Keys == n.pending.Keys && m == n.(pending := m.pending)
            && forall q | q in n.pending ::
                 m.pending[q] == if q == seqNo then Probe(n.pending[q].target, true) else n.pending[q]
  {
  }

  // The three steps of an answered probe of b by a.
  ghost predicate Exchange(s: System, a: NodeId, b: NodeId, listA: seq<NodeId>, listB: seq<NodeId>,
                           listC: seq<NodeId>, now: nat, later: nat, s1: System, s2: System, s3: System)
  {
    && Safe(s) && a != b && b in s.nodes
    && Follows(s, StartProbing(a, b, listA), s1)
    && Follows(s1, Deliver(b, PingOf(s.nodes[a], listA), listB, now), s2)
    && var ack := Ack(b, s2.nodes[b].addr, s.nodes[a].lastSeq + 2, RecentUpdates(s2.nodes[b].view, listB, 10));
    && Follows(s2, Deliver(a, ack, listC, later), s3)
  }

  // A delivered ping is acked, under its number, with the view it leaves behind.
  lemma PingIsAcked(s: System, step: Step)
    requires Safe(s) && step.Deliver? && step.msg.Ping? && CanHappen(s, step)
    ensures var t := Next(s, step);
            && step.id in t.nodes && IsListing(step.listing, t.nodes[step.id].view)
            && Ack(step.id, t.nodes[step.id].addr, step.msg.seqNo,
                   RecentUpdates(t.nodes[step.id].view, step.listing, 10)) in t.sent
  {
    assert NodeSafe(step.id, s.nodes[step.id]);
    TakeInSafe(step.id, s.nodes[step.id], step.msg, step.now);
    AnswersTo(TakeIn(s.nodes[step.id], step.msg, step.now), step.msg, step.listing);
  }

  // What b holds after the ping, if a's view fits in one message.
  lemma PingTellsAll(s: System, a: NodeId, b: NodeId, listA: seq<NodeId>, listB: seq<NodeId>, now: nat,
                     s1: System, s2: System, x: NodeId)
    requires Safe(s) && a != b && b in s.nodes && x != a && x != b && |listA| <= 10
    requires Follows(s, StartProbing(a, b, listA), s1)
    requires Follows(s1, Deliver(b, PingOf(s.nodes[a], listA), listB, now), s2)
    ensures a in s2.nodes && b in s2.nodes && s2.nodes[a] == s1.nodes[a] && s1.nodes[a].view == s.nodes[a].view
    ensures Held(s2.nodes[b].view, x) == Higher(Held(s.nodes[b].view, x), Held(s.nodes[a].view, x))
    ensures Safe(s1) && Safe(s2) && IsListing(listB, s2.nodes[b].view)
  {
    assert NodeSafe(a, s.nodes[a]);
    ProbeIsNoted(s, a, b, listA);
    StepSafe(s, StartProbing(a, b, listA));
    DeliverMerges(s1, Deliver(b, PingOf(s.nodes[a], listA), listB, now), x);
    StepSafe(s1, Deliver(b, PingOf(s.nodes[a], listA), listB, now));
    WholeViewSent(s.nodes[a].view, listA, 10, x);
  }

  // What a holds after the ack, if b's view fits in one message.
  lemma AckTellsAll(s: System, a: NodeId, b: NodeId, q: nat, listB: seq<NodeId>, step: Step, x: NodeId)
    requires Safe(s) && a != b && b in s.nodes && x != a
    requires IsListing(listB, s.nodes[b].view) && |listB| <= 10
    requires step.Deliver? && step.id == a && CanHappen(s, step)
    requires step.msg == Ack(b, s.nodes[b].addr, q, RecentUpdates(s.nodes[b].view, listB, 10))
    ensures var t := Next(s, step);
            && a in t.nodes && b in t.nodes && t.nodes[b] == s.nodes[b]
            && Held(t.nodes[a].view, x) == Higher(Held(s.nodes[a].view, x), Held(s.nodes[b].view, x))
            && q !in t.nodes[a].pending
  {
    assert NodeSafe(b, s.nodes[b]);
    DeliverMerges(s, step, x);
    WholeViewSent(s.nodes[b].view, listB, 10, x);
  }

  lemma PingThenAck(s: System, s2: System, s3: System, a: NodeId, b: NodeId, q: nat, listB: seq<NodeId>,
                    last: Step, x: NodeId)
    requires Safe(s2) && a != b && a in s.nodes && b in s.nodes && b in s2.nodes && x != a && x != b
    requires IsListing(listB, s2.nodes[b].view) && |listB| <= 10
    requires a in s2.nodes && s2.nodes[a].view == s.nodes[a].view
    requires Held(s2.nodes[b].view, x) == Higher(Held(s.nodes[b].view, x), Held(s.nodes[a].view, x))
    requires last.Deliver? && last.id == a && Follows(s2, last, s3)
    requires last.msg == Ack(b, s2.nodes[b].addr, q, RecentUpdates(s2.nodes[b].view, listB, 10))
    ensures a in s3.nodes && b in s3.nodes && q !in s3.nodes[a].pending
    ensures Agree(s3.nodes[a].view, s3.nodes[b].view, x)
    ensures Held(s3.nodes[a].view, x) == Higher(Held(s.nodes[a].view, x), Held(s.nodes[b].view, x))
  {
    AckTellsAll(s2, a, b, q, listB, last, x);
    SameLevelAgrees(s3.nodes[a].view, s3.nodes[b].view, x);
  }

  // When a ping is answered and both views fit in a message, prober and target agree
  // on every third member, on the higher of what the two held, and the probe is no
  // longer pending.
  lemma ProbeExchangeAgrees(s: System, a: NodeId, b: NodeId, listA: seq<NodeId>, listB: seq<NodeId>,
                            listC: seq<NodeId>, now: nat, later: nat, s1: System, s2: System, s3: System, x: NodeId)
    requires Exchange(s, a, b, listA, listB, listC, now, later, s1, s2, s3)
    requires x != a && x != b && |listA| <= 10 && |listB| <= 10
    ensures a in s3.nodes && b in s3.nodes
    ensures Agree(s3.nodes[a].view, s3.nodes[b].view, x)
    ensures Held(s3.nodes[a].view, x) == Higher(Held(s.nodes[a].view, x), Held(s.nodes[b].view, x))
    ensures s.nodes[a].lastSeq + 2 !in s3.nodes[a].pending
  {
    PingTellsAll(s, a, b, listA, listB, now, s1, s2, x);
    var q := s.nodes[a].lastSeq + 2;
    var ack := Ack(b, s2.nodes[b].addr, q, RecentUpdates(s2.nodes[b].view, listB, 10));
    PingThenAck(s, s2, s3, a, b, q, listB, Deliver(a, ack, listC, later), x);
  }

  // An indirect probe cannot help: the target's ack to the relayed ping goes to the
  // relay, under the number of the prober's probe, and the relay answers acks with
  // nothing.
  lemma RelayedAckStaysAtRelay(prober: Node, relay: Node, target: Node, q: nat, targetId: NodeId, targetAddr: Addr,
                               listP: seq<NodeId>, listR: seq<NodeId>, listT: seq<NodeId>, listing: seq<NodeId>)
    requires forall x | x in listP :: x in prober.view.members
    requires forall x | x in listR || x in listing :: x in relay.view.members
    requires forall x | x in listT :: x in target.view.members
    ensures var request := AskRelays(prober, q, targetId, targetAddr, listP).1;
            var relayed := Reply(relay, request, listR);
            && relayed.Some? && relayed.value.1 == targetAddr
            && var ack := Reply(target, relayed.value.0, listT);
            && ack.Some? && ack.value.0.Ack? && ack.value.0.seqNo == q
            && ack.value.1 == relay.addr
            && Reply(relay, ack.value.0, listing).None?
  {
  }

  // A probe that ends is forgotten; its target, if still held alive, becomes suspect
  // at that time unless the ack was seen; nothing else changes.
  lemma ProbeEnds(n: Node, seqNo: nat, target: NodeId, ackSeen: bool, now: nat)
    ensures var m := EndProbe(n, seqNo, target, ackSeen, now);
            && m.pending == n.pending - {seqNo} && m.lastSeq == n.lastSeq && m.addr == n.addr
            && m.view.local == n.view.local && m.view.incarnation == n.view.incarnation
            && m.view.members.Keys == n.view.members.Keys
            && forall x | x in n.view.members ::
                 m.view.members[x]
                 == if x == target && !ackSeen && n.view.members[x].state.Alive?
                    then n.view.members[x].(state := Suspect, stateChange := now) else n.view.members[x]
  {
  }

  // ---------- Joining ----------

  // A node that boots knows only itself, under its own address and alive from then
  // on, and has no probe pending.
  lemma BootsAlone(s: System, id: NodeId, addr: Addr, now: nat)
    ensures var t := Next(s, Boot(id, addr, now));
            && id in t.nodes
            && t.nodes[id].view.members == map[id := Member(id, addr, Alive, 0, now)]
            && t.nodes[id].view.local == id && t.nodes[id].view.incarnation == 0
            && t.nodes[id].addr == addr && t.nodes[id].lastSeq == 0 && t.nodes[id].pending == map[]
            && t.sent == s.sent
            && (forall c | c in t.cycles :: c.id != id)
            && forall other | other in s.nodes && other != id ::
                 other in t.nodes && t.nodes[other] == s.nodes[other]
  {
  }

  function AddressesOf(out: seq<(Message, Addr)>): (addrs: seq<Addr>)
    ensures |addrs| == |out|
  {
    seq(|out|, i requires 0 <= i < |out| => out[i].1)
  }

  // The join goes to the seeds other than one's own address, in order and as often as
  // they are listed.
  lemma {:induction false} JoinsGoToOthers(msg: Message, own: Addr, seeds: seq<Addr>)
    ensures AddressesOf(Joins(msg, own, seeds)) == Without(seeds, own)
    ensures forall i | 0 <= i < |Joins(msg, own, seeds)| :: Joins(msg, own, seeds)[i].0 == msg
    decreases |seeds|
  {
    if seeds != [] {
      var front, last := seeds[..|seeds| - 1], seeds[|seeds| - 1];
      JoinsGoToOthers(msg, own, front);
      assert seeds == front + [last];
      WithoutLast(front, last, own);
    }
  }

  lemma {:induction false} WithoutLast(front: seq<Addr>, last: Addr, own: Addr)
    ensures Without(front + [last], own) == Without(front, own) + (if last == own then [] else [last])
    decreases |front|
  {
    if front == [] {
      assert front + [last] == [last];
    } else {
      assert (front + [last])[1..] == front[1..] + [last];
      WithoutLast(front[1..], last, own);
    }
  }

  // ---------- How long a suspect is given ----------

  // The step at which a node may come to hold x as suspect, with its clock reading.
  ghost predicate MaySuspect(step: Step, id: NodeId, x: NodeId, at: nat) {
    || (step.EndProbing? && step.id == id && step.target == x && !step.ackSeen && step.now == at)
    || (step.Deliver? && step.id == id && step.now == at)
  }

  ghost predicate SuspectedAt(steps: seq<Step>, i: nat, id: NodeId, x: NodeId, at: nat)
    requires i <= |steps|
  {
    exists k :: 0 <= k < i && MaySuspect(steps[k], id, x, at)
  }

  predicate SuspectIn(n: Node, x: NodeId) {
    x in n.view.members && n.view.members[x].state.Suspect?
  }

  lemma {:induction false} MergeAllDates(v: View, us: seq<Update>, now: nat, x: NodeId)
    requires x in MergeAll(v, us, now).members
    ensures var m := MergeAll(v, us, now).members[x];
            m.stateChange == now || (x in v.members && m == v.members[x])
    decreases |us|
  {
    if us != [] {
      var before := MergeAll(v, us[..|us| - 1], now);
      if x in before.members {
        MergeAllDates(v, us[..|us| - 1], now, x);
      }
    }
  }

  lemma StepDates(s: System, step: Step, id: NodeId, x: NodeId)
    requires CanHappen(s, step) && id in Next(s, step).nodes && SuspectIn(Next(s, step).nodes[id], x)
    ensures var m := Next(s, step).nodes[id].view.members[x];
            || (id in s.nodes && SuspectIn(s.nodes[id], x) && s.nodes[id].view.members[x].stateChange == m.stateChange)
            || MaySuspect(step, id, x, m.stateChange)
  {
    if step.Deliver? && step.id == id {
      var n := s.nodes[id];
      var merged := MergeAll(n.view, step.msg.Piggybacked(), step.now);
      if x in merged.members {
        MergeAllDates(n.view, step.msg.Piggybacked(), step.now, x);
      }
    }
  }

  lemma {:induction false} SuspectsAreDated(states: seq<System>, steps: seq<Step>, i: nat, id: NodeId, x: NodeId)
    requires IsRun(states, steps) && i <= |steps|
    requires id in states[i].nodes && SuspectIn(states[i].nodes[id], x)
    ensures SuspectedAt(steps, i, id, x, states[i].nodes[id].view.members[x].stateChange)
  {
    assert i > 0;
    assert Follows(states[i - 1], steps[i - 1], states[i]);
    StepDates(states[i - 1], steps[i - 1], id, x);
    var at := states[i].nodes[id].view.members[x].stateChange;
    if MaySuspect(steps[i - 1], id, x, at) {
    } else {
      SuspectsAreDated(states, steps, i - 1, id, x);
      var k :| 0 <= k < i - 1 && MaySuspect(steps[k], id, x, at);
    }
  }

  // Reaping declares a member dead exactly if it has been suspect for the timeout, by
  // the clock reading of the step that made it so, and leaves all others alone.
  lemma ReapWaits(states: seq<System>, steps: seq<Step>, i: nat, x: NodeId)
    requires IsRun(states, steps) && i < |steps| && steps[i].ReapDead?
    ensures var id, step := steps[i].id, steps[i];
            && id in states[i].nodes && id in states[i + 1].nodes
            && var before, after := states[i].nodes[id], states[i + 1].nodes[id];
            && (x in before.view.members <==> x in after.view.members)
            && (x in before.view.members ==>
                  if SuspectIn(before, x) && step.now >= before.view.members[x].stateChange + step.timeout then
                    && after.view.members[x] == before.view.members[x].(state := Dead, stateChange := step.now)
                    && (exists at: nat :: SuspectedAt(steps, i, id, x, at) && step.now >= at + step.timeout)
                  else after.view.members[x] == before.view.members[x])
  {
    EveryRunIsSafe(states, steps, i);
    assert Follows(states[i], steps[i], states[i + 1]);
    var id := steps[i].id;
    assert NodeSafe(id, states[i].nodes[id]);
    if SuspectIn(states[i].nodes[id], x) {
      SuspectsAreDated(states, steps, i, id, x);
    }
  }
}
