/** The failure detector: nodes exchanging messages over an unreliable network. */
module Swim {
  import opened Base
  import opened Membership

  const INDIRECT_PROBE_COUNT: nat := 3
  const MAX_PIGGYBACK_UPDATES: nat := 10

  datatype Message =
    | Ping(from: NodeId, fromAddr: Addr, seqNo: nat, updates: seq<Update>)
    | PingReq(from: NodeId, fromAddr: Addr, target: NodeId, targetAddr: Addr, seqNo: nat, updates: seq<Update>)
    | Ack(from: NodeId, fromAddr: Addr, seqNo: nat, updates: seq<Update>)
    | Join(nodeId: NodeId, addr: Addr)
    | AliveMsg(nodeId: NodeId, addr: Addr, incarnation: nat)
    | SuspectMsg(nodeId: NodeId, addr: Addr, incarnation: nat)
    | DeadMsg(nodeId: NodeId, addr: Addr, incarnation: nat)
  {
    function Piggybacked(): seq<Update> {
      if Ping? || PingReq? || Ack? then updates else []
    }
  }

  datatype Probe = Probe(target: NodeId, indirectSent: bool)

  datatype Node = Node(view: View, addr: Addr, lastSeq: nat, pending: map<nat, Probe>)

  function NewNode(id: NodeId, addr: Addr, now: nat): Node {
    Node(NewView(id, addr, now), addr, 0, map[])
  }

  // ---------- What a node does ----------

  predicate ProbeTarget(v: View, target: NodeId) {
    target in v.members && target != v.local && !v.members[target].state.Dead?
  }

  predicate RelayCandidate(v: View, relay: NodeId, target: NodeId) {
    relay in v.members && relay != v.local && relay != target && v.members[relay].state.Alive?
  }

  // Some order in which the probe targets, or the relays for a target, are listed.
  ghost predicate ListsTargets(targets: seq<NodeId>, v: View) {
    Distinct(targets) && forall x :: x in targets <==> ProbeTarget(v, x)
  }

  ghost predicate ListsRelays(relays: seq<NodeId>, v: View, target: NodeId) {
    Distinct(relays) && forall x :: x in relays <==> RelayCandidate(v, x, target)
  }

  ghost predicate Lists(listing: seq<NodeId>, n: Node) {
    IsListing(listing, n.view)
  }

  function Piggyback(n: Node, listing: seq<NodeId>): seq<Update>
    requires forall x | x in listing :: x in n.view.members
  {
    RecentUpdates(n.view, listing, MAX_PIGGYBACK_UPDATES)
  }

  // A probe cycle spans several steps, between which the node handles messages.
  // First it picks a target, notes the probe as pending and sends a ping. One
  // sequence number goes into picking the target.
  function StartProbe(n: Node, target: NodeId, listing: seq<NodeId>): (Node, Message)
    requires forall x | x in listing :: x in n.view.members
  {
    var seqNo := n.lastSeq + 2;
    (n.(lastSeq := seqNo, pending := n.pending[seqNo := Probe(target, false)]),
     Ping(n.view.local, n.addr, seqNo, Piggyback(n, listing)))
  }

  // Without an ack it asks relays, if it has any, to ping the target. Every relay
  // is sent the same message.
  function AskRelays(n: Node, seqNo: nat, target: NodeId, targetAddr: Addr, listing: seq<NodeId>): (Node, Message)
    requires forall x | x in listing :: x in n.view.members
  {
    var noted := if seqNo in n.pending
                 then n.(pending := n.pending[seqNo := n.pending[seqNo].(indirectSent := true)]) else n;
    (noted, PingReq(n.view.local, n.addr, target, targetAddr, seqNo, Piggyback(n, listing)))
  }

  // At the end the target becomes suspect unless the wait has seen the ack. The
  // wait looks at the clock before it looks for the ack, so it may miss one that
  // arrives at the deadline.
  function EndProbe(n: Node, seqNo: nat, target: NodeId, ackSeen: bool, now: nat): Node {
    n.(view := if ackSeen then n.view else MarkSuspect(n.view, target, now).0, pending := n.pending - {seqNo})
  }

  function Announced(msg: Message): Option<Update> {
    match msg
    case Join(node, addr) => Some(Update(node, addr, Alive, 0))
    case AliveMsg(node, addr, incarnation) => Some(Update(node, addr, Alive, incarnation))
    case SuspectMsg(node, addr, incarnation) => Some(Update(node, addr, Suspect, incarnation))
    case DeadMsg(node, addr, incarnation) => Some(Update(node, addr, Dead, incarnation))
    case _ => None
  }

  // The node after taking in a message, before any reply.
  function TakeIn(n: Node, msg: Message, now: nat): Node {
    var merged := MergeAll(n.view, msg.Piggybacked(), now);
    var view := if Announced(msg).Some? then Merge(merged, Announced(msg).value, now).0 else merged;
    n.(view := view, pending := if msg.Ack? then n.pending - {msg.seqNo} else n.pending)
  }

  // The reply to a message and the address it goes to.
  function Reply(n: Node, msg: Message, listing: seq<NodeId>): Option<(Message, Addr)>
    requires forall x | x in listing :: x in n.view.members
  {
    match msg
    case Ping(_, fromAddr, seqNo, _) =>
      Some((Ack(n.view.local, n.addr, seqNo, Piggyback(n, listing)), fromAddr))
    case PingReq(_, _, _, targetAddr, seqNo, _) =>
      Some((Ping(n.view.local, n.addr, seqNo, Piggyback(n, listing)), targetAddr))
    case Join(_, addr) => Some((Ack(n.view.local, n.addr, 0, Piggyback(n, listing)), addr))
    case _ => None
  }

  predicate TimedOut(v: View, x: NodeId, now: nat, timeout: nat) {
    ProbeTarget(v, x) && v.members[x].state.Suspect? && now >= v.members[x].stateChange + timeout
  }

  // Suspects whose time is up are declared dead.
  function Reap(v: View, now: nat, timeout: nat): View {
    v.(members := map x | x in v.members ::
         if TimedOut(v, x, now, timeout) then v.members[x].(state := Dead, stateChange := now) else v.members[x])
  }

  // The message once to each address other than one's own, in order.
  function Joins(msg: Message, own: Addr, seeds: seq<Addr>): seq<(Message, Addr)> {
    if seeds == [] then []
    else
      Joins(msg, own, seeds[..|seeds| - 1])
      + (if seeds[|seeds| - 1] == own then [] else [(msg, seeds[|seeds| - 1])])
  }

  // ---------- The protocol object ----------

  class SwimProtocol {
    const members: MemberList
    const addr: Addr
    const suspicionTimeout: nat
    var lastSeq: nat
    var pending: map<nat, Probe>

    function Value(): Node
      reads this, members
    {
      Node(members.Value(), addr, lastSeq, pending)
    }

    constructor (members: MemberList, addr: Addr, suspicionTimeout: nat)
      ensures this.members == members && this.addr == addr && this.suspicionTimeout == suspicionTimeout
      ensures Value() == Node(members.Value(), addr, 0, map[])
    {
      this.members, this.addr, this.suspicionTimeout := members, addr, suspicionTimeout;
      lastSeq, pending := 0, map[];
    }

    method NextSeq() returns (seqNo: nat)
      modifies this`lastSeq
      ensures seqNo == lastSeq == old(lastSeq) + 1
    {
      lastSeq := lastSeq + 1;
      seqNo := lastSeq;
    }

    // Start a probe cycle, or skip it if there is nobody to probe.
    method BeginProbe(targets: seq<NodeId>, listing: seq<NodeId>) returns (begun: Option<(NodeId, Message)>)
      requires ListsTargets(targets, members.Value())
      requires forall x | x in listing :: x in members.members
      modifies this
      ensures begun.None? <==> forall x :: !ProbeTarget(old(members.Value()), x)
      ensures begun.None? ==> Value() == old(Value())
      ensures begun.Some? ==>
              && begun.value.0 == targets[(old(lastSeq) + 1) % |targets|]
              && (Value(), begun.value.1) == StartProbe(old(Value()), begun.value.0, listing)
    {
      if targets == [] {
        return None;
      }
      assert targets[0] in targets;
      var pick := NextSeq();
      var target := targets[pick % |targets|];
      var seqNo := NextSeq();
      var updates := RecentUpdates(members.Value(), listing, MAX_PIGGYBACK_UPDATES);
      pending := pending[seqNo := Probe(target, false)];
      begun := Some((target, Ping(members.local, addr, seqNo, updates)));
    }

    method FinishProbe(seqNo: nat, target: NodeId, ackSeen: bool, now: nat)
      modifies this, members
      ensures Value() == EndProbe(old(Value()), seqNo, target, ackSeen, now)
    {
      if !ackSeen {
        var _ := members.MarkMemberSuspect(target, now);
      }
      pending := pending - {seqNo};
    }

    // Ask up to three relays for the target.
    method SendIndirectProbes(seqNo: nat, target: NodeId, targetAddr: Addr, relays: seq<NodeId>,
                              listing: seq<NodeId>) returns (out: seq<(Message, Addr)>)
      requires ListsRelays(relays, members.Value(), target)
      requires forall x | x in listing :: x in members.members
      modifies this`pending
      ensures relays == [] ==> out == [] && Value() == old(Value())
      ensures relays != [] ==>
              var (n, pingReq) := AskRelays(old(Value()), seqNo, target, targetAddr, listing);
              && Value() == n
              && |out| == Min(|relays|, INDIRECT_PROBE_COUNT)
              && forall i | 0 <= i < |out| ::
                   && relays[i] in members.members && members.members[relays[i]].state.Alive?
                   && relays[i] != members.local && relays[i] != target
                   && out[i] == (pingReq, members.members[relays[i]].addr)
    {
      var count := Min(|relays|, INDIRECT_PROBE_COUNT);
      out := [];
      if count == 0 {
        return;
      }
      if seqNo in pending {
        pending := pending[seqNo := pending[seqNo].(indirectSent := true)];
      }
      var updates := RecentUpdates(members.Value(), listing, MAX_PIGGYBACK_UPDATES);
      for i := 0 to count
        invariant |out| == i
        invariant forall j | 0 <= j < i ::
                    && RelayCandidate(members.Value(), relays[j], target)
                    && out[j] == (PingReq(members.local, addr, target, targetAddr, seqNo, updates),
                                  members.members[relays[j]].addr)
      {
        assert relays[i] in relays;
        var pingReq := PingReq(members.local, addr, target, targetAddr, seqNo, updates);
        out := out + [(pingReq, members.members[relays[i]].addr)];
      }
    }

    // Send a join to every seed but oneself.
    method JoinSeeds(seeds: seq<Addr>) returns (out: seq<(Message, Addr)>)
      ensures out == Joins(Join(members.local, addr), addr, seeds)
    {
      out := [];
      for i := 0 to |seeds|
        invariant out == Joins(Join(members.local, addr), addr, seeds[..i])
      {
        assert seeds[..i + 1][..i] == seeds[..i];
        if seeds[i] != addr {
          out := out + [(Join(members.local, addr), seeds[i])];
        }
      }
      assert seeds[..|seeds|] == seeds;
    }

    // Take in a message and reply from the view this leaves behind.
    method HandleMessage(msg: Message, now: nat, list: View -> seq<NodeId>) returns (reply: Option<(Message, Addr)>)
      requires forall v, x | x in list(v) :: x in v.members
      modifies this, members
      ensures Value() == TakeIn(old(Value()), msg, now)
      ensures reply == Reply(Value(), msg, list(Value().view))
    {
      members.ApplyUpdates(msg.Piggybacked(), now);
      reply := None;
      match msg {
        case Ping(_, fromAddr, seqNo, _) =>
          var updates := RecentUpdates(members.Value(), list(members.Value()), MAX_PIGGYBACK_UPDATES);
          reply := Some((Ack(members.local, addr, seqNo, updates), fromAddr));
        case PingReq(_, _, _, targetAddr, seqNo, _) =>
          var updates := RecentUpdates(members.Value(), list(members.Value()), MAX_PIGGYBACK_UPDATES);
          reply := Some((Ping(members.local, addr, seqNo, updates), targetAddr));
        case Ack(_, _, seqNo, _) =>
          pending := pending - {seqNo};
        case Join(node, at) =>
          var _ := members.ApplyUpdate(Update(node, at, Alive, 0), now);
          var updates := RecentUpdates(members.Value(), list(members.Value()), MAX_PIGGYBACK_UPDATES);
          reply := Some((Ack(members.local, addr, 0, updates), at));
        case AliveMsg(node, at, incarnation) =>
          var _ := members.ApplyUpdate(Update(node, at, Alive, incarnation), now);
        case SuspectMsg(node, at, incarnation) =>
          var _ := members.ApplyUpdate(Update(node, at, Suspect, incarnation), now);
        case DeadMsg(node, at, incarnation) =>
          var _ := members.ApplyUpdate(Update(node, at, Dead, incarnation), now);
      }
    }

    method ReapSuspects(now: nat)
      modifies members
      ensures members.Value() == Reap(old(members.Value()), now, suspicionTimeout)
    {
      ghost var before := members.Value();
      var suspects := set x | x in members.members && TimedOut(members.Value(), x, now, suspicionTimeout);
      var todo := suspects;
      while todo != {}
        invariant todo <= suspects <= before.members.Keys
        invariant members.Value() == before.(members := members.members)
        invariant members.members.Keys == before.members.Keys
        invariant forall x | x in before.members ::
                    members.members[x] == if x in suspects && x !in todo
                                          then before.members[x].(state := Dead, stateChange := now)
                                          else before.members[x]
        decreases todo
      {
        var x :| x in todo;
        var _ := members.MarkMemberDead(x, now);
        todo := todo - {x};
      }
      assert members.Value() == Reap(before, now, suspicionTimeout);
    }
  }
}
