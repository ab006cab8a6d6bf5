/** Applying log entries to the metadata state, in batches or one by one. */
module LogReplay {
  import opened Base
  import opened Metadata
  import opened MetadataInvariants
  import Index = MetadataIndex

  datatype Payload =
    | Blank
    | Normal(req: Request)
    | Membership(voters: set<nat>)

  datatype Entry = Entry(logId: LogId, payload: Payload)

  datatype Outcome = Outcome(state: State, responses: seq<Response>)

  predicate Valid(s: State) {
    KeysAgree(s.catalog)
  }

  function ApplyEntry(s: State, e: Entry): (r: Applied)
    requires Valid(s)
    ensures Valid(r.state)
  {
    var marked := s.(lastApplied := Some(e.logId));
    match e.payload
    case Blank => Applied(marked, Done)
    case Normal(req) => Apply(marked, req)
    case Membership(voters) =>
      Applied(marked.(membership := StoredMembership(Some(e.logId), voters)), Done)
  }

  // The state and the responses after applying the entries in order.
  function Replay(s: State, entries: seq<Entry>): (r: Outcome)
    requires Valid(s)
    ensures Valid(r.state) && |r.responses| == |entries|
  {
    if entries == [] then Outcome(s, [])
    else
      var last := |entries| - 1;
      var before := Replay(s, entries[..last]);
      var r := ApplyEntry(before.state, entries[last]);
      Outcome(r.state, before.responses + [r.response])
  }

  lemma ReplayOneMore(s: State, entries: seq<Entry>, i: nat)
    requires Valid(s) && i < |entries|
    ensures var before := Replay(s, entries[..i]);
            var r := ApplyEntry(before.state, entries[i]);
            Replay(s, entries[..i + 1]) == Outcome(r.state, before.responses + [r.response])
  {
    assert entries[..i + 1][..i] == entries[..i];
  }

  // Any split of a log into two batches gives the same state and responses.
  lemma {:induction false} ReplayInBatches(s: State, a: seq<Entry>, b: seq<Entry>)
    requires Valid(s)
    ensures var first := Replay(s, a);
            var second := Replay(first.state, b);
            Replay(s, a + b) == Outcome(second.state, first.responses + second.responses)
    decreases |b|
  {
    if b == [] {
      assert a + b == a;
    } else {
      var last := |b| - 1;
      ReplayInBatches(s, a, b[..last]);
      assert (a + b)[..|a + b| - 1] == a + b[..last];
    }
  }

  // Any way at all of cutting a log into batches.
  function Joined(batches: seq<seq<Entry>>): seq<Entry> {
    if batches == [] then [] else Joined(batches[..|batches| - 1]) + batches[|batches| - 1]
  }

  function ReplayBatches(s: State, batches: seq<seq<Entry>>): (r: Outcome)
    requires Valid(s)
    ensures Valid(r.state)
  {
    if batches == [] then Outcome(s, [])
    else
      var before := ReplayBatches(s, batches[..|batches| - 1]);
      var last := Replay(before.state, batches[|batches| - 1]);
      Outcome(last.state, before.responses + last.responses)
  }

  lemma {:induction false} BatchingIsIrrelevant(s: State, batches: seq<seq<Entry>>)
    requires Valid(s)
    ensures ReplayBatches(s, batches) == Replay(s, Joined(batches))
    decreases |batches|
  {
    if batches != [] {
      var last := |batches| - 1;
      BatchingIsIrrelevant(s, batches[..last]);
      ReplayInBatches(s, Joined(batches[..last]), batches[last]);
    }
  }

  // ---------- Positions in a log ----------

  // Entry i of the log carries index i.
  ghost predicate Numbered(log: seq<Entry>) {
    forall i | 0 <= i < |log| :: log[i].logId.index == i
  }

  // The state after the first n entries of the log.
  function At(log: seq<Entry>, n: nat): State
    requires n <= |log|
  {
    Replay(INITIAL_STATE, log[..n]).state
  }

  // How many entries a state says it has applied.
  function AppliedCount(s: State): nat {
    if s.lastApplied.None? then 0 else s.lastApplied.value.index + 1
  }

  lemma RequestKeepsRaftMarks(s: State, req: Request)
    requires KeysAgree(s.catalog)
    ensures Apply(s, req).state.lastApplied == s.lastApplied
    ensures Apply(s, req).state.membership == s.membership
  {
  }

  lemma CountMatches(log: seq<Entry>, n: nat)
    requires Numbered(log) && n <= |log|
    ensures AppliedCount(At(log, n)) == n
  {
    if n > 0 {
      ReplayOneMore(INITIAL_STATE, log, n - 1);
      var e := log[n - 1];
      if e.payload.Normal? {
        RequestKeepsRaftMarks(Replay(INITIAL_STATE, log[..n - 1]).state.(lastApplied := Some(e.logId)), e.payload.req);
      }
    }
  }

  // The membership that the first n entries of the log leave: that of the last
  // membership entry among them, under its id.
  function MembershipAt(log: seq<Entry>, n: nat): StoredMembership
    requires n <= |log|
  {
    if n == 0 then StoredMembership(None, {})
    else if log[n - 1].payload.Membership? then StoredMembership(Some(log[n - 1].logId), log[n - 1].payload.voters)
    else MembershipAt(log, n - 1)
  }

  lemma {:induction false} LastMembershipDecides(log: seq<Entry>, k: nat, n: nat)
    requires k < n <= |log| && log[k].payload.Membership?
    requires forall j | k < j < n :: !log[j].payload.Membership?
    ensures MembershipAt(log, n) == StoredMembership(Some(log[k].logId), log[k].payload.voters)
    decreases n
  {
    if k < n - 1 {
      LastMembershipDecides(log, k, n - 1);
    }
  }

  // The raft marks of a state are those that the first n entries of the log leave.
  ghost predicate MarksOf(log: seq<Entry>, n: nat, s: State)
    requires n <= |log|
  {
    && s.lastApplied == (if n == 0 then None else Some(log[n - 1].logId))
    && s.membership == MembershipAt(log, n)
  }

  lemma EntrySetsMarks(s: State, e: Entry)
    requires Valid(s)
    ensures ApplyEntry(s, e).state.lastApplied == Some(e.logId)
    ensures ApplyEntry(s, e).state.membership
         == if e.payload.Membership? then StoredMembership(Some(e.logId), e.payload.voters) else s.membership
  {
    if e.payload.Normal? {
      RequestKeepsRaftMarks(s.(lastApplied := Some(e.logId)), e.payload.req);
    }
  }

  lemma {:induction false} MarksFollowLog(log: seq<Entry>, n: nat)
    requires n <= |log|
    ensures MarksOf(log, n, At(log, n))
  {
    if n > 0 {
      MarksFollowLog(log, n - 1);
      ReplayOneMore(INITIAL_STATE, log, n - 1);
      EntrySetsMarks(At(log, n - 1), log[n - 1]);
    }
  }

  // Continuing from the state after n entries reaches the state after m, with
  // the responses an uninterrupted run gives to entries n .. m-1.
  lemma ResumeAt(log: seq<Entry>, n: nat, m: nat)
    requires n <= m <= |log|
    ensures Replay(At(log, n), log[n..m]).state == At(log, m)
    ensures Replay(At(log, n), log[n..m]).responses == Replay(INITIAL_STATE, log[..m]).responses[n..]
  {
    ReplayInBatches(INITIAL_STATE, log[..n], log[n..m]);
    assert log[..n] + log[n..m] == log[..m];
  }

  // ---------- The log as a run of requests ----------

  // The requests among the entries; the other entries only move raft marks.
  function Requests(entries: seq<Entry>): seq<Request> {
    if entries == [] then []
    else
      var last := entries[|entries| - 1].payload;
      Requests(entries[..|entries| - 1]) + (if last.Normal? then [last.req] else [])
  }

  function WithMarks(s: State, marks: State): State {
    s.(lastApplied := marks.lastApplied, membership := marks.membership)
  }

  lemma RequestIgnoresRaftMarks(s: State, marks: State, req: Request)
    requires KeysAgree(s.catalog)
    ensures Apply(WithMarks(s, marks), req).state == WithMarks(Apply(s, req).state, marks)
  {
  }

  lemma {:induction false} PrefixOfRun(s: State, reqs: seq<Request>, more: seq<Request>, n: nat)
    requires KeysAgree(s.catalog) && n <= |reqs|
    ensures StateAfter(s, reqs + more, n) == StateAfter(s, reqs, n)
  {
    if n > 0 {
      PrefixOfRun(s, reqs, more, n - 1);
    }
  }

  // Apart from the raft marks, replaying a log runs its requests in order.
  lemma {:induction false} ReplayIsRun(entries: seq<Entry>)
    ensures Replay(INITIAL_STATE, entries).state
         == WithMarks(StateAfter(INITIAL_STATE, Requests(entries), |Requests(entries)|),
                      Replay(INITIAL_STATE, entries).state)
    decreases |entries|
  {
    if entries != [] {
      var front, last := entries[..|entries| - 1], entries[|entries| - 1];
      ReplayIsRun(front);
      if last.payload.Normal? {
        var reqs := Requests(front);
        var before := StateAfter(INITIAL_STATE, reqs, |reqs|);
        PrefixOfRun(INITIAL_STATE, reqs, [last.payload.req], |reqs|);
        var marked := Replay(INITIAL_STATE, front).state.(lastApplied := Some(last.logId));
        assert marked == WithMarks(before, marked);
        RequestIgnoresRaftMarks(before, marked, last.payload.req);
      } else {
        assert Requests(entries) == Requests(front);
      }
    }
  }

  lemma {:induction false} RequestsPrefix(entries: seq<Entry>, i: nat)
    requires i <= |entries|
    ensures Requests(entries[..i]) <= Requests(entries)
    ensures i < |entries| && entries[i].payload.Normal? ==>
            |Requests(entries[..i])| < |Requests(entries)|
            && Requests(entries)[|Requests(entries[..i])|] == entries[i].payload.req
    decreases |entries|
  {
    if i == |entries| {
      assert entries[..i] == entries;
    } else {
      var front := entries[..|entries| - 1];
      assert front[..i] == entries[..i];
      if i < |front| {
        RequestsPrefix(front, i);
      }
    }
  }

  // Entry i of a replay is answered as its request is in that run; entries that
  // carry none are answered with nothing in particular.
  lemma ReplayAnswers(entries: seq<Entry>, i: nat)
    requires i < |entries|
    ensures var answer := Replay(INITIAL_STATE, entries).responses[i];
            var k := |Requests(entries[..i])|;
            if entries[i].payload.Normal? then
              k < |Requests(entries)| && answer == ResponseAt(INITIAL_STATE, Requests(entries), k)
            else answer == Done
  {
    AnswerOfEntry(entries, i);
    if entries[i].payload.Normal? {
      var reqs, all := Requests(entries[..i]), Requests(entries);
      RequestsPrefix(entries, i);
      ReplayIsRun(entries[..i]);
      assert all == reqs + all[|reqs|..];
      PrefixOfRun(INITIAL_STATE, reqs, all[|reqs|..], |reqs|);
      var before := At(entries, i).(lastApplied := Some(entries[i].logId));
      RequestAnswerIgnoresMarks(StateAfter(INITIAL_STATE, reqs, |reqs|), before, entries[i].payload.req);
    }
  }

  lemma RequestAnswerIgnoresMarks(s: State, marks: State, req: Request)
    requires KeysAgree(s.catalog)
    ensures Apply(WithMarks(s, marks), req).response == Apply(s, req).response
  {
  }

  lemma AnswerOfEntry(entries: seq<Entry>, i: nat)
    requires i < |entries|
    ensures Replay(INITIAL_STATE, entries).responses[i] == ApplyEntry(At(entries, i), entries[i]).response
  {
    ReplayOneMore(INITIAL_STATE, entries, i);
    FirstResponses(INITIAL_STATE, entries, i + 1);
  }

  lemma FirstResponses(s: State, entries: seq<Entry>, n: nat)
    requires Valid(s) && n <= |entries|
    ensures Replay(s, entries[..n]).responses == Replay(s, entries).responses[..n]
  {
    ReplayInBatches(s, entries[..n], entries[n..]);
    assert entries[..n] + entries[n..] == entries;
  }

  // So whatever holds of every run holds of every replayed state.
  lemma ReplayedIsWellFormed(entries: seq<Entry>)
    ensures WellFormed(Replay(INITIAL_STATE, entries).state)
    ensures Index.Sound(Replay(INITIAL_STATE, entries).state.catalog)
  {
    var reqs := Requests(entries);
    ReplayIsRun(entries);
    ReachableWellFormed(reqs, |reqs|);
    Index.ReachableIndexesSound(reqs, |reqs|);
  }
}
