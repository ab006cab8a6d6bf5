/** Write leases over whole runs: fencing by version and exclusion in time. */
module MetadataLeases {
  import opened Base
  import opened Metadata
  import opened MetadataInvariants

  // The lease version that a response hands out, if any.
  function Issued(r: Response): Option<nat> {
    if r.LeaseReply? && (r.lease.Granted? || r.lease.Renewed?) then Some(r.lease.version) else None
  }

  function LeasesAfter(reqs: seq<Request>, n: nat): LeaseTable
    requires n <= |reqs|
  {
    StateAfter(INITIAL_STATE, reqs, n).leases
  }

  // u can follow t: nothing already issued in t has been changed, only dropped.
  ghost predicate Extends(t: LeaseTable, u: LeaseTable) {
    && t.counter <= u.counter
    && (forall v | v in u.held && u.held[v].version <= t.counter :: v in t.held && t.held[v] == u.held[v])
  }

  lemma ApplyExtends(s: State, req: Request)
    requires KeysAgree(s.catalog)
    ensures Extends(s.leases, Apply(s, req).state.leases)
    ensures match Issued(Apply(s, req).response)
            case Some(n) => n == s.leases.counter + 1 == Apply(s, req).state.leases.counter
            case None => Apply(s, req).state.leases.counter == s.leases.counter
  {
    match req
    case Lease(lease) => LeaseExtends(s.leases, s.catalog.volumes.Keys, lease);
    case CleanupExpiredLeases(_) =>
    case DeleteVolume(_) =>
    case _ => OthersKeepLeases(s, req);
  }

  lemma LeaseExtends(t: LeaseTable, volumes: set<VolumeId>, req: LeaseRequest)
    ensures var (u, answer) := ApplyLease(t, volumes, req);
            && Extends(t, u)
            && match Issued(LeaseReply(answer))
               case Some(n) => n == t.counter + 1 == u.counter
               case None => u.counter == t.counter
  {
  }

  lemma OthersKeepLeases(s: State, req: Request)
    requires KeysAgree(s.catalog) && !req.Lease? && !req.CleanupExpiredLeases? && !req.DeleteVolume?
    ensures Apply(s, req).state.leases == s.leases && Issued(Apply(s, req).response).None?
  {
    if req.CommitExtentMappingBatch? {
      BatchNeverIssues(s.catalog, s.epoch, req.entries);
    }
  }

  lemma {:induction false} BatchNeverIssues(c: Catalog, epoch: nat, entries: seq<CommitEntry>)
    requires KeysAgree(c)
    ensures Issued(CommitBatch(c, epoch, entries).1).None?
    decreases |entries|
  {
    if entries != [] {
      BatchNeverIssues(Commit(c, epoch, entries[0]).0, epoch, entries[1..]);
    }
  }

  lemma {:induction false} RunExtends(reqs: seq<Request>, i: nat, j: nat)
    requires i <= j <= |reqs|
    ensures Extends(LeasesAfter(reqs, i), LeasesAfter(reqs, j))
    decreases j
  {
    if i < j {
      RunExtends(reqs, i, j - 1);
      ApplyExtends(StateAfter(INITIAL_STATE, reqs, j - 1), reqs[j - 1]);
    }
  }

  // ---------- Fencing ----------

  lemma IssuedIsNext(reqs: seq<Request>, i: nat)
    requires i < |reqs| && Issued(ResponseAt(INITIAL_STATE, reqs, i)).Some?
    ensures Issued(ResponseAt(INITIAL_STATE, reqs, i)).value
         == LeasesAfter(reqs, i + 1).counter == LeasesAfter(reqs, i).counter + 1
  {
    ApplyExtends(StateAfter(INITIAL_STATE, reqs, i), reqs[i]);
  }

  // Versions handed out in a run strictly increase, over all volumes together
  // and through deletion and re-creation.
  lemma IssuedVersionsIncrease(reqs: seq<Request>, i: nat, j: nat)
    requires i < j < |reqs|
    requires Issued(ResponseAt(INITIAL_STATE, reqs, i)).Some? && Issued(ResponseAt(INITIAL_STATE, reqs, j)).Some?
    ensures Issued(ResponseAt(INITIAL_STATE, reqs, i)).value < Issued(ResponseAt(INITIAL_STATE, reqs, j)).value
  {
    IssuedIsNext(reqs, i);
    RunExtends(reqs, i + 1, j);
    IssuedIsNext(reqs, j);
  }

  ghost predicate Validates(t: LeaseTable, v: VolumeId, session: SessionId, version: nat, nowMs: nat) {
    ValidateLease(t, v, session, version, nowMs).Ok?
  }

  // Whatever version a volume's writes were checked against, no later state of
  // the run accepts an older one, at any clock reading.
  lemma ValidatedVersionsNeverDecrease(reqs: seq<Request>, i: nat, j: nat, v: VolumeId,
                                       a: SessionId, n: nat, nowA: nat,
                                       b: SessionId, m: nat, nowB: nat)
    requires i <= j <= |reqs|
    requires Validates(LeasesAfter(reqs, i), v, a, n, nowA)
    requires Validates(LeasesAfter(reqs, j), v, b, m, nowB)
    ensures n <= m
  {
    ReachableWellFormed(reqs, i);
    RunExtends(reqs, i, j);
  }

  // A version is good for one session on one volume, in all states of a run.
  lemma OneSessionPerVersion(reqs: seq<Request>, i: nat, j: nat, n: nat,
                             v: VolumeId, a: SessionId, nowA: nat,
                             w: VolumeId, b: SessionId, nowB: nat)
    requires i <= j <= |reqs|
    requires Validates(LeasesAfter(reqs, i), v, a, n, nowA)
    requires Validates(LeasesAfter(reqs, j), w, b, n, nowB)
    ensures v == w && a == b
  {
    ReachableWellFormed(reqs, i);
    RunExtends(reqs, i, j);
  }

  // Right after a lease is issued, write fencing accepts exactly the session and
  // version it was issued to, exactly until the granted time has run out.
  lemma IssuedLeaseValidates(s: State, req: LeaseRequest, session: SessionId, version: nat, nowMs: nat)
    requires KeysAgree(s.catalog) && Issued(Apply(s, Lease(req)).response).Some?
    ensures !req.Release?
    ensures Apply(s, Lease(req)).response.lease.expiresAtMs == req.nowMs + req.ttlMs
    ensures Validates(Apply(s, Lease(req)).state.leases, req.volumeId, session, version, nowMs) <==>
            && session == req.sessionId
            && Issued(Apply(s, Lease(req)).response) == Some(version)
            && nowMs < req.nowMs + req.ttlMs
  {
  }

  // A renewal is issued exactly to the session whose lease still runs.
  lemma RenewOutcome(s: State, v: VolumeId, session: SessionId, nowMs: nat, ttlMs: nat)
    requires KeysAgree(s.catalog)
    ensures Issued(Apply(s, Lease(Renew(v, session, nowMs, ttlMs))).response).Some? <==>
            exists version :: Validates(s.leases, v, session, version, nowMs)
  {
    if v in s.leases.held {
      assert Validates(s.leases, v, session, s.leases.held[v].version, nowMs) <==>
             s.leases.held[v].holder == session && !s.leases.held[v].IsExpired(nowMs);
    }
  }

  // Some other session's write would be accepted on the volume at that time.
  ghost predicate OtherValidates(t: LeaseTable, v: VolumeId, session: SessionId, nowMs: nat) {
    exists other, version :: other != session && Validates(t, v, other, version, nowMs)
  }

  lemma OtherValidatesIff(t: LeaseTable, v: VolumeId, session: SessionId, nowMs: nat)
    ensures OtherValidates(t, v, session, nowMs) <==>
            v in t.held && t.held[v].holder != session && !t.held[v].IsExpired(nowMs)
  {
    if v in t.held {
      assert Validates(t, v, t.held[v].holder, t.held[v].version, nowMs) <==> !t.held[v].IsExpired(nowMs);
    }
  }

  // An acquire, the holder's own included, is granted the next version exactly if
  // the volume exists and no other session's lease on it still runs.
  lemma AcquireIff(s: State, v: VolumeId, session: SessionId, nowMs: nat, ttlMs: nat)
    requires KeysAgree(s.catalog)
    ensures var r := Apply(s, Lease(Acquire(v, session, nowMs, ttlMs)));
            if v !in s.catalog.volumes then r.response == LeaseReply(Denied(NoSuchVolume(v)))
            else if OtherValidates(s.leases, v, session, nowMs) then
              && v in s.leases.held && s.leases.held[v].holder != session
              && r.response == LeaseReply(Denied(HeldByOther(v, s.leases.held[v].holder)))
            else r.response == LeaseReply(Granted(s.leases.counter + 1, nowMs + ttlMs))
  {
    OtherValidatesIff(s.leases, v, session, nowMs);
  }

  // What is recorded of a lease: when it was first granted, until when it runs,
  // and under which version.
  lemma IssuedRecord(s: State, req: LeaseRequest)
    requires KeysAgree(s.catalog) && Issued(Apply(s, Lease(req)).response).Some?
    ensures var r := Apply(s, Lease(req));
            var version := s.leases.counter + 1;
            && !req.Release? && (req.Renew? ==> req.volumeId in s.leases.held)
            && r.response.lease == (if req.Acquire? then Granted(version, req.nowMs + req.ttlMs)
                                    else Renewed(version, req.nowMs + req.ttlMs))
            && var record := if req.Acquire? then
                               VolumeLease(req.volumeId, req.sessionId, req.nowMs, req.nowMs + req.ttlMs, version)
                             else
                               s.leases.held[req.volumeId].(expiresAtMs := req.nowMs + req.ttlMs, version := version);
            && r.state.leases == LeaseTable(s.leases.held[req.volumeId := record], version)
  {
  }

  // Why a renewal, a release or a write is refused: there is no lease, it is
  // somebody else's, its time has run out, or it has been issued anew since.
  lemma DenialReasons(s: State, v: VolumeId, session: SessionId, version: nat, nowMs: nat, ttlMs: nat)
    requires KeysAgree(s.catalog)
    ensures var renewal := Apply(s, Lease(Renew(v, session, nowMs, ttlMs))).response;
            var release := Apply(s, Lease(Release(v, session))).response;
            var write := ValidateLease(s.leases, v, session, version, nowMs);
            if v !in s.leases.held then
              && renewal == LeaseReply(Denied(NoLease(v)))
              && release == LeaseReply(Released)
              && write == Err(NoLease(v))
            else if s.leases.held[v].holder != session then
              var reason := HeldByOther(v, s.leases.held[v].holder);
              && renewal == LeaseReply(Denied(reason))
              && release == LeaseReply(Denied(reason))
              && write == Err(reason)
            else
              && (nowMs >= s.leases.held[v].expiresAtMs ==>
                    renewal == LeaseReply(Denied(LeaseExpired(v))) && write == Err(LeaseExpired(v)))
              && release == LeaseReply(Released)
              && (nowMs < s.leases.held[v].expiresAtMs && version != s.leases.held[v].version ==>
                    write == Err(StaleLeaseVersion(version, s.leases.held[v].version)))
  {
  }

  // After its release or the deletion of its volume, no version validates.
  lemma NothingValidatesAfterRelease(s: State, v: VolumeId, a: SessionId, session: SessionId, version: nat, nowMs: nat)
    requires WellFormed(s)
    ensures v in s.leases.held && s.leases.held[v].holder == a ==>
            !Validates(Apply(s, Lease(Release(v, a))).state.leases, v, session, version, nowMs)
    ensures !Validates(Apply(s, DeleteVolume(v)).state.leases, v, session, version, nowMs)
  {
  }

  // Request i handed version n of volume v to the session.
  ghost predicate IssuedTo(reqs: seq<Request>, i: nat, v: VolumeId, session: SessionId, n: nat)
    requires i < |reqs|
  {
    && Issued(ResponseAt(INITIAL_STATE, reqs, i)) == Some(n)
    && reqs[i].Lease? && reqs[i].lease.volumeId == v && reqs[i].lease.sessionId == session
  }

  lemma ApplyLeaseOrigin(s: State, req: Request, v: VolumeId)
    requires KeysAgree(s.catalog) && v in Apply(s, req).state.leases.held
    ensures var lease := Apply(s, req).state.leases.held[v];
            || (v in s.leases.held && s.leases.held[v] == lease)
            || (&& Issued(Apply(s, req).response) == Some(lease.version)
                && req.Lease? && req.lease.volumeId == v && req.lease.sessionId == lease.holder)
  {
  }

  // Only what was issued can be held: every lease of a reachable state was
  // handed to its holder by an earlier request.
  lemma {:induction false} HeldWasIssued(reqs: seq<Request>, n: nat, v: VolumeId)
    requires n <= |reqs| && v in LeasesAfter(reqs, n).held
    ensures exists i :: (0 <= i < n &&
              IssuedTo(reqs, i, v, LeasesAfter(reqs, n).held[v].holder, LeasesAfter(reqs, n).held[v].version))
  {
    ApplyLeaseOrigin(StateAfter(INITIAL_STATE, reqs, n - 1), reqs[n - 1], v);
    var lease := LeasesAfter(reqs, n).held[v];
    if v in LeasesAfter(reqs, n - 1).held && LeasesAfter(reqs, n - 1).held[v] == lease {
      HeldWasIssued(reqs, n - 1, v);
    } else {
      assert IssuedTo(reqs, n - 1, v, lease.holder, lease.version);
    }
  }

  // ---------- Exclusion in time ----------

  // Request i gave session a the lease of v until `expiry`.
  ghost predicate GivesLease(reqs: seq<Request>, i: nat, v: VolumeId, a: SessionId, expiry: nat)
    requires i < |reqs|
  {
    && reqs[i].Lease? && reqs[i].lease.volumeId == v && reqs[i].lease.sessionId == a
    && Issued(ResponseAt(INITIAL_STATE, reqs, i)).Some?
    && ResponseAt(INITIAL_STATE, reqs, i).lease.expiresAtMs == expiry
  }

  // Request k neither issues a lease on v, nor deletes v, nor releases a's lease on v.
  ghost predicate Keeps(reqs: seq<Request>, k: nat, v: VolumeId, a: SessionId)
    requires k < |reqs|
  {
    && !(Issued(ResponseAt(INITIAL_STATE, reqs, k)).Some? && reqs[k].Lease? && reqs[k].lease.volumeId == v)
    && reqs[k] != DeleteVolume(v)
    && reqs[k] != Lease(Release(v, a))
  }

  predicate Cleans(req: Request, expiry: nat) {
    req.CleanupExpiredLeases? && req.nowMs >= expiry
  }

  // Some cleanup among requests i+1 .. j-1 was stamped at or after the expiry.
  ghost predicate CleanedBetween(reqs: seq<Request>, i: nat, j: nat, expiry: nat)
    requires j <= |reqs|
  {
    exists k :: i < k < j && Cleans(reqs[k], expiry)
  }

  ghost predicate HoldsUntil(t: LeaseTable, v: VolumeId, a: SessionId, expiry: nat) {
    v in t.held && t.held[v].holder == a && t.held[v].expiresAtMs == expiry
  }

  lemma ApplyGives(s: State, req: Request)
    requires WellFormed(s) && req.Lease? && Issued(Apply(s, req).response).Some?
    ensures var r := Apply(s, req);
            HoldsUntil(r.state.leases, req.lease.volumeId, req.lease.sessionId, r.response.lease.expiresAtMs)
            && req.lease.volumeId in r.state.catalog.volumes
  {
  }

  lemma LeaseRequestKeepsLease(t: LeaseTable, volumes: set<VolumeId>, req: LeaseRequest, v: VolumeId, a: SessionId)
    requires v in t.held ==> t.held[v].holder == a
    requires !(Issued(LeaseReply(ApplyLease(t, volumes, req).1)).Some? && req.volumeId == v)
    requires req != Release(v, a)
    ensures var u := ApplyLease(t, volumes, req).0;
            (v in u.held <==> v in t.held) && (v in t.held ==> u.held[v] == t.held[v])
  {
  }

  lemma ApplyKeepsLease(s: State, req: Request, v: VolumeId, a: SessionId, expiry: nat)
    requires KeysAgree(s.catalog) && v in s.catalog.volumes
    requires v in s.leases.held ==> HoldsUntil(s.leases, v, a, expiry)
    requires !(Issued(Apply(s, req).response).Some? && req.Lease? && req.lease.volumeId == v)
    requires req != DeleteVolume(v) && req != Lease(Release(v, a))
    ensures var t := Apply(s, req).state;
            && v in t.catalog.volumes
            && (v in t.leases.held ==> HoldsUntil(t.leases, v, a, expiry))
            && (v in t.leases.held <==> v in s.leases.held && !Cleans(req, expiry))
  {
    ApplyKeepsVolume(s, req, v);
    if req.Lease? {
      LeaseRequestKeepsLease(s.leases, s.catalog.volumes.Keys, req.lease, v, a);
    }
  }

  lemma ApplyKeepsVolume(s: State, req: Request, v: VolumeId)
    requires KeysAgree(s.catalog) && v in s.catalog.volumes && req != DeleteVolume(v)
    ensures v in Apply(s, req).state.catalog.volumes
  {
    if req.CommitExtentMappingBatch? {
      BatchKeepsVolumes(s.catalog, s.epoch, req.entries);
    }
  }

  lemma {:induction false} BatchKeepsVolumes(c: Catalog, epoch: nat, entries: seq<CommitEntry>)
    requires KeysAgree(c)
    ensures CommitBatch(c, epoch, entries).0.volumes == c.volumes
    decreases |entries|
  {
    if entries != [] {
      BatchKeepsVolumes(Commit(c, epoch, entries[0]).0, epoch, entries[1..]);
    }
  }

  // The lease of v at point j is still the one given, unless it is gone.
  ghost predicate GivenOrGone(reqs: seq<Request>, j: nat, v: VolumeId, a: SessionId, expiry: nat, gone: bool)
    requires j <= |reqs|
  {
    var s := StateAfter(INITIAL_STATE, reqs, j);
    && v in s.catalog.volumes
    && (v in s.leases.held ==> HoldsUntil(s.leases, v, a, expiry))
    && (v in s.leases.held <==> !gone)
  }

  lemma GivenAtFirst(reqs: seq<Request>, i: nat, v: VolumeId, a: SessionId, expiry: nat)
    requires i < |reqs| && GivesLease(reqs, i, v, a, expiry)
    ensures GivenOrGone(reqs, i + 1, v, a, expiry, false)
  {
    ReachableWellFormed(reqs, i);
    ApplyGives(StateAfter(INITIAL_STATE, reqs, i), reqs[i]);
  }

  lemma StillGivenOrGone(reqs: seq<Request>, j: nat, v: VolumeId, a: SessionId, expiry: nat, gone: bool)
    requires j < |reqs| && Keeps(reqs, j, v, a) && GivenOrGone(reqs, j, v, a, expiry, gone)
    ensures GivenOrGone(reqs, j + 1, v, a, expiry, gone || Cleans(reqs[j], expiry))
  {
    ApplyKeepsLease(StateAfter(INITIAL_STATE, reqs, j), reqs[j], v, a, expiry);
  }

  lemma OneMoreBetween(reqs: seq<Request>, i: nat, j: nat, expiry: nat)
    requires i < j < |reqs|
    ensures CleanedBetween(reqs, i, j + 1, expiry) <==>
            CleanedBetween(reqs, i, j, expiry) || Cleans(reqs[j], expiry)
  {
  }

  // Left alone, a lease disappears only through a cleanup stamped at or after
  // its expiry.
  lemma {:induction false} LeaseLeftAlone(reqs: seq<Request>, i: nat, j: nat, v: VolumeId,
                                          a: SessionId, expiry: nat)
    requires i < j <= |reqs|
    requires GivesLease(reqs, i, v, a, expiry)
    requires forall k | i < k < j :: Keeps(reqs, k, v, a)
    ensures GivenOrGone(reqs, j, v, a, expiry, CleanedBetween(reqs, i, j, expiry))
    decreases j
  {
    if j == i + 1 {
      GivenAtFirst(reqs, i, v, a, expiry);
      assert !CleanedBetween(reqs, i, i + 1, expiry);
    } else {
      LeaseLeftAlone(reqs, i, j - 1, v, a, expiry);
      StillGivenOrGone(reqs, j - 1, v, a, expiry, CleanedBetween(reqs, i, j - 1, expiry));
      OneMoreBetween(reqs, i, j - 1, expiry);
    }
  }

  // Request i gave a the lease of v until the expiry, requests i+1 .. j-1 leave
  // it alone, and request j is another session's acquire of v.
  ghost predicate Contends(reqs: seq<Request>, i: nat, j: nat, v: VolumeId, a: SessionId, expiry: nat) {
    && i < j < |reqs|
    && GivesLease(reqs, i, v, a, expiry)
    && (forall k | i < k < j :: Keeps(reqs, k, v, a))
    && reqs[j].Lease? && reqs[j].lease.Acquire?
    && reqs[j].lease.volumeId == v && reqs[j].lease.sessionId != a
  }

  // While a's last lease on v is neither released nor deleted, another session's
  // acquire succeeds exactly when it is stamped at or after that lease's expiry,
  // or a cleanup so stamped came first. No assumption on clocks is made.
  lemma OtherSessionAcquiresIff(reqs: seq<Request>, i: nat, j: nat, v: VolumeId, a: SessionId, expiry: nat)
    requires Contends(reqs, i, j, v, a, expiry)
    ensures Issued(ResponseAt(INITIAL_STATE, reqs, j)).Some? <==>
            reqs[j].lease.nowMs >= expiry || CleanedBetween(reqs, i, j, expiry)
  {
    LeaseLeftAlone(reqs, i, j, v, a, expiry);
    var req := reqs[j].lease;
    AcquireIff(StateAfter(INITIAL_STATE, reqs, j), v, req.sessionId, req.nowMs, req.ttlMs);
    OtherValidatesIff(LeasesAfter(reqs, j), v, req.sessionId, req.nowMs);
  }

  lemma OwnAcquireGranted(s: State, v: VolumeId, a: SessionId, nowMs: nat, ttlMs: nat)
    requires KeysAgree(s.catalog) && v in s.catalog.volumes
    requires v in s.leases.held ==> s.leases.held[v].holder == a
    ensures Apply(s, Lease(Acquire(v, a, nowMs, ttlMs))).response
         == LeaseReply(Granted(s.leases.counter + 1, nowMs + ttlMs))
  {
    AcquireIff(s, v, a, nowMs, ttlMs);
    OtherValidatesIff(s.leases, v, a, nowMs);
  }

  // Meanwhile the holder may acquire again at any time, expired or not, cleaned up
  // or not, and is given the next version.
  lemma HolderAcquiresAgain(reqs: seq<Request>, i: nat, j: nat, v: VolumeId, a: SessionId, expiry: nat,
                            nowMs: nat, ttlMs: nat)
    requires i < j < |reqs| && GivesLease(reqs, i, v, a, expiry)
    requires forall k | i < k < j :: Keeps(reqs, k, v, a)
    requires reqs[j] == Lease(Acquire(v, a, nowMs, ttlMs))
    ensures ResponseAt(INITIAL_STATE, reqs, j) == LeaseReply(Granted(LeasesAfter(reqs, j).counter + 1, nowMs + ttlMs))
  {
    LeaseLeftAlone(reqs, i, j, v, a, expiry);
    OwnAcquireGranted(StateAfter(INITIAL_STATE, reqs, j), v, a, nowMs, ttlMs);
  }

  // A release by another session is refused, and changes nothing, until the lease
  // has been cleaned up; the holder's own release always succeeds.
  lemma ReleaseOutcome(reqs: seq<Request>, i: nat, j: nat, v: VolumeId, a: SessionId, b: SessionId, expiry: nat)
    requires i < j < |reqs| && GivesLease(reqs, i, v, a, expiry)
    requires forall k | i < k < j :: Keeps(reqs, k, v, a)
    requires reqs[j] == Lease(Release(v, b))
    ensures ResponseAt(INITIAL_STATE, reqs, j)
         == if a != b && !CleanedBetween(reqs, i, j, expiry) then LeaseReply(Denied(HeldByOther(v, a)))
            else LeaseReply(Released)
    ensures LeasesAfter(reqs, j + 1).held
         == if a == b then LeasesAfter(reqs, j).held - {v} else LeasesAfter(reqs, j).held
  {
    LeaseLeftAlone(reqs, i, j, v, a, expiry);
    DenialReasons(StateAfter(INITIAL_STATE, reqs, j), v, b, 0, 0, 0);
  }

  function Expired(held: map<VolumeId, VolumeLease>, nowMs: nat): set<VolumeId> {
    set v | v in held && nowMs >= held[v].expiresAtMs
  }

  lemma LiveAndExpired(held: map<VolumeId, VolumeLease>, nowMs: nat)
    ensures LiveLeases(held, nowMs) == held - Expired(held, nowMs)
    ensures |held| - |LiveLeases(held, nowMs)| == |Expired(held, nowMs)|
  {
    var kept, expired := LiveLeases(held, nowMs), Expired(held, nowMs);
    assert kept.Keys == held.Keys - expired;
    assert held.Keys == kept.Keys + expired;
    assert |held.Keys| == |kept.Keys| + |expired|;
  }

  // A cleanup takes exactly the leases whose time has run out, and says how many.
  lemma CleanupOutcome(s: State, nowMs: nat)
    requires KeysAgree(s.catalog)
    ensures var expired := Expired(s.leases.held, nowMs);
            var r := Apply(s, CleanupExpiredLeases(nowMs));
            && r.state == s.(leases := s.leases.(held := s.leases.held - expired))
            && r.response == LeasesCleanedUp(|expired|)
  {
    LiveAndExpired(s.leases.held, nowMs);
  }

  // The clock reading a request carries, if it carries one.
  function Clock(req: Request): Option<nat> {
    match req
    case Lease(Acquire(_, _, nowMs, _)) => Some(nowMs)
    case Lease(Renew(_, _, nowMs, _)) => Some(nowMs)
    case CleanupExpiredLeases(nowMs) => Some(nowMs)
    case _ => None
  }

  ghost predicate ClockNeverGoesBack(reqs: seq<Request>) {
    forall i, j | 0 <= i < j < |reqs| && Clock(reqs[i]).Some? && Clock(reqs[j]).Some? ::
      Clock(reqs[i]).value <= Clock(reqs[j]).value
  }

  // With clocks that never go back, a lease passes to another session only at
  // or after the last expiry given to its holder.
  lemma LeaseExclusion(reqs: seq<Request>, i: nat, j: nat, v: VolumeId, a: SessionId, expiry: nat)
    requires ClockNeverGoesBack(reqs)
    requires Contends(reqs, i, j, v, a, expiry)
    ensures Issued(ResponseAt(INITIAL_STATE, reqs, j)).Some? <==> reqs[j].lease.nowMs >= expiry
  {
    OtherSessionAcquiresIff(reqs, i, j, v, a, expiry);
    if CleanedBetween(reqs, i, j, expiry) {
      var k :| i < k < j && Cleans(reqs[k], expiry);
      assert Clock(reqs[k]).value <= Clock(reqs[j]).value;
    }
  }

  // A clock that runs ahead for one cleanup and then goes back hands out the
  // lease while the first holder still counts on it.
  lemma ClockGoingBackBreaksExclusion()
    returns (reqs: seq<Request>, i: nat, j: nat, v: VolumeId, a: SessionId, expiry: nat)
    ensures Contends(reqs, i, j, v, a, expiry)
    ensures Issued(ResponseAt(INITIAL_STATE, reqs, j)).Some? && reqs[j].lease.nowMs < expiry
  {
    v, a, i, j, expiry := VolumeId(1), SessionId(1), 1, 3, 100;
    reqs := [CreateVolume(v, 0, Replicated(1), 0), Lease(Acquire(v, a, 0, 100)),
             CleanupExpiredLeases(200), Lease(Acquire(v, SessionId(2), 50, 100))];
    var s1 := StateAfter(INITIAL_STATE, reqs, 1);
    assert s1 == Apply(StateAfter(INITIAL_STATE, reqs, 0), reqs[0]).state;
    assert v in s1.catalog.volumes && s1.leases == LeaseTable(map[], 0);
    assert GivesLease(reqs, 1, v, a, 100);
    assert Keeps(reqs, 2, v, a);
    assert Cleans(reqs[2], 100);
    OtherSessionAcquiresIff(reqs, 1, 3, v, a, 100);
  }
}
