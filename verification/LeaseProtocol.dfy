/**
 The service-identity protocol as a small-step system: any number of
 `RequestServiceIdentity` calls, `ExtendIdentityLease` calls and garbage
 collector replicas, interleaved freely over the OpenZiti controller and the
 `service_identities` table. Every remote call is one atomic step with an
 outcome, a `Done` delete being "deleted" or "not found"; a step may be the crash
 of the process that was to make the next call.
 */
module LeaseProtocol {
  import opened RemoteCalls

  /** A lease as it was written: `lease_expires_at`, and the database-clock
      instant at which the server computed it. */
  datatype Lease = Lease(expires: int, base: int)

  /** Where a `RequestServiceIdentity` call stands. */
  datatype Request =
    | Created(id: string)                     // created in the controller, not enrolled
    | Enrolled(id: string)                    // enrolled, lease not computed
    | LeaseComputed(id: string, lease: Lease) // INSERT is next
    | CleaningUp(id: string)                  // the compensating delete is next

  /** An `ExtendIdentityLease` call whose UPDATE is next. */
  datatype Extension = Extension(id: string, lease: Lease)

  /** A row as `ListExpiredServiceIdentities` returned it. */
  datatype Entry = Entry(id: string, expires: int)

  /** Where a garbage collector replica stands in its loop over expired rows. */
  datatype Sweeper =
    | DeletingIdentity(work: seq<Entry>) // the controller delete of work[0] is next
    | DeletingRow(work: seq<Entry>)      // the row delete of work[0] is next

  datatype State = State(
    now: int,                        // the database clock
    live: set<string>,               // service identities in the controller
    used: set<string>,               // every identity id the controller ever gave out
    rows: map<string, int>,          // service_identities: id to lease_expires_at
    requests: map<nat, Request>,
    extensions: map<nat, Extension>,
    sweepers: map<nat, Sweeper>,     // replicas in mid-sweep
    issued: set<string>,             // history: ids handed to a caller
    leases: map<string, Lease>)      // history: the last lease written for each id

  datatype Step =
    | Tick(delta: nat)
    | Create(r: nat, newId: string)
    | CreateUnanswered(newId: string)
    | Enroll(r: nat, ok: bool)
    | ComputeLease(r: nat, reading: int)
    | Insert(r: nat, outcome: Outcome)
    | CleanUp(r: nat, outcome: Outcome)
    | CrashRequest(r: nat)
    | BeginExtend(c: nat, id: string, reading: int)
    | CommitExtend(c: nat, outcome: Outcome)
    | CrashExtend(c: nat)
    | ListExpired(w: nat, listing: seq<Entry>)
    | SweepIdentity(w: nat, outcome: Outcome)
    | SweepRow(w: nat, outcome: Outcome)
    | CrashSweeper(w: nat)
    | DeleteElsewhere(id: string) // any other caller deletes the identity

  function Init(now: int): State {
    State(now, {}, {}, map[], map[], map[], map[], {}, map[])
  }

  /** The rows `lease_expires_at < NOW() ORDER BY lease_expires_at ASC` selects. */
  ghost predicate IsExpiredListing(s: State, listing: seq<Entry>) {
    && (forall i :: 0 <= i < |listing| ==>
          && listing[i].id in s.rows
          && listing[i].expires == s.rows[listing[i].id]
          && listing[i].expires < s.now)
    && (forall i, j :: 0 <= i < j < |listing| ==> listing[i].id != listing[j].id)
    && (forall i, j :: 0 <= i < j < |listing| ==> listing[i].expires <= listing[j].expires)
    && (forall id :: id in s.rows && s.rows[id] < s.now ==> Entry(id, s.rows[id]) in listing)
  }

  ghost predicate Enabled(s: State, step: Step) {
    match step
    case Tick(_) => true
    case Create(r, id) => r !in s.requests && id !in s.used
    case CreateUnanswered(id) => id !in s.used
    case Enroll(r, _) => r in s.requests && s.requests[r].Created?
    case ComputeLease(r, _) => r in s.requests && s.requests[r].Enrolled?
    case Insert(r, outcome) =>
      && r in s.requests && s.requests[r].LeaseComputed?
      && (s.requests[r].id in s.rows ==> outcome.Failed?) // primary key
    case CleanUp(r, _) => r in s.requests && s.requests[r].CleaningUp?
    case CrashRequest(r) => r in s.requests
    case BeginExtend(c, _, _) => c !in s.extensions
    case CommitExtend(c, _) => c in s.extensions
    case CrashExtend(c) => c in s.extensions
    case ListExpired(w, listing) => w !in s.sweepers && IsExpiredListing(s, listing)
    case SweepIdentity(w, _) =>
      w in s.sweepers && s.sweepers[w].DeletingIdentity? && s.sweepers[w].work != []
    case SweepRow(w, _) =>
      w in s.sweepers && s.sweepers[w].DeletingRow? && s.sweepers[w].work != []
    case CrashSweeper(w) => w in s.sweepers
    case DeleteElsewhere(_) => true
  }

  /** The sweep loop moves to its next entry, or ends. */
  function Continue(sweepers: map<nat, Sweeper>, w: nat, rest: seq<Entry>): map<nat, Sweeper> {
    if rest == [] then sweepers - {w} else sweepers[w := DeletingIdentity(rest)]
  }

  function Apply(ttl: int, s: State, step: Step): State
    requires Enabled(s, step)
  {
    match step
    case Tick(delta) => s.(now := s.now + delta)
    case Create(r, id) =>
      s.(live := s.live + {id}, used := s.used + {id}, requests := s.requests[r := Created(id)])
    case CreateUnanswered(id) =>
      s.(live := s.live + {id}, used := s.used + {id})
    case Enroll(r, ok) =>
      var id := s.requests[r].id;
      s.(requests := s.requests[r := if ok then Enrolled(id) else CleaningUp(id)])
    case ComputeLease(r, reading) =>
      s.(requests := s.requests[r := LeaseComputed(s.requests[r].id, Lease(reading + ttl, s.now))])
    case Insert(r, outcome) =>
      var LeaseComputed(id, lease) := s.requests[r];
      (match outcome
       case Done =>
         s.(rows := s.rows[id := lease.expires], leases := s.leases[id := lease],
            issued := s.issued + {id}, requests := s.requests - {r})
       case Failed =>
         s.(requests := s.requests[r := CleaningUp(id)])
       case Lost =>
         s.(rows := s.rows[id := lease.expires], leases := s.leases[id := lease],
            requests := s.requests[r := CleaningUp(id)]))
    case CleanUp(r, outcome) =>
      s.(live := if outcome.Failed? then s.live else s.live - {s.requests[r].id},
         requests := s.requests - {r})
    case CrashRequest(r) => s.(requests := s.requests - {r})
    case BeginExtend(c, id, reading) =>
      s.(extensions := s.extensions[c := Extension(id, Lease(reading + ttl, s.now))])
    case CommitExtend(c, outcome) =>
      var Extension(id, lease) := s.extensions[c];
      var s' := s.(extensions := s.extensions - {c});
      if outcome.Failed? || id !in s.rows then s'
      else s'.(rows := s.rows[id := lease.expires], leases := s.leases[id := lease])
    case CrashExtend(c) => s.(extensions := s.extensions - {c})
    case ListExpired(w, listing) =>
      if listing == [] then s else s.(sweepers := s.sweepers[w := DeletingIdentity(listing)])
    case SweepIdentity(w, outcome) =>
      var work := s.sweepers[w].work;
      s.(live := if outcome.Failed? then s.live else s.live - {work[0].id},
         sweepers := if outcome.Done? then s.sweepers[w := DeletingRow(work)]
                     else Continue(s.sweepers, w, work[1..]))
    case SweepRow(w, outcome) =>
      var work := s.sweepers[w].work;
      s.(rows := if outcome.Failed? then s.rows else s.rows - {work[0].id},
         sweepers := Continue(s.sweepers, w, work[1..]))
    case CrashSweeper(w) => s.(sweepers := s.sweepers - {w})
    case DeleteElsewhere(id) => s.(live := s.live - {id})
  }

  // ---------------------------------------------------------------- runs

  ghost predicate Legal(ttl: int, s: State, run: seq<Step>)
    decreases |run|
  {
    run == [] ||
    (Enabled(s, run[0]) && Legal(ttl, Apply(ttl, s, run[0]), run[1..]))
  }

  /** The state after the first `n` steps of a run. */
  ghost function After(ttl: int, s: State, run: seq<Step>, n: nat): State
    requires Legal(ttl, s, run) && n <= |run|
    decreases n
  {
    if n == 0 then s else After(ttl, Apply(ttl, s, run[0]), run[1..], n - 1)
  }

  ghost function Final(ttl: int, s: State, run: seq<Step>): State
    requires Legal(ttl, s, run)
  {
    After(ttl, s, run, |run|)
  }

  /** A run steps from each of its states to the next. */
  lemma {:induction false} RunSteps(ttl: int, s: State, run: seq<Step>, n: nat)
    requires Legal(ttl, s, run) && n < |run|
    ensures Enabled(After(ttl, s, run, n), run[n])
    ensures After(ttl, s, run, n + 1) == Apply(ttl, After(ttl, s, run, n), run[n])
    decreases n
  {
    if n > 0 {
      RunSteps(ttl, Apply(ttl, s, run[0]), run[1..], n - 1);
    }
  }

  /** Two runs, the second starting where the first ends, make one run. */
  lemma {:induction false} RunsCompose(ttl: int, s: State, run: seq<Step>, more: seq<Step>)
    requires Legal(ttl, s, run) && Legal(ttl, Final(ttl, s, run), more)
    ensures Legal(ttl, s, run + more)
    ensures Final(ttl, s, run + more) == Final(ttl, Final(ttl, s, run), more)
    ensures forall n :: 0 <= n <= |run| ==> After(ttl, s, run + more, n) == After(ttl, s, run, n)
    decreases |run|
  {
    if run == [] {
      assert run + more == more;
    } else {
      var s' := Apply(ttl, s, run[0]);
      assert (run + more)[0] == run[0] && (run + more)[1..] == run[1..] + more;
      RunsCompose(ttl, s', run[1..], more);
      forall n | 0 <= n <= |run| ensures After(ttl, s, run + more, n) == After(ttl, s, run, n) {
        if n > 0 {
          assert After(ttl, s', run[1..] + more, n - 1) == After(ttl, s', run[1..], n - 1);
        }
      }
    }
  }

  /** A run grows by one step. */
  lemma RunGrows(ttl: int, s: State, run: seq<Step>, step: Step)
    requires Legal(ttl, s, run) && Enabled(Final(ttl, s, run), step)
    ensures Legal(ttl, s, run + [step])
    ensures Final(ttl, s, run + [step]) == Apply(ttl, Final(ttl, s, run), step)
  {
    var s' := Final(ttl, s, run);
    var rest := [step][1..];
    assert rest == [] && Legal(ttl, Apply(ttl, s', step), rest);
    assert Final(ttl, s', [step]) == After(ttl, Apply(ttl, s', step), rest, 0);
    RunsCompose(ttl, s, run, [step]);
  }

  // ---------------------------------------------------------------- invariant

  ghost predicate HeldBy(s: State, r: nat, id: string) {
    r in s.requests && s.requests[r].id == id
  }

  /** `id` belongs to a request still in flight. */
  ghost predicate InFlight(s: State, id: string) {
    exists r :: HeldBy(s, r, id)
  }

  ghost predicate ListedBy(s: State, w: nat, id: string) {
    w in s.sweepers && exists i :: 0 <= i < |s.sweepers[w].work| && s.sweepers[w].work[i].id == id
  }

  /** `id` is in the worklist of some replica. */
  ghost predicate Listed(s: State, id: string) {
    exists w :: ListedBy(s, w, id)
  }

  /** Ids in play were given out by the controller, which never gives one out
      twice; a listed id had a lease. */
  ghost predicate OnlyUsedIds(s: State) {
    && s.live <= s.used
    && (forall id :: id in s.leases ==> id in s.used)
    && s.issued <= s.used
    && (forall r :: r in s.requests ==> s.requests[r].id in s.used)
    && (forall w, i :: w in s.sweepers && 0 <= i < |s.sweepers[w].work| ==>
          s.sweepers[w].work[i].id in s.leases)
  }

  /** A request owns its id alone; until its INSERT the id has no lease, and an
      id in flight was not issued. */
  ghost predicate RequestsOwnTheirIds(s: State) {
    && (forall r, q :: r in s.requests && q in s.requests && r != q ==>
          s.requests[r].id != s.requests[q].id)
    && (forall r :: r in s.requests ==> s.requests[r].id !in s.issued)
    && (forall r :: r in s.requests && !s.requests[r].CleaningUp? ==>
          s.requests[r].id !in s.leases)
  }

  /** The sweep deletes in the controller first and in the table second. */
  ghost predicate IdentityFirst(s: State) {
    forall w :: w in s.sweepers ==>
      && s.sweepers[w].work != []
      && (s.sweepers[w].DeletingRow? ==> s.sweepers[w].work[0].id !in s.live)
  }

  /** A row dropped for an issued id is a definitive loss. */
  ghost predicate RowOrGone(s: State) {
    forall id :: id in s.issued && id !in s.rows ==> id !in s.live
  }

  ghost predicate RowsHoldLastLease(s: State) {
    forall id :: id in s.rows ==> id in s.leases && s.rows[id] == s.leases[id].expires
  }

  ghost predicate Inv(s: State) {
    && OnlyUsedIds(s)
    && RequestsOwnTheirIds(s)
    && IdentityFirst(s)
    && RowOrGone(s)
    && RowsHoldLastLease(s)
  }

  lemma InvCreateSteps(ttl: int, s: State, step: Step)
    requires Inv(s) && Enabled(s, step)
    requires step.Create? || step.CreateUnanswered?
    ensures Inv(Apply(ttl, s, step))
  {
  }

  lemma InvEnrollSteps(ttl: int, s: State, step: Step)
    requires Inv(s) && Enabled(s, step)
    requires step.Enroll? || step.ComputeLease?
    ensures Inv(Apply(ttl, s, step))
  {
  }

  lemma InsertKeepsOwnership(ttl: int, s: State, r: nat, outcome: Outcome)
    requires Inv(s) && Enabled(s, Insert(r, outcome))
    ensures RequestsOwnTheirIds(Apply(ttl, s, Insert(r, outcome)))
  {
    var s' := Apply(ttl, s, Insert(r, outcome));
    var id := s.requests[r].id;
    forall q | q in s'.requests
      ensures s'.requests[q].id !in s'.issued
      ensures !s'.requests[q].CleaningUp? ==> s'.requests[q].id !in s'.leases
    {
      assert s'.requests[q].id == s.requests[q].id;
      assert q != r ==> s.requests[q].id != id;
    }
  }

  lemma InvInsert(ttl: int, s: State, r: nat, outcome: Outcome)
    requires Inv(s) && Enabled(s, Insert(r, outcome))
    ensures Inv(Apply(ttl, s, Insert(r, outcome)))
  {
    InsertKeepsOwnership(ttl, s, r, outcome);
    var s' := Apply(ttl, s, Insert(r, outcome));
    assert OnlyUsedIds(s') by {
      assert s.requests[r].id in s.used;
    }
    assert IdentityFirst(s');
  }

  lemma InvEndOfRequest(ttl: int, s: State, step: Step)
    requires Inv(s) && Enabled(s, step)
    requires step.CleanUp? || step.CrashRequest?
    ensures Inv(Apply(ttl, s, step))
  {
  }

  lemma InvListExpired(ttl: int, s: State, w: nat, listing: seq<Entry>)
    requires Inv(s) && Enabled(s, ListExpired(w, listing))
    ensures Inv(Apply(ttl, s, ListExpired(w, listing)))
  {
  }

  lemma InvSweepIdentity(ttl: int, s: State, step: Step)
    requires Inv(s) && Enabled(s, step) && step.SweepIdentity?
    ensures Inv(Apply(ttl, s, step))
  {
  }

  lemma InvSweepRow(ttl: int, s: State, step: Step)
    requires Inv(s) && Enabled(s, step) && (step.SweepRow? || step.CrashSweeper?)
    ensures Inv(Apply(ttl, s, step))
  {
  }

  lemma InvExtendSteps(ttl: int, s: State, step: Step)
    requires Inv(s) && Enabled(s, step)
    requires step.BeginExtend? || step.CommitExtend? || step.CrashExtend?
    ensures Inv(Apply(ttl, s, step))
  {
  }

  lemma InvStep(ttl: int, s: State, step: Step)
    requires Inv(s) && Enabled(s, step)
    ensures Inv(Apply(ttl, s, step))
  {
    match step
    case Tick(_) =>
    case Create(_, _) => InvCreateSteps(ttl, s, step);
    case CreateUnanswered(_) => InvCreateSteps(ttl, s, step);
    case Enroll(_, _) => InvEnrollSteps(ttl, s, step);
    case ComputeLease(_, _) => InvEnrollSteps(ttl, s, step);
    case Insert(r, outcome) => InvInsert(ttl, s, r, outcome);
    case CleanUp(_, _) => InvEndOfRequest(ttl, s, step);
    case CrashRequest(_) => InvEndOfRequest(ttl, s, step);
    case BeginExtend(_, _, _) => InvExtendSteps(ttl, s, step);
    case CommitExtend(_, _) => InvExtendSteps(ttl, s, step);
    case CrashExtend(_) => InvExtendSteps(ttl, s, step);
    case ListExpired(w, listing) => InvListExpired(ttl, s, w, listing);
    case SweepIdentity(_, _) => InvSweepIdentity(ttl, s, step);
    case SweepRow(_, _) => InvSweepRow(ttl, s, step);
    case CrashSweeper(_) => InvSweepRow(ttl, s, step);
    case DeleteElsewhere(_) =>
  }

  lemma {:induction false} InvRun(ttl: int, s: State, run: seq<Step>, n: nat)
    requires Inv(s) && Legal(ttl, s, run) && n <= |run|
    ensures Inv(After(ttl, s, run, n))
    decreases n
  {
    if n > 0 {
      InvStep(ttl, s, run[0]);
      InvRun(ttl, Apply(ttl, s, run[0]), run[1..], n - 1);
    }
  }

  lemma InvReachable(ttl: int, t0: int, run: seq<Step>, n: nat)
    requires Legal(ttl, Init(t0), run) && n <= |run|
    ensures Inv(After(ttl, Init(t0), run, n))
  {
    InvRun(ttl, Init(t0), run, n);
  }

  // ---------------------------------------------------------------- NotFound is definitive

  /** `ExtendIdentityLease` answers NotFound: the UPDATE touched no row. */
  ghost predicate AnswersNotFound(s: State, step: Step) {
    && step.CommitExtend? && step.c in s.extensions
    && step.outcome.Done? && s.extensions[step.c].id !in s.rows
  }

  /** A row goes only by a sweep's row delete, and only once its identity is gone. */
  lemma RowGoesLast(ttl: int, s: State, step: Step, id: string)
    requires IdentityFirst(s) && Enabled(s, step)
    requires id in s.rows && id !in Apply(ttl, s, step).rows
    ensures step.SweepRow? && s.sweepers[step.w].work[0].id == id && id !in s.live
    ensures Listed(s, id)
  {
    assert ListedBy(s, step.w, id);
  }

  ghost predicate LostForever(s: State, id: string) {
    id in s.issued && id !in s.rows && id !in s.live
  }

  lemma LossLasts(ttl: int, s: State, step: Step, id: string)
    requires Inv(s) && Enabled(s, step) && LostForever(s, id)
    ensures LostForever(Apply(ttl, s, step), id)
  {
  }

  /** NotFound for an id once issued means its identity is already gone from the
      controller, and that neither identity nor row ever comes back. */
  lemma {:induction false} NotFoundIsDefinitive(ttl: int, t0: int, run: seq<Step>, n: nat, k: nat)
    requires Legal(ttl, Init(t0), run) && n < |run| && n <= k <= |run|
    requires AnswersNotFound(After(ttl, Init(t0), run, n), run[n])
    requires After(ttl, Init(t0), run, n).extensions[run[n].c].id in After(ttl, Init(t0), run, n).issued
    ensures LostForever(After(ttl, Init(t0), run, k), After(ttl, Init(t0), run, n).extensions[run[n].c].id)
    decreases k
  {
    if k == n {
      InvReachable(ttl, t0, run, n);
    } else {
      NotFoundIsDefinitive(ttl, t0, run, n, k - 1);
      InvReachable(ttl, t0, run, k - 1);
      RunSteps(ttl, Init(t0), run, k - 1);
      LossLasts(ttl, After(ttl, Init(t0), run, k - 1), run[k - 1],
                  After(ttl, Init(t0), run, n).extensions[run[n].c].id);
    }
  }

  // ---------------------------------------------------------------- no orphans

  /** Live, without a row, and without a request that still answers for it. */
  ghost function Orphans(s: State): set<string> {
    set id | id in s.live && id !in s.rows && !InFlight(s, id)
  }

  /** The id a step gives up on: the create whose reply was lost, the
      compensating delete that failed, the request that crashed. */
  ghost function GivenUpAt(s: State, step: Step): set<string>
    requires Enabled(s, step)
  {
    match step
    case CreateUnanswered(id) => {id}
    case CleanUp(r, outcome) => if outcome.Failed? then {s.requests[r].id} else {}
    case CrashRequest(r) => {s.requests[r].id}
    case _ => {}
  }

  ghost function GivenUp(ttl: int, s: State, run: seq<Step>): set<string>
    requires Legal(ttl, s, run)
    decreases |run|
  {
    if run == [] then {}
    else GivenUpAt(s, run[0]) + GivenUp(ttl, Apply(ttl, s, run[0]), run[1..])
  }

  lemma StillInFlight(ttl: int, s: State, step: Step, id: string)
    requires Inv(s) && Enabled(s, step) && InFlight(s, id)
    requires id in Apply(ttl, s, step).live && id !in Apply(ttl, s, step).rows
    ensures InFlight(Apply(ttl, s, step), id) || id in GivenUpAt(s, step)
  {
    var r :| HeldBy(s, r, id);
    if step.CleanUp? || step.CrashRequest? || step.Insert? {
      StillHeldAtEnd(ttl, s, step, r);
    }
    assert HeldBy(Apply(ttl, s, step), r, id) || id in GivenUpAt(s, step);
  }

  lemma StillHeldAtEnd(ttl: int, s: State, step: Step, r: nat)
    requires Enabled(s, step) && r in s.requests
    requires step.CleanUp? || step.CrashRequest? || step.Insert?
    requires s.requests[r].id in Apply(ttl, s, step).live && s.requests[r].id !in Apply(ttl, s, step).rows
    ensures HeldBy(Apply(ttl, s, step), r, s.requests[r].id) || s.requests[r].id in GivenUpAt(s, step)
  {
  }

  lemma OrphansStep(ttl: int, s: State, step: Step)
    requires Inv(s) && Enabled(s, step)
    ensures Orphans(Apply(ttl, s, step)) <= Orphans(s) + GivenUpAt(s, step)
  {
    var s' := Apply(ttl, s, step);
    forall id | id in Orphans(s') ensures id in Orphans(s) + GivenUpAt(s, step) {
      if InFlight(s, id) {
        StillInFlight(ttl, s, step, id);
      } else if id in s.rows {
        RowGoesLast(ttl, s, step, id);
        assert false;
      } else if id !in s.live {
        assert step.Create? || step.CreateUnanswered?;
        assert step.Create? ==> HeldBy(s', step.r, id);
      }
    }
  }

  /** Over any run, whatever is live either has a row, or is in flight, or was
      given up on by one of the steps of the run. */
  lemma {:induction false} NoOrphan(ttl: int, s: State, run: seq<Step>)
    requires Inv(s) && Legal(ttl, s, run)
    ensures Orphans(Final(ttl, s, run)) <= Orphans(s) + GivenUp(ttl, s, run)
    decreases |run|
  {
    if run != [] {
      OrphansStep(ttl, s, run[0]);
      InvStep(ttl, s, run[0]);
      NoOrphan(ttl, Apply(ttl, s, run[0]), run[1..]);
    }
  }

  predicate Faultless(step: Step) {
    && !step.CreateUnanswered? && !step.CrashRequest?
    && !(step.CleanUp? && step.outcome.Failed?)
  }

  /** Without a crash, a lost create or a failed compensating delete, every live
      service identity has a row or a request in flight; enrollments and INSERTs
      may fail as they like. */
  lemma {:induction false} FaultlessRunsLeaveNoOrphan(ttl: int, t0: int, run: seq<Step>)
    requires Legal(ttl, Init(t0), run)
    requires forall i :: 0 <= i < |run| ==> Faultless(run[i])
    ensures forall id :: id in Final(ttl, Init(t0), run).live ==>
      id in Final(ttl, Init(t0), run).rows || InFlight(Final(ttl, Init(t0), run), id)
  {
    NoOrphan(ttl, Init(t0), run);
    NothingGivenUp(ttl, Init(t0), run);
    forall id | id in Final(ttl, Init(t0), run).live
      ensures id in Final(ttl, Init(t0), run).rows || InFlight(Final(ttl, Init(t0), run), id)
    {
      assert id !in Orphans(Final(ttl, Init(t0), run));
    }
  }

  lemma {:induction false} NothingGivenUp(ttl: int, s: State, run: seq<Step>)
    requires Legal(ttl, s, run)
    requires forall i :: 0 <= i < |run| ==> Faultless(run[i])
    ensures GivenUp(ttl, s, run) == {}
    decreases |run|
  {
    if run != [] {
      assert Faultless(run[0]);
      forall i | 0 <= i < |run[1..]| ensures Faultless(run[1..][i]) {
        assert run[1..][i] == run[i + 1];
      }
      NothingGivenUp(ttl, Apply(ttl, s, run[0]), run[1..]);
    }
  }

  // ---------------------------------------------------------------- renewing in time

  /** The server clock that computes a lease is at most `d` behind the database clock. */
  predicate SkewAtMost(d: int, s: State, step: Step) {
    match step
    case ComputeLease(_, reading) => s.now - d <= reading
    case BeginExtend(_, _, reading) => s.now - d <= reading
    case _ => true
  }

  /** The step writes an extended lease for `id`. */
  ghost predicate Extends(s: State, step: Step, id: string) {
    && step.CommitExtend? && step.c in s.extensions && s.extensions[step.c].id == id
    && !step.outcome.Failed? && id in s.rows
  }

  ghost predicate WithinLease(ttl: int, d: int, s: State, id: string) {
    id in s.leases ==> s.now <= s.leases[id].base + ttl - d
  }

  /** Every extension of `id` commits no later than `ttl - d` after the lease it
      replaces was computed, and so does the end of the run. */
  ghost predicate RenewedOnTime(ttl: int, d: int, s: State, run: seq<Step>, id: string)
    requires Legal(ttl, s, run)
  {
    && (forall n :: 0 <= n < |run| && Extends(After(ttl, s, run, n), run[n], id) ==>
          WithinLease(ttl, d, After(ttl, s, run, n), id))
    && WithinLease(ttl, d, Final(ttl, s, run), id)
  }

  ghost predicate SkewedAtMost(ttl: int, d: int, s: State, run: seq<Step>)
    requires Legal(ttl, s, run)
  {
    forall n :: 0 <= n < |run| ==> SkewAtMost(d, After(ttl, s, run, n), run[n])
  }

  /** Every lease, written or about to be, runs `ttl - d` at least. */
  ghost predicate LeasesRun(ttl: int, d: int, s: State) {
    && (forall id :: id in s.leases ==> s.leases[id].base + ttl - d <= s.leases[id].expires)
    && (forall r :: r in s.requests && s.requests[r].LeaseComputed? ==>
          s.requests[r].lease.base + ttl - d <= s.requests[r].lease.expires)
    && (forall c :: c in s.extensions ==>
          s.extensions[c].lease.base + ttl - d <= s.extensions[c].lease.expires)
  }

  lemma LeasesRunStep(ttl: int, d: int, s: State, step: Step)
    requires LeasesRun(ttl, d, s) && Enabled(s, step) && SkewAtMost(d, s, step)
    ensures LeasesRun(ttl, d, Apply(ttl, s, step))
  {
    LeasesRunOn(ttl, d, s, step);
    var s' := Apply(ttl, s, step);
    forall r | r in s'.requests && s'.requests[r].LeaseComputed?
      ensures s'.requests[r].lease.base + ttl - d <= s'.requests[r].lease.expires
    {
    }
  }

  lemma LeasesRunOn(ttl: int, d: int, s: State, step: Step)
    requires LeasesRun(ttl, d, s) && Enabled(s, step)
    ensures forall id :: id in Apply(ttl, s, step).leases ==>
      Apply(ttl, s, step).leases[id].base + ttl - d <= Apply(ttl, s, step).leases[id].expires
  {
  }

  /** Between two extensions the lease stands and the clock only advances, so a
      lease replaced in time was in time all along. */
  lemma {:induction false} WithinLeaseThroughout(ttl: int, d: int, s: State, run: seq<Step>, id: string, n: nat)
    requires Inv(s) && Legal(ttl, s, run) && n <= |run|
    requires RenewedOnTime(ttl, d, s, run, id)
    ensures WithinLease(ttl, d, After(ttl, s, run, n), id)
    decreases |run| - n
  {
    if n < |run| {
      WithinLeaseThroughout(ttl, d, s, run, id, n + 1);
      RunSteps(ttl, s, run, n);
      InvRun(ttl, s, run, n);
      var sn := After(ttl, s, run, n);
      if !Extends(sn, run[n], id) && id in sn.leases {
        LeaseStands(ttl, sn, run[n], id);
      }
    }
  }

  lemma LeaseStands(ttl: int, s: State, step: Step, id: string)
    requires RequestsOwnTheirIds(s) && Enabled(s, step) && id in s.leases && !Extends(s, step, id)
    ensures id in Apply(ttl, s, step).leases && Apply(ttl, s, step).leases[id] == s.leases[id]
    ensures s.now <= Apply(ttl, s, step).now
  {
  }

  /** An id gets onto a worklist only while its row has expired. */
  lemma ListedWhenExpired(ttl: int, s: State, step: Step, id: string)
    requires Enabled(s, step) && !Listed(s, id) && Listed(Apply(ttl, s, step), id)
    ensures step.ListExpired? && id in s.rows && s.rows[id] < s.now
  {
    var s' := Apply(ttl, s, step);
    var w :| ListedBy(s', w, id);
    assert !ListedBy(s, w, id);
  }

  lemma {:induction false} LeasesRunThroughout(ttl: int, d: int, t0: int, run: seq<Step>, n: nat)
    requires Legal(ttl, Init(t0), run) && n <= |run|
    requires SkewedAtMost(ttl, d, Init(t0), run)
    ensures LeasesRun(ttl, d, After(ttl, Init(t0), run, n))
    decreases n
  {
    if n > 0 {
      LeasesRunThroughout(ttl, d, t0, run, n - 1);
      RunSteps(ttl, Init(t0), run, n - 1);
      LeasesRunStep(ttl, d, After(ttl, Init(t0), run, n - 1), run[n - 1]);
    }
  }

  lemma UnlistedWithinLease(ttl: int, d: int, s: State, step: Step, id: string)
    requires Inv(s) && Enabled(s, step) && LeasesRun(ttl, d, s) && WithinLease(ttl, d, s, id)
    requires !Listed(s, id)
    ensures !Listed(Apply(ttl, s, step), id)
  {
    if Listed(Apply(ttl, s, step), id) {
      ListedWhenExpired(ttl, s, step, id);
    }
  }

  /** A lease renewed in time keeps its identity off every worklist throughout
      the run, whatever the other calls and replicas do; the collector deletes
      only what is on a worklist. */
  lemma {:induction false} RenewedIsNeverCollected(ttl: int, d: int, t0: int, run: seq<Step>, id: string, n: nat)
    requires Legal(ttl, Init(t0), run) && n <= |run|
    requires SkewedAtMost(ttl, d, Init(t0), run)
    requires RenewedOnTime(ttl, d, Init(t0), run, id)
    ensures !Listed(After(ttl, Init(t0), run, n), id)
    decreases n
  {
    if n > 0 {
      RenewedIsNeverCollected(ttl, d, t0, run, id, n - 1);
      InvReachable(ttl, t0, run, n - 1);
      LeasesRunThroughout(ttl, d, t0, run, n - 1);
      WithinLeaseThroughout(ttl, d, Init(t0), run, id, n - 1);
      RunSteps(ttl, Init(t0), run, n - 1);
      UnlistedWithinLease(ttl, d, After(ttl, Init(t0), run, n - 1), run[n - 1], id);
    }
  }

  /** In such a run the row, once inserted, stays. */
  lemma {:induction false} RenewedRowStays(ttl: int, d: int, t0: int, run: seq<Step>, id: string, k: nat, n: nat)
    requires Legal(ttl, Init(t0), run) && k <= n <= |run|
    requires SkewedAtMost(ttl, d, Init(t0), run)
    requires RenewedOnTime(ttl, d, Init(t0), run, id)
    requires id in After(ttl, Init(t0), run, k).rows
    ensures id in After(ttl, Init(t0), run, n).rows
    decreases n
  {
    if k < n {
      RenewedRowStays(ttl, d, t0, run, id, k, n - 1);
      RenewedIsNeverCollected(ttl, d, t0, run, id, n - 1);
      InvReachable(ttl, t0, run, n - 1);
      RunSteps(ttl, Init(t0), run, n - 1);
      var s := After(ttl, Init(t0), run, n - 1);
      if id !in After(ttl, Init(t0), run, n).rows {
        RowGoesLast(ttl, s, run[n - 1], id);
      }
    }
  }

  // ---------------------------------------------------------------- racing extensions

  /** What a replica may do without the clock moving and without anybody else. */
  predicate SweepOnly(step: Step) {
    step.ListExpired? || step.SweepIdentity? || step.SweepRow?
  }

  ghost predicate SweepsAlone(ttl: int, s: State, run: seq<Step>) {
    Legal(ttl, s, run) && forall i :: 0 <= i < |run| ==> SweepOnly(run[i])
  }

  /** The replicas, left alone from `s`, can remove the row of `id`. */
  ghost predicate CanBeSwept(ttl: int, s: State, id: string) {
    exists run :: SweepsAlone(ttl, s, run) && id !in Final(ttl, s, run).rows
  }

  lemma PrependStep(ttl: int, s: State, step: Step, run: seq<Step>)
    requires Enabled(s, step) && SweepOnly(step)
    requires SweepsAlone(ttl, Apply(ttl, s, step), run)
    ensures SweepsAlone(ttl, s, [step] + run)
    ensures Final(ttl, s, [step] + run) == Final(ttl, Apply(ttl, s, step), run)
  {
    assert ([step] + run)[0] == step && ([step] + run)[1..] == run;
  }

  /** Entry `i` of a worklist is reached by failing the entries before it. */
  lemma {:induction false} SweepReaches(ttl: int, s: State, w: nat, i: nat, id: string) returns (run: seq<Step>)
    requires Inv(s) && w in s.sweepers && i < |s.sweepers[w].work| && s.sweepers[w].work[i].id == id
    ensures SweepsAlone(ttl, s, run) && id !in Final(ttl, s, run).rows
    decreases i, s.sweepers[w].DeletingIdentity?
  {
    if s.sweepers[w].DeletingIdentity? && i == 0 {
      var step := SweepIdentity(w, Done);
      var s' := Apply(ttl, s, step);
      InvStep(ttl, s, step);
      assert s'.sweepers[w] == DeletingRow(s.sweepers[w].work);
      run := SweepReaches(ttl, s', w, 0, id);
      PrependStep(ttl, s, step, run);
      run := [step] + run;
    } else if i == 0 {
      var step := SweepRow(w, Done);
      assert SweepsAlone(ttl, Apply(ttl, s, step), []);
      PrependStep(ttl, s, step, []);
      run := [step] + [];
    } else {
      var step := if s.sweepers[w].DeletingIdentity? then SweepIdentity(w, Failed) else SweepRow(w, Failed);
      var s' := Apply(ttl, s, step);
      InvStep(ttl, s, step);
      assert s'.sweepers[w] == DeletingIdentity(s.sweepers[w].work[1..]);
      run := SweepReaches(ttl, s', w, i - 1, id);
      PrependStep(ttl, s, step, run);
      run := [step] + run;
    }
  }

  lemma UnlistedStep(ttl: int, s: State, step: Step, id: string)
    requires Inv(s) && Enabled(s, step) && SweepOnly(step)
    requires id in s.rows && s.now <= s.rows[id] && !Listed(s, id)
    ensures id in Apply(ttl, s, step).rows && Apply(ttl, s, step).rows[id] == s.rows[id]
    ensures Apply(ttl, s, step).now == s.now && !Listed(Apply(ttl, s, step), id)
  {
    if id !in Apply(ttl, s, step).rows {
      RowGoesLast(ttl, s, step, id);
    }
    if Listed(Apply(ttl, s, step), id) {
      ListedWhenExpired(ttl, s, step, id);
    }
  }

  lemma {:induction false} UnlistedStays(ttl: int, s: State, run: seq<Step>, id: string)
    requires Inv(s) && SweepsAlone(ttl, s, run)
    requires id in s.rows && s.now <= s.rows[id] && !Listed(s, id)
    ensures id in Final(ttl, s, run).rows
    decreases |run|
  {
    if run != [] {
      assert SweepOnly(run[0]);
      InvStep(ttl, s, run[0]);
      UnlistedStep(ttl, s, run[0], id);
      forall i | 0 <= i < |run[1..]| ensures SweepOnly(run[1..][i]) {
        assert run[1..][i] == run[i + 1];
      }
      UnlistedStays(ttl, Apply(ttl, s, run[0]), run[1..], id);
    }
  }

  /** "The collector never deletes an unexpired row" is false of the code: the
      sweep does not look at the lease again. An unexpired row is exposed exactly
      when it is still on a worklist, that is, when it was extended after the
      listing that caught it expired. */
  lemma UnexpiredRowExposedIffListed(ttl: int, s: State, id: string)
    requires Inv(s) && id in s.rows && s.now <= s.rows[id]
    ensures CanBeSwept(ttl, s, id) <==> Listed(s, id)
  {
    if Listed(s, id) {
      var w :| ListedBy(s, w, id);
      var i :| 0 <= i < |s.sweepers[w].work| && s.sweepers[w].work[i].id == id;
      var run := SweepReaches(ttl, s, w, i, id);
    }
    if CanBeSwept(ttl, s, id) && !Listed(s, id) {
      var run :| SweepsAlone(ttl, s, run) && id !in Final(ttl, s, run).rows;
      UnlistedStays(ttl, s, run, id);
    }
  }

  /** An extension written while its id is on a worklist. */
  ghost predicate Races(s: State, step: Step) {
    exists id :: Extends(s, step, id) && Listed(s, id)
  }

  /** Whatever is listed and still has a row has expired. */
  ghost predicate ListedHaveExpired(s: State) {
    forall id :: Listed(s, id) && id in s.rows ==> s.rows[id] < s.now
  }

  lemma ListedHaveExpiredStep(ttl: int, s: State, step: Step)
    requires Inv(s) && ListedHaveExpired(s) && Enabled(s, step) && !Races(s, step)
    ensures ListedHaveExpired(Apply(ttl, s, step))
  {
    var s' := Apply(ttl, s, step);
    InvStep(ttl, s, step);
    forall id | Listed(s', id) && id in s'.rows ensures s'.rows[id] < s'.now {
      if !Listed(s, id) {
        ListedWhenExpired(ttl, s, step, id);
      } else if id in s.rows {
        assert !Extends(s, step, id);
        LeaseStands(ttl, s, step, id);
        assert s'.rows[id] == s.rows[id];
      } else {
        ListedHasLease(s, id);
        RowsOnlyGo(ttl, s, step, id);
      }
    }
  }

  lemma ListedHasLease(s: State, id: string)
    requires Inv(s) && Listed(s, id)
    ensures id in s.leases
  {
    var w :| ListedBy(s, w, id);
  }

  lemma RowsOnlyGo(ttl: int, s: State, step: Step, id: string)
    requires Inv(s) && Enabled(s, step) && id in s.leases && id !in s.rows
    ensures id !in Apply(ttl, s, step).rows
  {
  }

  /** In a run where no extension is written for a listed id, every row the
      collector removes had expired. */
  lemma {:induction false} WithoutRacesOnlyExpiredRowsGo(ttl: int, t0: int, run: seq<Step>, n: nat)
    requires Legal(ttl, Init(t0), run) && n <= |run|
    requires forall k :: 0 <= k < |run| ==> !Races(After(ttl, Init(t0), run, k), run[k])
    ensures ListedHaveExpired(After(ttl, Init(t0), run, n))
    ensures n < |run| ==>
      forall id ::
        id in After(ttl, Init(t0), run, n).rows && id !in After(ttl, Init(t0), run, n + 1).rows ==>
          After(ttl, Init(t0), run, n).rows[id] < After(ttl, Init(t0), run, n).now
    decreases n
  {
    if n > 0 {
      WithoutRacesOnlyExpiredRowsGo(ttl, t0, run, n - 1);
      InvReachable(ttl, t0, run, n - 1);
      RunSteps(ttl, Init(t0), run, n - 1);
      ListedHaveExpiredStep(ttl, After(ttl, Init(t0), run, n - 1), run[n - 1]);
    }
    if n < |run| {
      InvReachable(ttl, t0, run, n);
      RunSteps(ttl, Init(t0), run, n);
      var s := After(ttl, Init(t0), run, n);
      forall id | id in s.rows && id !in Apply(ttl, s, run[n]).rows ensures s.rows[id] < s.now {
        RowGoesLast(ttl, s, run[n], id);
      }
    }
  }

  // A run that issues "a" with a lease of 10; and one in which the holder asks at
  // 10 to extend it to 20, a replica lists it at 11, and the extension is written
  // only then.
  const ISSUE := [Create(0, "a"), Enroll(0, true), ComputeLease(0, 0), Insert(0, Done)]
  const RACE := [Tick(10), BeginExtend(0, "a", 10), Tick(1), ListExpired(0, [Entry("a", 10)])]

  const AFTER_ISSUE: State :=
    State(0, {"a"}, {"a"}, map["a" := 10], map[], map[], map[], {"a"}, map["a" := Lease(10, 0)])
  const LISTED: State :=
    State(11, {"a"}, {"a"}, map["a" := 10], map[], map[0 := Extension("a", Lease(20, 10))],
          map[0 := DeletingIdentity([Entry("a", 10)])], {"a"}, map["a" := Lease(10, 0)])
  const AFTER_RACE: State :=
    State(11, {"a"}, {"a"}, map["a" := 20], map[], map[],
          map[0 := DeletingIdentity([Entry("a", 10)])], {"a"}, map["a" := Lease(20, 10)])

  lemma IssueRuns()
    ensures Legal(10, Init(0), ISSUE) && Final(10, Init(0), ISSUE) == AFTER_ISSUE
  {
    var s := Init(0);
    var s1 := Apply(10, s, ISSUE[0]);
    var s2 := Apply(10, s1, ISSUE[1]);
    var s3 := Apply(10, s2, ISSUE[2]);
    Runs4(10, s, ISSUE);
  }

  lemma RaceRuns()
    ensures Legal(10, AFTER_ISSUE, RACE) && Final(10, AFTER_ISSUE, RACE) == LISTED
  {
    var s := AFTER_ISSUE;
    var s1 := Apply(10, s, RACE[0]);
    var s2 := Apply(10, s1, RACE[1]);
    var s3 := Apply(10, s2, RACE[2]);
    assert IsExpiredListing(s3, [Entry("a", 10)]);
    Runs4(10, s, RACE);
  }

  lemma RaceIsOneRun(run: seq<Step>)
    requires run == ISSUE + RACE + [CommitExtend(0, Done)]
    ensures Legal(10, Init(0), run) && Final(10, Init(0), run) == AFTER_RACE
  {
    IssueRuns();
    RaceRuns();
    RunsCompose(10, Init(0), ISSUE, RACE);
    RunGrows(10, Init(0), ISSUE + RACE, CommitExtend(0, Done));
  }

  lemma RaceStarts(run: seq<Step>)
    requires |run| > 4 && run[..4] == ISSUE && run[4] == Tick(10) && Legal(10, Init(0), run)
    ensures After(10, Init(0), run, 5) == AFTER_ISSUE.(now := 10)
  {
    IssueRuns();
    PrefixIsLegal(10, Init(0), run, 4);
    RunSteps(10, Init(0), run, 4);
  }

  lemma {:induction false} PrefixIsLegal(ttl: int, s: State, run: seq<Step>, n: nat)
    requires Legal(ttl, s, run) && n <= |run|
    ensures Legal(ttl, s, run[..n]) && Final(ttl, s, run[..n]) == After(ttl, s, run, n)
    decreases n
  {
    if n > 0 {
      assert run[..n][1..] == run[1..][..n - 1];
      PrefixIsLegal(ttl, Apply(ttl, s, run[0]), run[1..], n - 1);
    }
  }

  /** The concrete failure: the lease still stands when the holder asks for the
      next, and the replica goes on to remove, at 11, a row whose lease runs to 20. */
  lemma RacingExtensionLosesUnexpiredRow() returns (run: seq<Step>)
    ensures Legal(10, Init(0), run) && Final(10, Init(0), run) == AFTER_RACE
    ensures |run| > 5 && run[5] == BeginExtend(0, "a", 10)
    ensures After(10, Init(0), run, 5) == AFTER_ISSUE.(now := 10)
    ensures "a" in AFTER_RACE.issued && AFTER_RACE.now < AFTER_RACE.rows["a"]
    ensures CanBeSwept(10, AFTER_RACE, "a")
  {
    run := ISSUE + RACE + [CommitExtend(0, Done)];
    RaceIsOneRun(run);
    RaceStarts(run);
    InvReachable(10, 0, run, |run|);
    ExposedAtEnd();
  }

  lemma ExposedAtEnd()
    requires Inv(AFTER_RACE)
    ensures CanBeSwept(10, AFTER_RACE, "a")
  {
    assert AFTER_RACE.sweepers[0].work[0].id == "a";
    assert ListedBy(AFTER_RACE, 0, "a");
    UnexpiredRowExposedIffListed(10, AFTER_RACE, "a");
  }

  /** Unrolls a run of four steps. */
  lemma Runs4(ttl: int, s: State, run: seq<Step>)
    requires |run| == 4
    requires Enabled(s, run[0])
    requires Enabled(Apply(ttl, s, run[0]), run[1])
    requires Enabled(Apply(ttl, Apply(ttl, s, run[0]), run[1]), run[2])
    requires Enabled(Apply(ttl, Apply(ttl, Apply(ttl, s, run[0]), run[1]), run[2]), run[3])
    ensures Legal(ttl, s, run)
    ensures Final(ttl, s, run) ==
      Apply(ttl, Apply(ttl, Apply(ttl, Apply(ttl, s, run[0]), run[1]), run[2]), run[3])
  {
    RunGrows(ttl, s, [], run[0]);
    RunGrows(ttl, s, [] + [run[0]], run[1]);
    RunGrows(ttl, s, [] + [run[0]] + [run[1]], run[2]);
    RunGrows(ttl, s, [] + [run[0]] + [run[1]] + [run[2]], run[3]);
    assert run == [] + [run[0]] + [run[1]] + [run[2]] + [run[3]];
  }
}
