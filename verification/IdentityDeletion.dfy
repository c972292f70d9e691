/**
 Deleting on both sides without a transaction, and retrying. `DeleteIdentity`
 takes the controller's id and converges; `DeleteRunnerIdentity` and
 `DeleteAppIdentity` find that id in the row they delete first, and may get stuck.
 */
module IdentityDeletion {
  import opened Wrappers
  import opened RemoteCalls
  import opened Identities

  datatype Sides = Sides(rows: Table, identities: seq<Identity>, services: set<string>)

  ghost predicate Absent(s: Sides, id: string) {
    id !in s.rows && forall i :: 0 <= i < |s.identities| ==> s.identities[i].id != id
  }

  function AfterRow(s: Sides, id: string, fate: Outcome): Sides {
    if fate.Failed? then s else s.(rows := s.rows - {id})
  }

  function AfterIdentity(s: Sides, id: string, fate: Outcome): Sides {
    if fate.Failed? then s else s.(identities := Without(s.identities, {id}))
  }

  /** One call of `DeleteIdentity`, and whether it succeeds. */
  function DeleteOnce(s: Sides, id: string, rowFate: Outcome, identityFate: Outcome): (Sides, bool) {
    var s' := AfterRow(s, id, rowFate);
    if !rowFate.Done? then (s', false) else (AfterIdentity(s', id, identityFate), identityFate.Done?)
  }

  datatype Attempt = Attempt(rowFate: Outcome, identityFate: Outcome)

  function Retry(s: Sides, id: string, attempts: seq<Attempt>): Sides {
    if attempts == [] then s
    else
      var n := |attempts| - 1;
      DeleteOnce(Retry(s, id, attempts[..n]), id, attempts[n].rowFate, attempts[n].identityFate).0
  }

  /** The answer to attempt `k`. */
  function Answer(s: Sides, id: string, attempts: seq<Attempt>, k: nat): bool
    requires k < |attempts|
  {
    DeleteOnce(Retry(s, id, attempts[..k]), id, attempts[k].rowFate, attempts[k].identityFate).1
  }

  lemma WithoutIsAbsent(s: seq<Identity>, id: string)
    ensures forall i :: 0 <= i < |Without(s, {id})| ==> Without(s, {id})[i].id != id
    ensures (forall i :: 0 <= i < |s| ==> s[i].id != id) ==> Without(s, {id}) == s
    ensures Without(Without(s, {id}), {id}) == Without(s, {id})
  {
    WithoutMembers(s, {id});
    var w := Without(s, {id});
    assert forall i :: 0 <= i < |w| ==> w[i] in w;
    WithoutNone(w, {id});
    if forall i :: 0 <= i < |s| ==> s[i].id != id {
      WithoutNone(s, {id});
    }
  }

  lemma DeleteKeepsAbsent(s: Sides, id: string, rowFate: Outcome, identityFate: Outcome)
    ensures var r := DeleteOnce(s, id, rowFate, identityFate);
      && (r.1 || Absent(s, id) ==> Absent(r.0, id))
      && r.0.rows - {id} == s.rows - {id}
      && Without(r.0.identities, {id}) == Without(s.identities, {id})
  {
    WithoutIsAbsent(s.identities, id);
  }

  /** Through any failures: an attempt answers success only once both sides have
      let go; they stay so, and from then on an attempt succeeds whenever its calls
      work. Nothing else is touched. */
  lemma {:induction false} RetriedDeletion(s: Sides, id: string, attempts: seq<Attempt>, k: nat)
    requires k <= |attempts|
    ensures k < |attempts| && Answer(s, id, attempts, k) ==> Absent(Retry(s, id, attempts), id)
    ensures Retry(s, id, attempts).rows - {id} == s.rows - {id}
    ensures Without(Retry(s, id, attempts).identities, {id}) == Without(s.identities, {id})
    ensures Retry(s, id, attempts).services == s.services
    ensures k < |attempts| && attempts[k] == Attempt(Done, Done) ==> Answer(s, id, attempts, k)
    decreases |attempts|
  {
    if attempts != [] {
      var n := |attempts| - 1;
      var before := attempts[..n];
      DeleteKeepsAbsent(Retry(s, id, before), id, attempts[n].rowFate, attempts[n].identityFate);
      if k < n {
        RetriedDeletion(s, id, before, k);
        assert before[..k] == attempts[..k] && before[k] == attempts[k];
      } else {
        RetriedDeletion(s, id, before, n);
      }
    }
  }

  // ---------------------------------------------------------------- deleting a runner or an app

  datatype Owner = Runner | App

  /** What becomes of the calls of one attempt. */
  datatype OwnerAttempt = OwnerAttempt(lookupWorks: bool, rowFate: Outcome, identityFate: Outcome, serviceFate: Outcome)

  ghost predicate OneRow(rows: Table, ownerId: string, zitiId: string) {
    && zitiId in rows && rows[zitiId].identityId == ownerId
    && forall id :: id in rows && rows[id].identityId == ownerId ==> id == zitiId
  }

  ghost predicate NoRow(rows: Table, ownerId: string) {
    forall id :: id in rows ==> rows[id].identityId != ownerId
  }

  /** The service to delete: the one requested, or else the one the row names; ""
      for none. */
  function ServiceNamed(request: string, row: Row): string {
    if request != "" then request else row.zitiServiceId.GetOr("")
  }

  function DeleteServiceOnce(s: Sides, service: string, fate: Outcome): (Sides, bool) {
    (if fate.Failed? then s else s.(services := s.services - {service}), fate.Done?)
  }

  /** One call of `DeleteRunnerIdentity` or `DeleteAppIdentity` for an owner whose
      row, as long as there is one, is that of `zitiId`; and whether it succeeds.
      Without a row, a runner's call answers "not found", and an app's goes on to
      the service. */
  function DeleteOwnerOnce(owner: Owner, s: Sides, zitiId: string, request: string, a: OwnerAttempt): (Sides, bool) {
    if !a.lookupWorks then (s, false)
    else if zitiId !in s.rows then
      if owner.Runner? || request == "" then (s, false) else DeleteServiceOnce(s, request, a.serviceFate)
    else
      var service := ServiceNamed(request, s.rows[zitiId]);
      var (s', gone) := DeleteOnce(s, zitiId, a.rowFate, a.identityFate);
      if !gone then (s', false)
      else if service == "" then (s', owner.Runner?)
      else DeleteServiceOnce(s', service, a.serviceFate)
  }

  function RetryOwner(owner: Owner, s: Sides, zitiId: string, request: string, attempts: seq<OwnerAttempt>): Sides
    decreases |attempts|
  {
    if attempts == [] then s
    else RetryOwner(owner, DeleteOwnerOnce(owner, s, zitiId, request, attempts[0]).0, zitiId, request, attempts[1..])
  }

  /** The attempt that takes the row: the first that finds it and does not fail to
      delete it. What follows it finds no row. */
  function TakesRow(attempts: seq<OwnerAttempt>): (a: Option<OwnerAttempt>)
    ensures a.Some? ==> a.value.lookupWorks && !a.value.rowFate.Failed?
  {
    if attempts == [] then None
    else if attempts[0].lookupWorks && !attempts[0].rowFate.Failed? then Some(attempts[0])
    else TakesRow(attempts[1..])
  }

  ghost predicate HasIdentity(identities: seq<Identity>, zitiId: string) {
    exists i :: 0 <= i < |identities| && identities[i].id == zitiId
  }

  /** Without the row no attempt touches the identity, nor, for a runner or an app
      whose request names no service, the services. */
  lemma {:induction false} NoRowNoProgress(owner: Owner, s: Sides, zitiId: string, request: string,
                                           attempts: seq<OwnerAttempt>)
    requires zitiId !in s.rows
    ensures RetryOwner(owner, s, zitiId, request, attempts).identities == s.identities
    ensures RetryOwner(owner, s, zitiId, request, attempts).rows == s.rows
    ensures owner.Runner? || request == "" ==> RetryOwner(owner, s, zitiId, request, attempts) == s
    decreases |attempts|
  {
    if attempts != [] {
      NoRowNoProgress(owner, DeleteOwnerOnce(owner, s, zitiId, request, attempts[0]).0, zitiId, request, attempts[1..]);
    }
  }

  /** What the attempts come to: nothing until one takes the row; then what that one
      did to the identity stands. */
  lemma {:induction false} RetryOutcome(owner: Owner, s: Sides, zitiId: string, request: string,
                                        attempts: seq<OwnerAttempt>)
    requires zitiId in s.rows
    ensures TakesRow(attempts).None? ==> RetryOwner(owner, s, zitiId, request, attempts) == s
    ensures TakesRow(attempts).Some? ==>
      var taken := DeleteOwnerOnce(owner, s, zitiId, request, TakesRow(attempts).value).0;
      var s' := RetryOwner(owner, s, zitiId, request, attempts);
      && zitiId !in s'.rows && s'.identities == taken.identities
      && (owner.Runner? || request == "" ==> s' == taken)
    decreases |attempts|
  {
    if attempts != [] {
      var s' := DeleteOwnerOnce(owner, s, zitiId, request, attempts[0]).0;
      if TakesRow(attempts) == Some(attempts[0]) && attempts[0].lookupWorks && !attempts[0].rowFate.Failed? {
        NoRowNoProgress(owner, s', zitiId, request, attempts[1..]);
      } else {
        assert s' == s;
        RetryOutcome(owner, s, zitiId, request, attempts[1..]);
      }
    }
  }

  /** Further attempts can remove the identity. */
  ghost predicate CanLoseIdentity(owner: Owner, s: Sides, zitiId: string, request: string) {
    exists more :: !HasIdentity(RetryOwner(owner, s, zitiId, request, more).identities, zitiId)
  }

  ghost predicate CanLoseService(owner: Owner, s: Sides, zitiId: string, request: string, service: string) {
    exists more :: service !in RetryOwner(owner, s, zitiId, request, more).services
  }

  lemma RetryOne(owner: Owner, s: Sides, zitiId: string, request: string, a: OwnerAttempt)
    ensures RetryOwner(owner, s, zitiId, request, [a]) == DeleteOwnerOnce(owner, s, zitiId, request, a).0
  {
    assert [a][1..] == [];
  }

  lemma IdentityWithout(identities: seq<Identity>, zitiId: string)
    ensures !HasIdentity(Without(identities, {zitiId}), zitiId)
  {
    WithoutIsAbsent(identities, zitiId);
  }

  /** After any attempts, the identity can still be removed if and only if none of
      them took the row, or the one that did removed the identity as well: the row
      is the only way to the identity, and it goes first. */
  lemma OwnerDeletionConverges(owner: Owner, s: Sides, zitiId: string, request: string, attempts: seq<OwnerAttempt>)
    requires zitiId in s.rows && HasIdentity(s.identities, zitiId)
    ensures CanLoseIdentity(owner, RetryOwner(owner, s, zitiId, request, attempts), zitiId, request) <==>
      TakesRow(attempts).None? ||
      (TakesRow(attempts).value.rowFate.Done? && !TakesRow(attempts).value.identityFate.Failed?)
  {
    var s' := RetryOwner(owner, s, zitiId, request, attempts);
    RetryOutcome(owner, s, zitiId, request, attempts);
    IdentityWithout(s.identities, zitiId);
    if TakesRow(attempts).None? {
      var again := OwnerAttempt(true, Done, Done, Done);
      RetryOne(owner, s', zitiId, request, again);
      assert !HasIdentity(RetryOwner(owner, s', zitiId, request, [again]).identities, zitiId);
    } else if TakesRow(attempts).value.rowFate.Done? && !TakesRow(attempts).value.identityFate.Failed? {
      assert !HasIdentity(RetryOwner(owner, s', zitiId, request, []).identities, zitiId);
    } else {
      TakenWithoutIdentity(owner, s, zitiId, request, TakesRow(attempts).value);
      forall more ensures HasIdentity(RetryOwner(owner, s', zitiId, request, more).identities, zitiId) {
        NoRowNoProgress(owner, s', zitiId, request, more);
      }
    }
  }

  lemma TakenWithoutIdentity(owner: Owner, s: Sides, zitiId: string, request: string, a: OwnerAttempt)
    requires zitiId in s.rows && a.lookupWorks && !a.rowFate.Failed?
    requires a.rowFate.Lost? || a.identityFate.Failed?
    ensures DeleteOwnerOnce(owner, s, zitiId, request, a).0.identities == s.identities
  {
  }

  /** The service the row leads to shares its fate: unless an app's request names
      it, it can still be removed if and only if no attempt took the row, or the one
      that did got as far as removing the service. */
  lemma OwnerServiceConverges(owner: Owner, s: Sides, zitiId: string, request: string, attempts: seq<OwnerAttempt>)
    requires zitiId in s.rows && (owner.Runner? || request == "")
    requires ServiceNamed(request, s.rows[zitiId]) != "" && ServiceNamed(request, s.rows[zitiId]) in s.services
    ensures CanLoseService(owner, RetryOwner(owner, s, zitiId, request, attempts), zitiId, request,
                           ServiceNamed(request, s.rows[zitiId])) <==>
      TakesRow(attempts).None? ||
      (TakesRow(attempts).value.rowFate.Done? && TakesRow(attempts).value.identityFate.Done?
       && !TakesRow(attempts).value.serviceFate.Failed?)
  {
    var service := ServiceNamed(request, s.rows[zitiId]);
    var s' := RetryOwner(owner, s, zitiId, request, attempts);
    RetryOutcome(owner, s, zitiId, request, attempts);
    if TakesRow(attempts).None? {
      var again := OwnerAttempt(true, Done, Done, Done);
      RetryOne(owner, s', zitiId, request, again);
      assert service !in RetryOwner(owner, s', zitiId, request, [again]).services;
    } else if service !in s'.services {
      assert service !in RetryOwner(owner, s', zitiId, request, []).services;
    } else {
      forall more ensures service in RetryOwner(owner, s', zitiId, request, more).services {
        NoRowNoProgress(owner, s', zitiId, request, more);
      }
    }
  }

  /** A successful answer for an app means that its identity is gone if and only if
      the attempt found the row, or the identity was gone before. */
  lemma AppAnswerMeaning(s: Sides, zitiId: string, request: string, a: OwnerAttempt)
    requires DeleteOwnerOnce(App, s, zitiId, request, a).1
    ensures !HasIdentity(DeleteOwnerOnce(App, s, zitiId, request, a).0.identities, zitiId) <==>
      zitiId in s.rows || !HasIdentity(s.identities, zitiId)
  {
    IdentityWithout(s.identities, zitiId);
  }

  /** A runner's does mean it, and that its service is gone. */
  lemma RunnerAnswerMeaning(s: Sides, zitiId: string, request: string, a: OwnerAttempt)
    requires DeleteOwnerOnce(Runner, s, zitiId, request, a).1
    ensures
      var s' := DeleteOwnerOnce(Runner, s, zitiId, request, a).0;
      && zitiId in s.rows && zitiId !in s'.rows && !HasIdentity(s'.identities, zitiId)
      && (ServiceNamed(request, s.rows[zitiId]) != "" ==> ServiceNamed(request, s.rows[zitiId]) !in s'.services)
  {
    IdentityWithout(s.identities, zitiId);
  }

  /** A concrete stuck state: one failed controller delete, and the app's retry is
      answered with success over a live identity, which nothing removes any more;
      the runner's retry is answered "not found". */
  lemma StuckAfterFailedIdentityDelete()
    ensures
      var x := Identity("z", "n", Some("o"), []);
      var s := Sides(map["z" := Row("z", "o", TYPE_APP, None)], [x], {"s"});
      var failed, again := OwnerAttempt(true, Done, Failed, Done), OwnerAttempt(true, Done, Done, Done);
      var app := DeleteOwnerOnce(App, DeleteOwnerOnce(App, s, "z", "s", failed).0, "z", "s", again);
      var runner := DeleteOwnerOnce(Runner, DeleteOwnerOnce(Runner, s, "z", "s", failed).0, "z", "s", again);
      && app == (Sides(map[], [x], {}), true) && !CanLoseIdentity(App, app.0, "z", "s")
      && runner == (Sides(map[], [x], {"s"}), false) && !CanLoseIdentity(Runner, runner.0, "z", "s")
  {
    var x := Identity("z", "n", Some("o"), []);
    var s := Sides(map["z" := Row("z", "o", TYPE_APP, None)], [x], {"s"});
    var app, runner := Sides(map[], [x], {}), Sides(map[], [x], {"s"});
    assert s.rows - {"z"} == map[] && {"s"} - {"s"} == {};
    assert app.identities[0].id == "z" && runner.identities[0].id == "z";
    forall more
      ensures HasIdentity(RetryOwner(App, app, "z", "s", more).identities, "z")
      ensures HasIdentity(RetryOwner(Runner, runner, "z", "s", more).identities, "z")
    {
      NoRowNoProgress(App, app, "z", "s", more);
      NoRowNoProgress(Runner, runner, "z", "s", more);
    }
  }
}
