/**
 Runner and app identities on both sides: the identities of the controller and
 the rows of `managed_identities`. Creating one replaces whatever either side
 holds for its id; deleting one is retried until both sides have let go.
 */
module ReEnrollment {
  import opened Wrappers
  import opened RemoteCalls
  import opened Ceilings
  import opened Identities
  import opened IdentityDeletion
  import RoleAttributes

  // ---------------------------------------------------------------- the two sides

  datatype DeleteResult = Deleted | NotFound | DeleteError

  /** How the controller answers one list request. */
  datatype ListAnswer = Unavailable | NoPagination | EmptyPage | Serve(size: PageSize)

  datatype Listing = Listing(ids: seq<string>, totalCount: Option<nat>)

  /** Rows of other identity ids. */
  ghost predicate SameForOthers(before: Table, after: Table, identityId: string) {
    forall id ::
      (id in before && before[id].identityId != identityId) || (id in after && after[id].identityId != identityId) ==>
      id in before && id in after && before[id] == after[id]
  }

  lemma SameForOthersTwice(a: Table, b: Table, c: Table, identityId: string)
    requires SameForOthers(a, b, identityId) && SameForOthers(b, c, identityId)
    ensures SameForOthers(a, c, identityId)
  {
  }

  /** Taking back the last identity leaves the others. */
  lemma OnlyLast(front: seq<Identity>, x: Identity)
    requires DistinctIds(front + [x])
    ensures Without(front + [x], {x.id}) == front
  {
    assert (front + [x])[|front|] == x;
    assert forall i :: 0 <= i < |front| ==> (front + [x])[i] == front[i];
    WithoutLast(front, x);
  }

  lemma NoHolder(s: seq<Identity>, externalId: string)
    ensures Holders(s, externalId) == [] <==> forall i :: 0 <= i < |s| ==> !Holds(s[i], externalId)
  {
    HoldersMembers(s, externalId);
    if Holders(s, externalId) != [] {
      assert Holders(s, externalId)[0] in Holders(s, externalId);
    }
  }

  class World {
    const fates: nat -> Outcome       // by call number
    const answers: nat -> ListAnswer  // by call number
    var calls: nat
    var identities: seq<Identity>     // in controller order
    var used: set<string>             // every id the controller gave out
    var rows: Table
    var services: set<string>         // ids of the controller's services

    ghost predicate Valid()
      reads this
    {
      && DistinctIds(identities)
      && (forall i :: 0 <= i < |identities| ==> identities[i].id in used)
      && (forall id :: id in rows ==> rows[id].zitiIdentityId == id)
    }

    constructor (fates: nat -> Outcome, answers: nat -> ListAnswer)
      ensures Valid() && identities == [] && used == {} && rows == map[] && services == {}
      ensures this.fates == fates && this.answers == answers
    {
      this.fates := fates;
      this.answers := answers;
      calls, identities, used, rows, services := 0, [], {}, map[], {};
    }

    /** From call `from` on, every call is answered, and works. */
    ghost predicate AllWell(from: nat) {
      forall n :: from <= n ==> fates(n).Done? && answers(n).Serve?
    }

    /** The first, the first two, the first three calls from `n` on work. */
    ghost predicate Done1(n: nat) { fates(n).Done? }

    ghost predicate Done2(n: nat) { Done1(n) && fates(n + 1).Done? }

    ghost predicate Done3(n: nat) { Done2(n) && fates(n + 2).Done? }

    method NextFate() returns (fate: Outcome)
      modifies this`calls
      ensures fate == fates(old(calls)) && calls == old(calls) + 1
    {
      fate := fates(calls);
      calls := calls + 1;
    }

    // ---- the controller

    /** External ids are unique; ids are fresh. */
    method CreateIdentity(x: Identity) returns (created: Result<string>)
      requires Valid() && x.id !in used
      modifies this`calls, this`identities, this`used
      ensures Valid() && calls == old(calls) + 1
      ensures created.Ok? ==> created.value == x.id
      ensures
        var free := x.externalId.None? || Holders(old(identities), x.externalId.value) == [];
        && (created.Ok? <==> fates(old(calls)).Done? && free)
        && identities == old(identities) + (if !fates(old(calls)).Failed? && free then [x] else [])
        && used == old(used) + (if !fates(old(calls)).Failed? && free then {x.id} else {})
    {
      if x.externalId.Some? {
        NoHolder(identities, x.externalId.value);
      }
      var fate := NextFate();
      var taken :=
        x.externalId.Some? && exists i :: 0 <= i < |identities| && Holds(identities[i], x.externalId.value);
      if fate.Failed? || taken {
        return Err("create identity");
      }
      identities := identities + [x];
      used := used + {x.id};
      if fate.Lost? {
        return Err("create identity");
      }
      return Ok(x.id);
    }

    method DeleteIdentity(id: string) returns (r: DeleteResult)
      requires Valid()
      modifies this`calls, this`identities
      ensures Valid() && calls == old(calls) + 1
      ensures identities == if fates(old(calls)).Failed? then old(identities) else Without(old(identities), {id})
      ensures fates(old(calls)).Done? <==> !r.DeleteError?
    {
      WithoutMembers(identities, {id});
      var fate := NextFate();
      if fate.Failed? {
        return DeleteError;
      }
      var found := exists i :: 0 <= i < |identities| && identities[i].id == id;
      identities := Without(identities, {id});
      r := if fate.Lost? then DeleteError else if found then Deleted else NotFound;
    }

    method ListIdentities(externalId: string, offset: nat) returns (reply: Result<Listing>)
      modifies this`calls
      ensures calls == old(calls) + 1
      ensures reply.Ok? ==>
        var all := IdsOf(Holders(identities, externalId));
        && (reply.value.totalCount.Some? ==> reply.value.totalCount.value == |all|)
        && (offset <= |all| ==>
              offset + |reply.value.ids| <= |all| && reply.value.ids == all[offset..offset + |reply.value.ids|])
        && (offset > |all| ==> reply.value.ids == [])
      ensures answers(old(calls)).Serve? ==>
        && reply.Ok? && reply.value.totalCount.Some?
        && (offset < |IdsOf(Holders(identities, externalId))| ==> reply.value.ids != [])
    {
      var answer := answers(calls);
      calls := calls + 1;
      var all := IdsOf(Holders(identities, externalId));
      match answer
      case Unavailable => reply := Err("list identities");
      case NoPagination => reply := Ok(Listing([], None));
      case EmptyPage => reply := Ok(Listing([], Some(|all|)));
      case Serve(size) =>
        var ids :=
          if offset >= |all| then [] else all[offset..if offset + size < |all| then offset + size else |all|];
        reply := Ok(Listing(ids, Some(|all|)));
    }

    // ---- the table, one statement each

    /** Any row of the identity id will do: the query takes the first it is given. */
    method ResolveIdentityByIdentityId(identityId: string) returns (works: bool, row: Option<Row>)
      requires Valid()
      modifies this`calls
      ensures Valid() && calls == old(calls) + 1
      ensures works <==> fates(old(calls)).Done?
      ensures row.Some? ==>
        works && row.value.identityId == identityId
        && row.value.zitiIdentityId in rows && rows[row.value.zitiIdentityId] == row.value
      ensures works && row.None? ==> NoRow(rows, identityId)
    {
      var fate := NextFate();
      if !fate.Done? {
        return false, None;
      }
      if id :| id in rows && rows[id].identityId == identityId {
        return true, Some(rows[id]);
      }
      return true, None;
    }

    method DeleteManagedIdentity(id: string) returns (r: DeleteResult)
      requires Valid()
      modifies this`calls, this`rows
      ensures Valid() && calls == old(calls) + 1
      ensures rows == if fates(old(calls)).Failed? then old(rows) else old(rows) - {id}
      ensures fates(old(calls)).Done? <==> !r.DeleteError?
      ensures r.NotFound? ==> id !in old(rows)
    {
      var fate := NextFate();
      if fate.Failed? {
        return DeleteError;
      }
      var found := id in rows;
      rows := rows - {id};
      r := if fate.Lost? then DeleteError else if found then Deleted else NotFound;
    }

    method DeleteService(id: string) returns (r: DeleteResult)
      requires Valid()
      modifies this`calls, this`services
      ensures Valid() && calls == old(calls) + 1
      ensures services == if fates(old(calls)).Failed? then old(services) else old(services) - {id}
      ensures fates(old(calls)).Done? <==> !r.DeleteError?
    {
      var fate := NextFate();
      if fate.Failed? {
        return DeleteError;
      }
      var found := id in services;
      services := services - {id};
      r := if fate.Lost? then DeleteError else if found then Deleted else NotFound;
    }

    method DeleteManagedIdentityByIdentityId(identityId: string) returns (ok: bool)
      requires Valid()
      modifies this`calls, this`rows
      ensures Valid() && SameForOthers(old(rows), rows, identityId) && calls == old(calls) + 1
      ensures fates(old(calls)).Failed? ==> rows == old(rows)
      ensures !fates(old(calls)).Failed? ==> forall id :: id in rows ==> rows[id].identityId != identityId
      ensures fates(old(calls)).Done? <==> ok
      ensures rows.Keys <= old(rows).Keys
      ensures forall id :: id in old(rows) && old(rows)[id].identityId != identityId ==> id in rows
    {
      var fate := NextFate();
      if fate.Failed? {
        return false;
      }
      rows := map id | id in rows && rows[id].identityId != identityId :: rows[id];
      ok := fate.Done?;
    }

    method InsertManagedIdentity(row: Row) returns (ok: bool)
      requires Valid()
      modifies this`calls, this`rows
      ensures Valid() && SameForOthers(old(rows), rows, row.identityId) && calls == old(calls) + 1
      ensures rows ==
        if !fates(old(calls)).Failed? && row.zitiIdentityId !in old(rows)
        then old(rows)[row.zitiIdentityId := row] else old(rows)
      ensures ok <==> fates(old(calls)).Done? && row.zitiIdentityId !in old(rows)
    {
      var fate := NextFate();
      if fate.Failed? || row.zitiIdentityId in rows {
        return false;
      }
      rows := rows[row.zitiIdentityId := row];
      ok := fate.Done?;
    }

    // ---- the client

    /** `listIdentityIDsByExternalID`: advances by the length of each page. */
    method ListIdentityIdsByExternalId(externalId: string) returns (listed: Result<seq<string>>)
      modifies this`calls
      ensures calls >= old(calls)
      ensures listed.Ok? ==> externalId != "" && listed.value == IdsOf(Holders(identities, externalId))
      ensures AllWell(old(calls)) && externalId != "" ==> listed.Ok?
    {
      if externalId == "" {
        return Err("external id is empty");
      }
      ghost var all := IdsOf(Holders(identities, externalId));
      var offset := 0;
      var identityIds: seq<string> := [];
      while true
        invariant calls >= old(calls)
        invariant offset <= |all| && identityIds == all[..offset]
        invariant offset == 0 || offset < |all|
        decreases |all| - offset
      {
        var reply := ListIdentities(externalId, offset);
        if reply.Err? {
          return Err(reply.error);
        }
        var Listing(data, totalCount) := reply.value;
        if totalCount.None? {
          return Err("response missing pagination");
        }
        if totalCount.value == 0 {
          return if data == [] then Ok([]) else Err("data with zero total count");
        }
        identityIds := identityIds + data;
        var pageCount := |data|;
        if pageCount == 0 {
          return Err("empty page");
        }
        if offset + pageCount >= totalCount.value {
          return Ok(identityIds);
        }
        offset := offset + pageCount;
      }
    }

    method DeleteIdentityByExternalId(externalId: string) returns (ok: bool, ghost gone: set<string>)
      requires Valid()
      modifies this`calls, this`identities
      ensures Valid() && calls >= old(calls)
      ensures Others(identities, externalId) == Others(old(identities), externalId)
      ensures identities == Without(old(identities), gone)
      ensures ok ==> identities == Others(old(identities), externalId)
      ensures AllWell(old(calls)) && externalId != "" ==> ok
    {
      ghost var before := identities;
      WithoutNone(before, {});
      var listed := ListIdentityIdsByExternalId(externalId);
      if listed.Err? {
        return false, {};
      }
      HolderIdsListed(before, externalId);
      ghost var n;
      ok, n := DeleteListed(listed.value);
      gone := First(listed.value, n);
      PartlyDeleted(before, externalId, listed.value, n);
    }

    /** The loop over the listed ids: "not found" is as good as deleted. The first
        `n` are gone when it ends. */
    method DeleteListed(ids: seq<string>) returns (ok: bool, ghost n: nat)
      requires Valid()
      modifies this`calls, this`identities
      ensures Valid() && calls >= old(calls)
      ensures n <= |ids| && identities == Without(old(identities), First(ids, n))
      ensures ok ==> n == |ids|
      ensures AllWell(old(calls)) ==> ok
    {
      ghost var before := identities;
      WithoutNone(before, First(ids, 0));
      for i := 0 to |ids|
        invariant Valid() && calls >= old(calls)
        invariant identities == Without(before, First(ids, i))
      {
        NextDeleted(before, ids, i);
        var r := DeleteIdentity(ids[i]);
        if r.DeleteError? {
          return false, if fates(calls - 1).Failed? then i else i + 1;
        }
      }
      return true, |ids|;
    }

    /** The identity created by call `n` stays: it is answered with, or the reply was
        lost, or the delete after a failed enrollment failed. */
    ghost predicate Stays(n: nat, ok: bool) {
      ok || fates(n).Lost? || (fates(n).Done? && fates(n + 1).Failed?)
    }

    /** `createAndEnrollIdentity`; `enrolled` says whether enrollment works. */
    method CreateAndEnrollIdentity(x: Identity, enrolled: bool) returns (created: Result<string>)
      requires Valid() && x.id !in used
      modifies this`calls, this`identities, this`used
      ensures Valid() && calls >= old(calls)
      ensures created.Ok? ==> created.value == x.id && identities == old(identities) + [x]
      ensures created.Err? ==>
        identities == old(identities) || identities == old(identities) + [x]
      ensures created.Err? && !fates(old(calls)).Lost? && !fates(old(calls) + 1).Failed? ==>
        identities == old(identities)
      ensures x.externalId.Some? && Holders(old(identities), x.externalId.value) == [] ==>
        var n := old(calls);
        && (created.Ok? <==> fates(n).Done? && enrolled)
        && calls == n + (if fates(n).Done? && !enrolled then 2 else 1)
        && identities == WithNew(old(identities), x, Stays(n, created.Ok?))
      ensures
        && AllWell(old(calls)) && enrolled
        && x.externalId.Some? && Holders(old(identities), x.externalId.value) == [] ==>
        created.Ok?
    {
      ghost var before := identities;
      created := CreateIdentity(x);
      if created.Err? {
        return;
      }
      if !enrolled {
        WithoutLast(before, x);
        var r := DeleteIdentity(x.id);
        return Err("enroll identity");
      }
    }

    /** The controller side of `CreateAndEnrollRunnerIdentityWithTags` and
        `CreateAndEnrollAppIdentityWithOptions`: replace, then create and enroll. */
    method ReplaceIdentity(x: Identity, externalId: string, enrolled: bool)
      returns (created: Result<string>, ghost create: nat, ghost gone: set<string>)
      requires Valid() && x.id !in used && x.externalId == Some(externalId)
      modifies this`calls, this`identities, this`used
      ensures Valid() && calls >= old(calls)
      ensures Others(identities, externalId) == Others(old(identities), externalId)
      ensures created.Ok? ==> created.value == x.id && Holders(identities, externalId) == [x]
      ensures created.Ok? ==> identities == Others(old(identities), externalId) + [x]
      ensures old(calls) <= create <= calls
      ensures calls == create ==> created.Err? && identities == Without(old(identities), gone)
      ensures calls > create ==>
        && (created.Ok? <==> fates(create).Done? && enrolled)
        && calls == create + (if fates(create).Done? && !enrolled then 2 else 1)
        && identities == WithNew(Others(old(identities), externalId), x, Stays(create, created.Ok?))
      ensures AllWell(old(calls)) && enrolled && externalId != "" ==> created.Ok?
    {
      ghost var before := identities;
      var ok;
      ok, gone := DeleteIdentityByExternalId(externalId);
      create := calls;
      if !ok {
        return Err("delete existing ziti identity"), create, gone;
      }
      OthersTwice(before, externalId);
      ghost var cleared := identities;
      created := CreateAndEnrollIdentity(x, enrolled);
      AppendHolder(cleared, x, externalId);
    }

    /** The table side: the row of `identityId` is replaced by one naming `zitiId`;
        if that fails the new identity is taken back, unless that delete fails. */
    method ReplaceRow(zitiId: string, identityId: string, identityType: int, ghost x: Identity,
                      ghost others: seq<Identity>)
      returns (ok: bool)
      requires Valid()
      requires identities == others + [x] && x.id == zitiId && Holds(x, identityId)
      modifies this`calls, this`identities, this`rows
      ensures Valid()
      ensures
        var n := old(calls);
        && (ok <==>
              && fates(n).Done? && fates(n + 1).Done?
              && KeyFree(old(rows), zitiId, identityId))
        && calls == n + (if fates(n).Done? && !ok then 3 else 2)
      ensures SameForOthers(old(rows), rows, identityId)
      ensures Others(identities, identityId) == Others(old(identities), identityId)
      ensures ok ==> identities == old(identities)
      ensures identities == WithNew(others, x, ok || fates(calls - 1).Failed?)
      ensures ok ==> zitiId in rows && rows[zitiId] == Row(zitiId, identityId, identityType, None)
      ensures ok ==> forall id :: id in rows && rows[id].identityId == identityId ==> id == zitiId
      ensures AllWell(old(calls)) && zitiId !in old(rows) ==> ok
    {
      OnlyLast(others, x);
      AppendHolder(others, x, identityId);
      ghost var rows0 := rows;
      var deleted := DeleteManagedIdentityByIdentityId(identityId);
      ghost var rows1 := rows;
      if !deleted {
        var r := DeleteIdentity(zitiId);
        return false;
      }
      var inserted := InsertManagedIdentity(Row(zitiId, identityId, identityType, None));
      SameForOthersTwice(rows0, rows1, rows, identityId);
      if !inserted {
        var r := DeleteIdentity(zitiId);
        return false;
      }
      return true;
    }

    // ---- the server

    /** `DeleteIdentity`: the row first, then the identity; "not found" on either
        side is no error. */
    method DeleteManagedAndZitiIdentity(id: string) returns (ok: bool)
      requires Valid()
      modifies this`calls, this`identities, this`rows
      ensures Valid()
      ensures id == "" ==> !ok && calls == old(calls) && rows == old(rows) && identities == old(identities)
      ensures id != "" ==>
        (Now(), ok) == DeleteOnce(old(Now()), id, fates(old(calls)), fates(old(calls) + 1))
      ensures id != "" ==>
        var n := old(calls);
        && (ok <==> fates(n).Done? && fates(n + 1).Done?)
        && rows == (if fates(n).Failed? then old(rows) else old(rows) - {id})
        && identities == (
             if fates(n).Done? && !fates(n + 1).Failed? then Without(old(identities), {id}) else old(identities))
        && services == old(services)
      ensures id != "" && AllWell(old(calls)) ==> ok
      ensures ok ==> id !in rows && identities == Without(old(identities), {id})
    {
      if id == "" {
        return false;
      }
      var row := DeleteManagedIdentity(id);
      if row.DeleteError? {
        return false;
      }
      var identity := DeleteIdentity(id);
      return !identity.DeleteError?;
    }

    /** What deletions work on. */
    function Now(): Sides
      reads this
    {
      Sides(rows, identities, services)
    }

    /** `zitiId` stands for the owner: it has the owner's only row, or the owner has
        no row and neither has `zitiId`. */
    ghost predicate StandsFor(zitiId: string, ownerId: string)
      reads this
    {
      OneRow(rows, ownerId, zitiId) || (NoRow(rows, ownerId) && zitiId !in rows)
    }

    /** An attempt that starts with call `n`: lookup, row, identity, service. Without a
        row the service is next. */
    function AttemptFrom(n: nat, rowless: bool): OwnerAttempt {
      OwnerAttempt(fates(n).Done?, fates(n + 1), fates(n + 2), fates(if rowless then n + 1 else n + 3))
    }

    /** `DeleteRunnerIdentity`; `request` is the service named in the request, or "". */
    method DeleteRunnerIdentity(runnerId: string, request: string, ghost zitiId: string) returns (ok: bool)
      requires Valid()
      modifies this`calls, this`identities, this`rows, this`services
      ensures Valid() && SameForOthers(old(rows), rows, runnerId)
      ensures old(StandsFor(zitiId, runnerId)) ==> StandsFor(zitiId, runnerId)
      ensures old(StandsFor(zitiId, runnerId)) ==>
        (Now(), ok) ==
          DeleteOwnerOnce(Runner, old(Now()), zitiId, request, AttemptFrom(old(calls), old(NoRow(rows, runnerId))))
      ensures old(OneRow(rows, runnerId, zitiId)) ==>
        var n, service := old(calls), if request != "" then request else old(rows)[zitiId].zitiServiceId.GetOr("");
        && (ok <==> Done3(n) && (service == "" || fates(n + 3).Done?))
        && rows == (if Done1(n) && !fates(n + 1).Failed? then old(rows) - {zitiId} else old(rows))
        && identities == (
             if Done2(n) && !fates(n + 2).Failed? then Without(old(identities), {zitiId})
             else old(identities))
        && services == (
             if Done3(n) && service != "" && !fates(n + 3).Failed? then old(services) - {service}
             else old(services))
      ensures old(NoRow(rows, runnerId)) ==> !ok && Now() == old(Now())
    {
      var works, row := ResolveIdentityByIdentityId(runnerId);
      if row.None? {
        return false;
      }
      var id := row.value.zitiIdentityId;
      assert StandsFor(zitiId, runnerId) ==> id == zitiId;
      var deleted := DeleteManagedIdentity(id);
      if !deleted.Deleted? {
        return false;
      }
      var gone := DeleteIdentity(id);
      if gone.DeleteError? {
        return false;
      }
      var service := if request == "" then row.value.zitiServiceId.GetOr("") else request;
      if service != "" {
        var r := DeleteService(service);
        return !r.DeleteError?;
      }
      return true;
    }

    /** `DeleteAppIdentity`. */
    method DeleteAppIdentity(appId: string, request: string, ghost zitiId: string) returns (ok: bool)
      requires Valid()
      modifies this`calls, this`identities, this`rows, this`services
      ensures Valid() && SameForOthers(old(rows), rows, appId)
      ensures old(StandsFor(zitiId, appId)) ==> StandsFor(zitiId, appId)
      ensures old(StandsFor(zitiId, appId)) ==>
        (Now(), ok) ==
          DeleteOwnerOnce(App, old(Now()), zitiId, request, AttemptFrom(old(calls), old(NoRow(rows, appId))))
      ensures old(OneRow(rows, appId, zitiId)) ==>
        var n, service := old(calls), if request != "" then request else old(rows)[zitiId].zitiServiceId.GetOr("");
        && (ok <==> Done3(n) && service != "" && fates(n + 3).Done?)
        && rows == (if Done1(n) && !fates(n + 1).Failed? then old(rows) - {zitiId} else old(rows))
        && identities == (
             if Done2(n) && !fates(n + 2).Failed? then Without(old(identities), {zitiId})
             else old(identities))
        && services == (
             if Done3(n) && service != "" && !fates(n + 3).Failed? then old(services) - {service}
             else old(services))
      ensures old(NoRow(rows, appId)) ==>
        var n := old(calls);
        && (ok <==> fates(n).Done? && request != "" && fates(n + 1).Done?)
        && rows == old(rows) && identities == old(identities)
        && services == (
             if fates(n).Done? && request != "" && !fates(n + 1).Failed? then old(services) - {request}
             else old(services))
    {
      var works, row := ResolveIdentityByIdentityId(appId);
      if !works {
        return false;
      }
      if row.Some? {
        var id := row.value.zitiIdentityId;
        assert StandsFor(zitiId, appId) ==> id == zitiId;
        var deleted := DeleteManagedIdentity(id);
        if deleted.DeleteError? {
          return false;
        }
        var gone := DeleteIdentity(id);
        if gone.DeleteError? {
          return false;
        }
      }
      var service := if request == "" && row.Some? then row.value.zitiServiceId.GetOr("") else request;
      if service == "" {
        return false;
      }
      var r := DeleteService(service);
      return !r.DeleteError?;
    }

    /** Both sides hold exactly one entry for `x.externalId`, and name each other. */
    ghost predicate OneToOne(x: Identity, id: string, identityType: int)
      reads this
    {
      && Holders(identities, id) == [x]
      && x.id in rows && rows[x.id] == Row(x.id, id, identityType, None)
      && forall other :: other in rows && rows[other].identityId == id ==> other == x.id
    }

    /** What an attempt to replace the identity of an owner comes to, whose create is
        call `create`, by what came before. Nothing is created unless that call is made;
        after it the owner has the new identity or none. It has the new one after an
        error exactly if the reply to the create was lost, or the last call, which is
        then the delete that takes it back, failed. */
    ghost predicate Accounted(x: Identity, ownerId: string, enrolled: bool, create: nat, gone: set<string>,
                              before: seq<Identity>, rowsBefore: Table, created: Result<string>)
      reads this
    {
      && create <= calls
      && (created.Ok? <==>
            create < calls && enrolled && Done3(create) && KeyFree(rowsBefore, x.id, ownerId))
      && (create == calls ==> identities == Without(before, gone))
      && (create < calls && created.Err? ==>
            identities == WithNew(Others(before, ownerId), x, LeftBehind(create, calls)))
      && (!enrolled || create == calls || !fates(create).Done? ==> rows == rowsBefore)
    }

    /** No row of another owner has the new primary key. */
    ghost predicate KeyFree(rowsBefore: Table, id: string, ownerId: string) {
      id !in rowsBefore || rowsBefore[id].identityId == ownerId
    }

    /** Of a failed attempt that made calls `create` up to `end`. */
    ghost predicate LeftBehind(create: nat, end: nat) {
      (end == create + 1 && fates(create).Lost?) || (end > create + 1 && fates(end - 1).Failed?)
    }

    lemma LeftByCreate(create: nat, end: nat, enrolled: bool)
      requires !(fates(create).Done? && enrolled) && end == create + (if fates(create).Done? && !enrolled then 2 else 1)
      ensures LeftBehind(create, end) <==> Stays(create, false)
    {
    }

    lemma LeftByRow(create: nat, end: nat)
      requires end > create + 1
      ensures LeftBehind(create, end) <==> fates(end - 1).Failed?
    {
    }

    ghost function WithNew(others: seq<Identity>, x: Identity, stays: bool): seq<Identity> {
      if stays then others + [x] else others
    }

    /** The common part of creating a runner's and an app's identity: the identity
        is replaced in the controller, then the row in the table. */
    method ReplaceOnBothSides(x: Identity, ownerId: string, identityType: int, enrolled: bool)
      returns (created: Result<string>, ghost create: nat, ghost gone: set<string>)
      requires Valid() && x.id !in used && x.externalId == Some(ownerId)
      modifies this`calls, this`identities, this`used, this`rows
      ensures Valid()
      ensures created.Ok? ==> created.value == x.id && OneToOne(x, ownerId, identityType)
      ensures Others(identities, ownerId) == Others(old(identities), ownerId)
      ensures SameForOthers(old(rows), rows, ownerId)
      ensures AllWell(old(calls)) && enrolled && ownerId != "" && x.id !in old(rows) ==> created.Ok?
      ensures old(calls) <= create && Accounted(x, ownerId, enrolled, create, gone, old(identities), old(rows), created)
    {
      ghost var others := Others(identities, ownerId);
      created, create, gone := ReplaceIdentity(x, ownerId, enrolled);
      if created.Err? {
        if calls > create {
          LeftByCreate(create, calls, enrolled);
        }
        return;
      }
      var ok := ReplaceRow(x.id, ownerId, identityType, x, others);
      LeftByRow(create, calls);
      if !ok {
        created := Err("managed identity");
      }
    }

    /** `newId` and `suffix` are what the controller and the name generator give. */
    method CreateRunnerIdentity(runnerId: string, roleAttributes: seq<string>, newId: string, suffix: string,
                                enrolled: bool)
      returns (created: Result<string>, ghost create: nat, ghost gone: set<string>)
      requires Valid() && newId !in used
      modifies this`calls, this`identities, this`used, this`rows
      ensures Valid()
      ensures roleAttributes == [] ==>
        created.Err? && calls == old(calls) && identities == old(identities) && used == old(used) && rows == old(rows)
      ensures roleAttributes != [] ==>
        && old(calls) <= create
        && Accounted(Identity(newId, "runner-" + runnerId + "-" + suffix, Some(runnerId), roleAttributes), runnerId,
                     enrolled, create, gone, old(identities), old(rows), created)
      ensures created.Ok? ==>
        && created.value == newId
        && OneToOne(Identity(newId, "runner-" + runnerId + "-" + suffix, Some(runnerId), roleAttributes),
                    runnerId, TYPE_RUNNER)
      ensures Others(identities, runnerId) == Others(old(identities), runnerId)
      ensures SameForOthers(old(rows), rows, runnerId)
      ensures AllWell(old(calls)) && enrolled && roleAttributes != [] && runnerId != "" && newId !in old(rows) ==>
        created.Ok?
    {
      create, gone := calls, {};
      if roleAttributes == [] {
        return Err("role_attributes is required"), create, gone;
      }
      var x := Identity(newId, "runner-" + runnerId + "-" + suffix, Some(runnerId), roleAttributes);
      created, create, gone := ReplaceOnBothSides(x, runnerId, TYPE_RUNNER, enrolled);
    }

    /** `slug` comes trimmed. */
    method CreateAppIdentity(appId: string, slug: string, additionalRoleAttributes: seq<string>,
                             newId: string, suffix: string, enrolled: bool)
      returns (created: Result<string>, ghost create: nat, ghost gone: set<string>)
      requires Valid() && newId !in used
      modifies this`calls, this`identities, this`used, this`rows
      ensures Valid()
      ensures slug == "" ==>
        created.Err? && calls == old(calls) && identities == old(identities) && used == old(used) && rows == old(rows)
      ensures slug != "" ==>
        && old(calls) <= create
        && Accounted(Identity(newId, "app-" + slug + "-" + suffix, Some(appId),
                              RoleAttributes.Patched(["apps", "app-" + appId], additionalRoleAttributes, [""])),
                     appId, enrolled, create, gone, old(identities), old(rows), created)
      ensures created.Ok? ==>
        && created.value == newId
        && OneToOne(Identity(newId, "app-" + slug + "-" + suffix, Some(appId),
                             RoleAttributes.Patched(["apps", "app-" + appId], additionalRoleAttributes, [""])),
                    appId, TYPE_APP)
      ensures Others(identities, appId) == Others(old(identities), appId)
      ensures SameForOthers(old(rows), rows, appId)
      ensures AllWell(old(calls)) && enrolled && slug != "" && appId != "" && newId !in old(rows) ==> created.Ok?
    {
      create, gone := calls, {};
      if slug == "" {
        return Err("slug is required"), create, gone;
      }
      var roleAttributes := RoleAttributes.MergeRoleAttributes(["apps", "app-" + appId], additionalRoleAttributes);
      var x := Identity(newId, "app-" + slug + "-" + suffix, Some(appId), roleAttributes);
      created, create, gone := ReplaceOnBothSides(x, appId, TYPE_APP, enrolled);
    }
  }
}
