/**
 The calls of the service-identity protocol as the program text runs them,
 without interruption. Each method is shown to be a run of `LeaseProtocol`, so
 that what holds of every interleaving of steps holds of the code that takes them.
 */
module ServiceIdentityCalls {
  import opened LeaseProtocol
  import opened RemoteCalls
  import opened Wrappers

  /** The service types that are known, other than "unspecified", by the number the table stores. */
  predicate IsServiceType(value: int) {
    value in {1, 2, 4, 5, 6, 7, 8}
  }

  datatype Status = OK | InvalidArgument | NotFound | Internal

  /** What becomes of the remote calls one request makes. */
  datatype Fates = Fates(create: Outcome, enroll: bool, insert: Outcome, cleanup: Outcome)

  lemma AddedAndTakenBack(ids: set<string>, id: string)
    requires id !in ids
    ensures ids + {id} - {id} == ids
  {
  }

  lemma ForgottenAgain(requests: map<nat, Request>, r: nat, request: Request)
    requires r !in requests
    ensures requests[r := request] - {r} == requests
  {
  }

  class Deployment {
    const ttl: int
    var state: State
    ghost const t0: int
    ghost var run: seq<Step> // everything that happened since the start

    ghost predicate Valid()
      reads this
    {
      Legal(ttl, Init(t0), run) && Final(ttl, Init(t0), run) == state
    }

    constructor (ttl: int, now: int)
      ensures Valid() && state == Init(now) && run == [] && this.ttl == ttl
    {
      this.ttl := ttl;
      this.t0 := now;
      this.state := Init(now);
      this.run := [];
    }

    /** One remote call, or one local action, of the program. */
    method Do(step: Step)
      requires Valid() && Enabled(state, step)
      modifies this
      ensures Valid() && run == old(run) + [step]
      ensures state == Apply(ttl, old(state), step)
    {
      RunGrows(ttl, Init(t0), run, step);
      state := Apply(ttl, state, step);
      run := run + [step];
    }

    /** `cleanupServiceIdentity` and `cleanupZitiIdentity`: one delete, whose
        failure is only logged. */
    method CleanUpIdentity(r: nat, fate: Outcome)
      requires Valid() && r in state.requests && state.requests[r].CleaningUp?
      modifies this
      ensures Valid() && old(run) <= run
      ensures state == old(state).(
        live := if fate.Failed? then old(state.live) else old(state.live) - {old(state.requests[r].id)},
        requests := old(state.requests) - {r})
    {
      Do(CleanUp(r, fate));
    }

    method CreateAndEnrollIdentity(r: nat, newId: string, fates: Fates)
      returns (result: Result<string>)
      requires Valid() && r !in state.requests && newId !in state.used
      modifies this
      ensures Valid() && old(run) <= run
      ensures result.Ok? <==> fates.create.Done? && fates.enroll
      ensures result.Ok? ==>
        && result.value == newId
        && state == old(state).(
             live := old(state.live) + {newId}, used := old(state.used) + {newId},
             requests := old(state.requests)[r := Enrolled(newId)])
      ensures result.Err? ==>
        state == old(state).(
          live := if fates.create.Lost? || (fates.create.Done? && fates.cleanup.Failed?)
                  then old(state.live) + {newId} else old(state.live),
          used := if fates.create.Failed? then old(state.used) else old(state.used) + {newId})
    {
      ghost var before := state;
      FreshIsNotLive(ttl, t0, run, newId);
      if fates.create.Failed? {
        return Err("create service identity");
      }
      if fates.create.Lost? {
        Do(CreateUnanswered(newId));
        return Err("create service identity");
      }
      Do(Create(r, newId));
      Do(Enroll(r, fates.enroll));
      assert state.requests == before.requests[r := state.requests[r]];
      if !fates.enroll {
        CleanUpIdentity(r, fates.cleanup);
        assert state.requests == before.requests;
        assert !fates.cleanup.Failed? ==> state.live == before.live;
        return Err("enroll service identity");
      }
      return Ok(newId);
    }

    /** The client's create and enroll followed by the INSERT, each with its
        compensating delete. */
    method RequestServiceIdentity(serviceType: int, r: nat, newId: string, reading: int, fates: Fates)
      returns (result: Result<string>)
      requires Valid() && r !in state.requests && newId !in state.used
      modifies this
      ensures Valid() && old(run) <= run
      ensures state.requests == old(state.requests)
      ensures !IsServiceType(serviceType) ==> result.Err? && state == old(state)
      ensures result.Ok? <==>
        IsServiceType(serviceType) && fates.create.Done? && fates.enroll && fates.insert.Done?
      ensures IsServiceType(serviceType) <==> 1 <= serviceType <= 8 && serviceType != 3
      ensures result.Ok? ==>
        && result.value == newId
        && state.live == old(state.live) + {newId}
        && state.rows == old(state.rows)[newId := reading + ttl]
        && state.issued == old(state.issued) + {newId}
      ensures result.Err? && IsServiceType(serviceType) ==>
        && state.issued == old(state.issued)
        && state.live == (
             if fates.create.Lost? || (fates.create.Done? && fates.cleanup.Failed?)
             then old(state.live) + {newId} else old(state.live))
        && state.rows == (
             if fates.create.Done? && fates.enroll && fates.insert.Lost?
             then old(state.rows)[newId := reading + ttl] else old(state.rows))
    {
      if !IsServiceType(serviceType) {
        return Err("service_type");
      }
      FreshIsNotLive(ttl, t0, run, newId);
      AddedAndTakenBack(state.live, newId);
      ForgottenAgain(state.requests, r, Enrolled(newId));
      var created := CreateAndEnrollIdentity(r, newId, fates);
      if created.Err? {
        return created;
      }
      result := InsertServiceIdentity(r, reading, fates.insert, fates.cleanup);
    }

    /** The lease is computed from the server's clock, then inserted; a failed
        INSERT takes the identity back. */
    method InsertServiceIdentity(r: nat, reading: int, insert: Outcome, cleanup: Outcome)
      returns (result: Result<string>)
      requires Valid() && r in state.requests && state.requests[r].Enrolled?
      modifies this
      ensures Valid() && old(run) <= run
      ensures state.requests == old(state.requests) - {r}
      ensures result.Ok? <==> insert.Done?
      ensures result.Ok? ==> result.value == old(state.requests[r].id)
      ensures state.issued == old(state.issued) + if insert.Done? then {old(state.requests[r].id)} else {}
      ensures state.live ==
        if insert.Done? || cleanup.Failed? then old(state.live)
        else old(state.live) - {old(state.requests[r].id)}
      ensures state.rows ==
        if insert.Failed? then old(state.rows)
        else old(state.rows)[old(state.requests[r].id) := reading + ttl]
    {
      ghost var before := state;
      var id := state.requests[r].id;
      EnrolledHasNoRow(ttl, t0, run, r);
      Do(ComputeLease(r, reading));
      Do(Insert(r, insert));
      if insert.Done? {
        assert state.requests == before.requests - {r};
        return Ok(id);
      }
      assert state.requests[r] == CleaningUp(id);
      CleanUpIdentity(r, cleanup);
      assert state.requests == before.requests - {r};
      return Err("insert service identity");
    }

    method ExtendIdentityLease(c: nat, id: string, reading: int, fate: Outcome)
      returns (status: Status)
      requires Valid() && c !in state.extensions
      modifies this
      ensures Valid() && old(run) <= run
      ensures status.InvalidArgument? <==> id == ""
      ensures id == "" ==> state == old(state)
      ensures status.OK? <==> id != "" && fate.Done? && id in old(state.rows)
      ensures status.NotFound? <==> id != "" && fate.Done? && id !in old(state.rows)
      ensures state.rows ==
        if id != "" && !fate.Failed? && id in old(state.rows)
        then old(state.rows)[id := reading + ttl] else old(state.rows)
      ensures state.live == old(state.live) && state.extensions == old(state.extensions)
      ensures status.NotFound? && id in state.issued ==> LostForever(state, id)
    {
      if id == "" {
        return InvalidArgument;
      }
      ghost var start := run;
      InvReachable(ttl, t0, run, |run|);
      Do(BeginExtend(c, id, reading));
      var found := id in state.rows;
      Do(CommitExtend(c, fate));
      assert start <= run;
      assert state.extensions == old(state.extensions);
      status := if !fate.Done? then Internal else if found then OK else NotFound;
    }

    /** Executes the query of `ListExpiredServiceIdentities`. */
    method ListExpiredServiceIdentities() returns (listing: seq<Entry>)
      ensures IsExpiredListing(state, listing)
      ensures forall id :: (exists e :: e in listing && e.id == id) <==> id in state.rows && state.rows[id] < state.now
    {
      var expired := set id | id in state.rows && state.rows[id] < state.now;
      listing := [];
      var left := expired;
      while left != {}
        invariant left <= expired
        invariant ListedSoFar(state.rows, expired, left, listing)
        decreases left
      {
        var next := EarliestExpiry(left);
        ListNext(state.rows, expired, left, listing, next);
        listing := listing + [Entry(next, state.rows[next])];
        left := left - {next};
      }
    }

    /** The row that ORDER BY puts next. */
    method EarliestExpiry(ids: set<string>) returns (next: string)
      requires ids != {} && ids <= state.rows.Keys
      ensures next in ids && forall id :: id in ids ==> state.rows[next] <= state.rows[id]
    {
      next :| next in ids;
      var left := ids - {next};
      while left != {}
        invariant left <= ids && next in ids
        invariant forall id :: id in ids - left ==> state.rows[next] <= state.rows[id]
        decreases left
      {
        var id :| id in left;
        if state.rows[id] < state.rows[next] {
          next := id;
        }
        left := left - {id};
      }
    }

    /** One turn of the sweep's loop: the controller delete, and the row delete
        unless the first failed. */
    method SweepEntry(w: nat, identityFate: Outcome, rowFate: Outcome)
      requires Valid() && w in state.sweepers && state.sweepers[w].DeletingIdentity?
      requires state.sweepers[w].work != []
      modifies this
      ensures Valid() && old(run) <= run
      ensures state == old(state).(
        live := if identityFate.Failed? then old(state.live)
                else old(state.live) - {old(state.sweepers[w].work[0].id)},
        rows := if identityFate.Done? && !rowFate.Failed?
                then old(state.rows) - {old(state.sweepers[w].work[0].id)} else old(state.rows),
        sweepers := Continue(old(state.sweepers), w, old(state.sweepers[w].work[1..])))
    {
      ghost var before := state;
      Do(SweepIdentity(w, identityFate));
      if identityFate.Done? {
        Do(SweepRow(w, rowFate));
        assert state.sweepers == Continue(before.sweepers, w, before.sweepers[w].work[1..]);
      }
    }

    /** The sweep's loop over its listing. */
    method SweepListing(w: nat, listing: seq<Entry>,
                        identityFate: string -> Outcome, rowFate: string -> Outcome)
      requires Valid() && listing != []
      requires w in state.sweepers && state.sweepers[w] == DeletingIdentity(listing)
      modifies this
      ensures Valid() && old(run) <= run
      ensures state == old(state).(
        live := old(state.live) - IdsWhere(listing, EffectiveDelete(identityFate)),
        rows := old(state.rows) - IdsWhere(listing, EffectiveCollection(identityFate, rowFate)),
        sweepers := old(state.sweepers) - {w})
    {
      ghost var before := state;
      var i := 0;
      while i < |listing|
        invariant Valid() && old(run) <= run
        invariant 0 <= i <= |listing|
        invariant i < |listing| ==> w in state.sweepers && state.sweepers[w] == DeletingIdentity(listing[i..])
        invariant state == before.(
          live := before.live - IdsWhere(listing[..i], EffectiveDelete(identityFate)),
          rows := before.rows - IdsWhere(listing[..i], EffectiveCollection(identityFate, rowFate)),
          sweepers := Continue(before.sweepers, w, listing[i..]))
      {
        var id := listing[i].id;
        IdsWhereGrows(listing, i, EffectiveDelete(identityFate));
        IdsWhereGrows(listing, i, EffectiveCollection(identityFate, rowFate));
        SweepEntry(w, identityFate(id), rowFate(id));
        assert listing[i..][1..] == listing[i + 1..];
        i := i + 1;
      }
      assert listing[..i] == listing;
    }

    /** `sweepServiceIdentities`. The fates of the two deletes are given per id;
        a sweep visits an id once. */
    method SweepServiceIdentities(w: nat, listFails: bool,
                                  identityFate: string -> Outcome, rowFate: string -> Outcome)
      returns (ok: bool)
      requires Valid() && w !in state.sweepers
      modifies this
      ensures Valid() && old(run) <= run
      ensures ok <==> !listFails
      ensures !ok ==> state == old(state)
      ensures ok ==> state == old(state).(
        live := old(state.live) - IdentitiesDeleted(old(state), identityFate),
        rows := old(state.rows) - RowsCollected(old(state), identityFate, rowFate))
      ensures ok ==> forall id :: id in old(state.rows) ==>
        (id !in state.rows <==>
           old(state.rows)[id] < old(state.now) && identityFate(id).Done? && !rowFate(id).Failed?)
      ensures ok ==> forall id :: id in old(state.live) ==>
        (id !in state.live <==>
           id in old(state.rows) && old(state.rows)[id] < old(state.now) && !identityFate(id).Failed?)
    {
      if listFails {
        return false;
      }
      var listing := ListExpiredServiceIdentities();
      ghost var before := state;
      SweepCovers(before, listing, identityFate, rowFate);
      Do(ListExpired(w, listing));
      if listing == [] {
        assert state == before;
        assert before.live == before.live - {} && before.rows == before.rows - {};
        return true;
      }
      SweepListing(w, listing, identityFate, rowFate);
      assert state.sweepers == before.sweepers;
      return true;
    }
  }

  /** The entries of `expired` except `left`, by expiry, none later than any of `left`. */
  ghost predicate ListedSoFar(rows: map<string, int>, expired: set<string>, left: set<string>, listing: seq<Entry>)
    requires left <= expired <= rows.Keys
  {
    && (forall k :: 0 <= k < |listing| ==>
          listing[k].id in expired - left && listing[k].expires == rows[listing[k].id])
    && (forall k, l :: 0 <= k < l < |listing| ==> listing[k].id != listing[l].id)
    && (forall k, l :: 0 <= k < l < |listing| ==> listing[k].expires <= listing[l].expires)
    && (forall k, id :: 0 <= k < |listing| && id in left ==> listing[k].expires <= rows[id])
    && (forall id :: id in expired - left ==> Entry(id, rows[id]) in listing)
  }

  lemma ListNext(rows: map<string, int>, expired: set<string>, left: set<string>, listing: seq<Entry>, next: string)
    requires left <= expired <= rows.Keys && ListedSoFar(rows, expired, left, listing)
    requires next in left && forall id :: id in left ==> rows[next] <= rows[id]
    ensures ListedSoFar(rows, expired, left - {next}, listing + [Entry(next, rows[next])])
  {
    var more := listing + [Entry(next, rows[next])];
    assert forall k :: 0 <= k < |listing| ==> more[k] == listing[k];
    assert more[|listing|] == Entry(next, rows[next]);
    forall id | id in expired - (left - {next}) ensures Entry(id, rows[id]) in more {
      assert id == next || Entry(id, rows[id]) in listing;
    }
  }

  lemma FreshIsNotLive(ttl: int, t0: int, run: seq<Step>, id: string)
    requires Legal(ttl, Init(t0), run) && id !in Final(ttl, Init(t0), run).used
    ensures id !in Final(ttl, Init(t0), run).live
  {
    InvReachable(ttl, t0, run, |run|);
  }

  lemma EnrolledHasNoRow(ttl: int, t0: int, run: seq<Step>, r: nat)
    requires Legal(ttl, Init(t0), run)
    requires r in Final(ttl, Init(t0), run).requests && Final(ttl, Init(t0), run).requests[r].Enrolled?
    ensures Final(ttl, Init(t0), run).requests[r].id !in Final(ttl, Init(t0), run).rows
  {
    InvReachable(ttl, t0, run, |run|);
  }

  ghost function EffectiveDelete(identityFate: string -> Outcome): Entry -> bool {
    (e: Entry) => !identityFate(e.id).Failed?
  }

  ghost function EffectiveCollection(identityFate: string -> Outcome, rowFate: string -> Outcome): Entry -> bool {
    (e: Entry) => identityFate(e.id).Done? && !rowFate(e.id).Failed?
  }

  /** The expired rows' identities whose controller delete took effect. */
  ghost function IdentitiesDeleted(s: State, identityFate: string -> Outcome): set<string> {
    set id | id in s.rows && s.rows[id] < s.now && !identityFate(id).Failed?
  }

  /** The expired rows that go: the controller delete was answered "deleted" or
      "not found", and the row delete took effect. */
  ghost function RowsCollected(s: State, identityFate: string -> Outcome, rowFate: string -> Outcome): set<string> {
    set id | id in s.rows && s.rows[id] < s.now && identityFate(id).Done? && !rowFate(id).Failed?
  }

  ghost function IdsWhere(listing: seq<Entry>, p: Entry -> bool): set<string> {
    set k | 0 <= k < |listing| && p(listing[k]) :: listing[k].id
  }

  lemma IdsWhereGrows(listing: seq<Entry>, i: nat, p: Entry -> bool)
    requires i < |listing|
    ensures IdsWhere(listing[..i + 1], p) ==
      IdsWhere(listing[..i], p) + if p(listing[i]) then {listing[i].id} else {}
  {
    var more := listing[..i + 1];
    assert forall k :: 0 <= k < i ==> more[k] == listing[..i][k];
    assert more[i] == listing[i];
  }

  lemma ListingCoversExpired(s: State, listing: seq<Entry>, p: Entry -> bool)
    requires IsExpiredListing(s, listing)
    ensures IdsWhere(listing, p) == set id | id in s.rows && s.rows[id] < s.now && p(Entry(id, s.rows[id]))
  {
    forall id | id in s.rows && s.rows[id] < s.now && p(Entry(id, s.rows[id]))
      ensures id in IdsWhere(listing, p)
    {
      var e := Entry(id, s.rows[id]);
      var k :| 0 <= k < |listing| && listing[k] == e;
    }
    forall id | id in IdsWhere(listing, p)
      ensures id in s.rows && s.rows[id] < s.now && p(Entry(id, s.rows[id]))
    {
      var k :| 0 <= k < |listing| && p(listing[k]) && listing[k].id == id;
      assert listing[k] == Entry(id, s.rows[id]);
    }
  }

  lemma SweepCovers(s: State, listing: seq<Entry>, identityFate: string -> Outcome, rowFate: string -> Outcome)
    requires IsExpiredListing(s, listing)
    ensures IdsWhere(listing, EffectiveDelete(identityFate)) == IdentitiesDeleted(s, identityFate)
    ensures IdsWhere(listing, EffectiveCollection(identityFate, rowFate)) == RowsCollected(s, identityFate, rowFate)
    ensures listing == [] ==> IdentitiesDeleted(s, identityFate) == {} && RowsCollected(s, identityFate, rowFate) == {}
  {
    ListingCoversExpired(s, listing, EffectiveDelete(identityFate));
    ListingCoversExpired(s, listing, EffectiveCollection(identityFate, rowFate));
  }
}
