/**
 The server's CreateService: what it does with a create that failed, and what a
 client reaches by sending the same request again and again.
 */
module ServiceRequests {
  import opened Wrappers
  import opened ServiceController
  import opened ServiceCreation

  /** A request that is not rejected without a call. */
  predicate Acceptable(req: Request) {
    req.name != "" && req.roleAttributes != []
  }

  function RolesOnly(req: Request): ServicePatch {
    ServicePatch(None, Some(req.roleAttributes), None)
  }

  /** While retrying, adopting the service changes nothing: whatever there is of that
      name is a piece of what was asked for. */
  lemma AdoptedServiceIsOurs(base: State, s: State, req: Request, id: Id)
    requires Retrying(base, s, req)
    requires id in s.services && s.services[id].name == req.name
    ensures PatchedService(s, id, RolesOnly(req)) == s && id !in base.services
  {
    assert id !in base.services;
    assert IsPiece(s.configs, s.services[id], req);
    assert PatchedService(s, id, RolesOnly(req)).services == s.services;
  }

  /** The services after the role attributes of `id` have been set as asked for. */
  function RolesSet(services: map<Id, Service>, id: Id, req: Request): map<Id, Service>
    requires id in services
  {
    services[id := services[id].(roleAttributes := req.roleAttributes)]
  }

  /** Every service stays as it is, but for the role attributes of one of that name. */
  ghost predicate ServicesKept(s: State, s': State, req: Request) {
    forall id :: id in s.services ==>
      && id in s'.services
      && (|| s'.services[id] == s.services[id]
          || (s.services[id].name == req.name &&
              s'.services[id] == s.services[id].(roleAttributes := req.roleAttributes)))
  }

  /** What answering a failed create with the service of that name comes to, from call
      `n` on. */
  ghost predicate AdoptOutcome(c: Controller, n: nat, base: State, s: State, s': State, req: Request, r: Reply<Id>,
                               calls: nat) {
    && s'.configs == s.configs && ServicesKept(s, s', req)
    && (r.Answered? <==> ServiceNameTaken(s, req.name) && c.fates(n).Works? && c.fates(n + 1).Works?)
    && (r.Answered? ==>
          && r.value in s.services && s.services[r.value].name == req.name
          && s'.services == RolesSet(s.services, r.value, req))
    && (r.Refused? && c.Definite(n) ==> s' == s)
    && (r.Crashed? ==> !c.NoCrash(n))
    && (!r.Crashed? ==> calls == n + if ServiceNameTaken(s, req.name) && c.fates(n).Works? then 2 else 1)
    && (Retrying(base, s, req) ==> s' == s && (r.Answered? ==> r.value !in base.services))
  }

  /** Answers a failed create with the service that has the name, if there is one,
      once it has the role attributes asked for. */
  method AdoptService(c: Controller, req: Request, ghost base: State) returns (r: Reply<Id>)
    requires c.Valid()
    modifies c`calls, c`state
    ensures c.Valid() && c.calls >= old(c.calls)
    ensures AdoptOutcome(c, old(c.calls), base, old(c.state), c.state, req, r, c.calls)
  {
    var found := c.FindServiceByName(req.name);
    if !found.Answered? {
      return if found.Crashed? then Crashed else Refused;
    }
    if found.value.None? {
      return Refused;
    }
    var id := found.value.value;
    if Retrying(base, c.state, req) {
      AdoptedServiceIsOurs(base, c.state, req, id);
    }
    var patched := c.PatchService(id, RolesOnly(req));
    r := match patched case Crashed => Crashed case Refused => Refused case Answered(_) => Answered(id);
  }

  // ---------------------------------------------------------------- what an adopted service holds

  /** The service holds a config of that name. */
  ghost predicate Holds(s: State, service: Id, name: string) {
    service in s.services &&
    exists k :: 0 <= k < |s.services[service].configs| && HoldsAt(s, s.services[service].configs[k], name)
  }

  ghost predicate HoldsAt(s: State, id: Id, name: string) {
    id in s.configs && s.configs[id].name == name
  }

  /** The service holds a config of that name with the data asked for. */
  ghost predicate Carries(s: State, service: Id, config: Config) {
    service in s.services &&
    exists k :: 0 <= k < |s.services[service].configs| && CarriesAt(s, s.services[service].configs[k], config)
  }

  ghost predicate CarriesAt(s: State, id: Id, config: Config) {
    HoldsAt(s, id, config.name) && s.configs[id].data == config.data
  }

  /** A service that was there carries a config asked for exactly if it did before, or
      held one of that name that the attempt got to rewrite. */
  lemma AdoptedServiceCarries(fates: Fates, s0: State, s: State, req: Request, n: nat, service: Id, config: Config)
    requires WellFormed(s0) && Preserved(s0, s, Wanted(req)) && DataRewritten(fates, s0, s, req, n)
    requires service in s0.services && service in s.services
    requires s.services[service].configs == s0.services[service].configs
    requires config in Wanted(req)
    ensures Carries(s, service, config) <==>
      || Carries(s0, service, config)
      || (Holds(s0, service, config.name) && RewritesConfig(fates, req, TakenNames(s0, req), config, n))
  {
    var configs := s0.services[service].configs;
    var rewritten := RewritesConfig(fates, req, TakenNames(s0, req), config, n);
    forall k | 0 <= k < |configs|
      ensures CarriesAt(s, configs[k], config) <==>
        CarriesAt(s0, configs[k], config) || (HoldsAt(s0, configs[k], config.name) && rewritten)
    {
      assert configs[k] in s0.configs;
    }
  }

  /** What an adoption leaves of the state from before the failed create. */
  ghost predicate AdoptionKeeps(s0: State, s: State, req: Request, service: Id, log: seq<Event>, start: nat)
    requires start <= |log|
  {
    && service in s0.services && s0.services[service].name == req.name
    && s.services == RolesSet(s0.services, service, req)
    && s.configs.Keys == s0.configs.Keys + CreatedSince(log, start) * DeleteFailedSince(log, start)
    && Preserved(s0, s, Wanted(req))
  }

  lemma AdoptionKept(s0: State, s1: State, s: State, req: Request, service: Id, log: seq<Event>, start: nat)
    requires start <= |log| && RolledBack(s0, s1, req, log, start)
    requires service in s1.services && s1.services[service].name == req.name
    requires s.services == RolesSet(s1.services, service, req) && s.configs == s1.configs
    ensures AdoptionKeeps(s0, s, req, service, log, start)
  {
  }

  // ---------------------------------------------------------------- the request

  /** One request: the state it found, the number of its first call, the state it left,
      the number of the next call, and its answer. */
  datatype Attempt = Attempt(found: State, first: nat, left: State, next: nat, reply: Reply<Id>)

  /** The create of the attempt fails, and the name is taken afterwards. */
  predicate LeavesNameTaken(fates: Fates, req: Request, taken: Names, n: nat) {
    taken.service || LosesReply(fates, req, taken, n)
  }

  /** The two calls of the adoption work. */
  predicate AdoptionWorks(fates: Fates, req: Request, taken: Names, n: nat) {
    fates(AfterCreate(fates, req, taken, n)).Works? && fates(AfterCreate(fates, req, taken, n) + 1).Works?
  }

  /** The first call after the request, unless the process dies. */
  function AfterRequest(fates: Fates, req: Request, taken: Names, n: nat): nat {
    var m := AfterCreate(fates, req, taken, n);
    if MakesService(fates, req, taken, n) || !req.returnExisting then m
    else if LeavesNameTaken(fates, req, taken, n) && fates(m).Works? then m + 2
    else m + 1
  }

  /** The adopted service was there, and carries what the attempt's calls make it carry. */
  ghost predicate AdoptedAsFound(fates: Fates, req: Request, a: Attempt, service: Id) {
    && service in a.found.services && a.found.services[service].name == req.name
    && forall config :: config in Wanted(req) ==>
         (Carries(a.left, service, config) <==>
            || Carries(a.found, service, config)
            || (Holds(a.found, service, config.name) &&
                RewritesConfig(fates, req, TakenNames(a.found, req), config, a.first)))
  }

  /** What an acceptable request comes to, by the fates of its calls. */
  ghost predicate Served(c: Controller, base: State, req: Request, a: Attempt) {
    var taken := TakenNames(a.found, req);
    && a.first <= a.next && Preserved(a.found, a.left, Wanted(req)) && ServicesKept(a.found, a.left, req)
    && (a.reply.Crashed? ==> !c.NoCrash(a.first))
    && (!a.reply.Crashed? ==> a.next == AfterRequest(c.fates, req, taken, a.first))
    && (!a.reply.Crashed? ==>
          (a.reply.Answered? <==>
             || MakesService(c.fates, req, taken, a.first)
             || (req.returnExisting && LeavesNameTaken(c.fates, req, taken, a.first)
                 && AdoptionWorks(c.fates, req, taken, a.first))))
    && (a.reply.Answered? && MakesService(c.fates, req, taken, a.first) ==>
          a.reply.value in a.left.services &&
          AsAsked(a.found.configs, a.left.configs, a.left.services[a.reply.value], req))
    && (a.reply.Answered? && taken.service ==> AdoptedAsFound(c.fates, req, a, a.reply.value))
    && RetryKept(base, a.found, a.left, req, Strips(c.fates, req, taken, a.first))
    && (Retrying(base, a.found, req) && a.reply.Answered? ==>
          && a.reply.value in a.left.services && a.reply.value !in base.services
          && (Converged(base, a.left, req, a.reply.value) <==> Whole(base, a.left, req)))
  }

  /** With definite replies, what it leaves is what there was, with the service made or
      adopted, or with the create rolled back. */
  ghost predicate Accounted(req: Request, a: Attempt, log: seq<Event>, start: nat)
    requires start <= |log|
  {
    && (a.reply.Refused? ==> RolledBack(a.found, a.left, req, log, start))
    && (a.reply.Answered? ==>
          if ServiceNameTaken(a.found, req.name) then AdoptionKeeps(a.found, a.left, req, a.reply.value, log, start)
          else Made(a.found, a.left, req, a.reply.value, log, start))
  }

  /** A create that was not followed by an adoption. */
  lemma CreateServed(c: Controller, base: State, req: Request, a: Attempt, log: seq<Event>, start: nat)
    requires start <= |log| && a.first <= a.next && (a.reply.Refused? ==> !req.returnExisting)
    requires CreateOutcome(c, a.first, a.found, a.left, log, start, a.next, req, base, a.reply)
    ensures Served(c, base, req, a)
    ensures !a.reply.Crashed? && c.Definite(a.first) ==> Accounted(req, a, log, start)
  {
    if Retrying(base, a.found, req) && a.reply.Answered? {
      ConvergedIffWhole(base, a.left, req, a.reply.value);
    }
  }

  /** The service adopted is the one that had the name. */
  lemma AdoptedWasThere(s0: State, s: State, req: Request, service: Id)
    requires WellFormed(s) && Undisturbed(s0, s, req) && ServiceNameTaken(s0, req.name)
    requires service in s.services && s.services[service].name == req.name
    ensures service in s0.services && s0.services[service] == s.services[service]
  {
    var there :| there in s0.services && s0.services[there].name == req.name;
    assert ServiceNamesakes(s, there, service);
  }

  /** What the adopted service carries. */
  lemma AdoptionFound(c: Controller, req: Request, a: Attempt, s1: State, base: State, log: seq<Event>, start: nat)
    requires start <= |log| && WellFormed(a.found) && WellFormed(s1) && a.reply.Answered?
    requires ServiceNameTaken(a.found, req.name)
    requires Undisturbed(a.found, s1, req) && DataRewritten(c.fates, a.found, s1, req, a.first)
    requires a.reply.value in s1.services && s1.services[a.reply.value].name == req.name
    requires a.left.services == RolesSet(s1.services, a.reply.value, req) && a.left.configs == s1.configs
    ensures AdoptedAsFound(c.fates, req, a, a.reply.value)
  {
    AdoptedWasThere(a.found, s1, req, a.reply.value);
    forall config | config in Wanted(req)
      ensures Carries(a.left, a.reply.value, config) <==>
        || Carries(a.found, a.reply.value, config)
        || (Holds(a.found, a.reply.value, config.name) &&
            RewritesConfig(c.fates, req, TakenNames(a.found, req), config, a.first))
    {
      AdoptedServiceCarries(c.fates, a.found, a.left, req, a.first, a.reply.value, config);
    }
  }

  /** A failed create, up to `s1` and call `n1`, and the adoption after it. */
  lemma AdoptionServed(c: Controller, base: State, req: Request, a: Attempt, s1: State, n1: nat, log: seq<Event>,
                       start: nat)
    requires start <= |log| && a.first <= n1 <= a.next && req.returnExisting && WellFormed(a.found) && WellFormed(s1)
    requires CreateOutcome(c, a.first, a.found, s1, log, start, n1, req, base, Refused)
    requires AdoptOutcome(c, n1, base, s1, a.left, req, a.reply, a.next)
    ensures Served(c, base, req, a)
  {
    KeptThrough(a.found, s1, a.left, req);
    if a.reply.Answered? && ServiceNameTaken(a.found, req.name) {
      AdoptionFound(c, req, a, s1, base, log, start);
    }
    if Retrying(base, a.found, req) && a.reply.Answered? {
      ConvergedIffWhole(base, a.left, req, a.reply.value);
    }
  }

  lemma KeptThrough(s0: State, s1: State, s: State, req: Request)
    requires Undisturbed(s0, s1, req) && ServicesKept(s1, s, req) && s.configs == s1.configs
    ensures ServicesKept(s0, s, req) && Preserved(s0, s, Wanted(req))
  {
  }

  lemma AdoptionAccounted(c: Controller, base: State, req: Request, a: Attempt, s1: State, n1: nat, log: seq<Event>,
                          start: nat)
    requires start <= |log| && a.first <= n1 && WellFormed(s1) && c.Definite(a.first) && !a.reply.Crashed?
    requires CreateOutcome(c, a.first, a.found, s1, log, start, n1, req, base, Refused)
    requires AdoptOutcome(c, n1, base, s1, a.left, req, a.reply, a.next)
    ensures Accounted(req, a, log, start)
  {
    if a.reply.Answered? {
      AdoptionKept(a.found, s1, a.left, req, a.reply.value, log, start);
    }
  }

  /** If every call works, the request is answered for unless the name is taken and
      return_existing is not set. */
  lemma WorkingAttempt(c: Controller, base: State, req: Request, a: Attempt)
    requires Served(c, base, req, a) && c.AllWork(a.first)
    ensures a.reply.Answered? <==> req.returnExisting || !ServiceNameTaken(a.found, req.name)
  {
    var taken := TakenNames(a.found, req);
    assert AllPlaced(c.fates, req, taken, a.first);
    assert c.fates(ServiceCall(c.fates, req, taken, a.first)).Works?;
    assert AdoptionWorks(c.fates, req, taken, a.first);
  }

  /** The create of the request, with or without configs. */
  method TryCreate(c: Controller, req: Request, ghost base: State) returns (r: Reply<Id>)
    requires c.Valid()
    modifies c
    ensures c.Valid() && c.calls >= old(c.calls) && old(c.log) <= c.log
    ensures CreateOutcome(c, old(c.calls), old(c.state), c.state, c.log, |old(c.log)|, c.calls, req, base, r)
  {
    if req.hostV1.Some? || req.interceptV1.Some? || |req.tags| > 0 {
      r := CreateServiceWithConfigsAndTags(c, req, base);
    } else {
      r := CreateServiceWithoutConfigs(c, req, base);
    }
  }

  /** `CreateService`, and the service it answers with. */
  method CreateService(c: Controller, req: Request, ghost base: State) returns (r: Reply<Id>)
    requires c.Valid()
    modifies c
    ensures c.Valid() && c.calls >= old(c.calls) && old(c.log) <= c.log
    ensures req.name == "" || req.roleAttributes == [] ==>
      r.Refused? && c.state == old(c.state) && c.calls == old(c.calls) && c.log == old(c.log)
    ensures ServiceNameTaken(old(c.state), req.name) && r.Answered? ==> req.returnExisting
    ensures c.AllWork(old(c.calls)) && req.name != "" && req.roleAttributes != [] ==>
      (r.Answered? <==> req.returnExisting || !ServiceNameTaken(old(c.state), req.name))
    ensures Acceptable(req) ==>
      var a := Attempt(old(c.state), old(c.calls), c.state, c.calls, r);
      && Served(c, base, req, a)
      && (!r.Crashed? && c.Definite(old(c.calls)) ==> Accounted(req, a, c.log, |old(c.log)|))
  {
    if req.name == "" {
      return Refused;
    }
    if req.roleAttributes == [] {
      return Refused;
    }
    ghost var s0, n, start := c.state, c.calls, |c.log|;
    ghost var a;
    r := TryCreate(c, req, base);
    if r.Refused? && req.returnExisting {
      ghost var s1, n1 := c.state, c.calls;
      r := AdoptService(c, req, base);
      a := Attempt(s0, n, c.state, c.calls, r);
      AdoptionServed(c, base, req, a, s1, n1, c.log, start);
      if c.Definite(n) && !r.Crashed? {
        AdoptionAccounted(c, base, req, a, s1, n1, c.log, start);
      }
    } else {
      a := Attempt(s0, n, c.state, c.calls, r);
      CreateServed(c, base, req, a, c.log, start);
    }
    if c.AllWork(n) {
      WorkingAttempt(c, base, req, a);
    }
  }

  const EMPTY := State(map[], map[], 0)

  const HOST_ASKED := Request("web", ["web"], Some("data"), None, map[], true)

  /** Success for a service that was there does not mean that it has the configs
      asked for: one without configs is answered for, and stays without. */
  method BareServiceStaysBare() returns (c: Controller, bare: Reply<Id>, again: Reply<Id>)
    ensures bare.Answered? && again.Answered? && again.value in c.state.services
    ensures c.state.services[again.value].configs == []
    ensures HOST_ASKED.hostV1.Some? && forall config :: !Carries(c.state, again.value, config)
  {
    c := new Controller(n => Works, n => 0, n => true);
    var unasked := HOST_ASKED.(hostV1 := None);
    bare := CreateService(c, unasked, EMPTY);
    WorkingAttempt(c, EMPTY, unasked, Attempt(EMPTY, 0, c.state, c.calls, bare));
    ghost var s, n := c.state, c.calls;
    assert s.services[bare.value].name == "web";
    again := CreateService(c, HOST_ASKED, EMPTY);
    WorkingAttempt(c, EMPTY, HOST_ASKED, Attempt(s, n, c.state, c.calls, again));
  }

  /** The fifth call, the patch of the config, fails; every reply is definite. */
  const STALE: Fates := n => if n == 4 then Fails else Works

  const FREE := Names(false, false, false)
  const HOST_THERE := Names(true, false, true)

  lemma StaleCalls(asked: Request)
    requires asked.hostV1.Some? && asked.interceptV1.None?
    ensures MakesService(STALE, asked, FREE, 0) && AfterRequest(STALE, asked, FREE, 0) == 2
    ensures !MakesService(STALE, asked, HOST_THERE, 2) && AdoptionWorks(STALE, asked, HOST_THERE, 2)
    ensures !RewritesConfig(STALE, asked, HOST_THERE, HostConfig(asked), 2)
  {
  }

  /** The state after the first request for "web", with data other than HOST_ASKED's. */
  lemma StaleState(s: State, id: Id, earlier: Request, log: seq<Event>)
    requires earlier.name == "web" && earlier.hostV1.Some? && earlier.interceptV1.None?
    requires earlier.hostV1.value != HOST_ASKED.hostV1.value
    requires WellFormed(s) && Made(EMPTY, s, earlier, id, log, 0)
    ensures TakenNames(s, HOST_ASKED) == HOST_THERE && s.services.Keys == {id}
    ensures Holds(s, id, "web-host-v1") && !Carries(s, id, HostConfig(HOST_ASKED))
  {
    assert Wanted(earlier) == [HostConfig(earlier)];
    var config := s.services[id].configs[0];
    assert HostConfig(earlier).name == HostConfig(HOST_ASKED).name == "web-host-v1";
    assert HoldsAt(s, config, "web-host-v1");
    assert s.services[id].name == "web";
  }

  lemma StaleAnswered(c: Controller, s: State, a: Attempt, id: Id)
    requires c.fates == STALE && a.found == s && a.first == 2 && Served(c, EMPTY, HOST_ASKED, a)
    requires TakenNames(s, HOST_ASKED) == HOST_THERE && s.services.Keys == {id}
    requires !Carries(s, id, HostConfig(HOST_ASKED))
    ensures a.reply == Answered(id) && !Carries(a.left, id, HostConfig(HOST_ASKED))
  {
    StaleCalls(HOST_ASKED);
    assert HostConfig(HOST_ASKED) in Wanted(HOST_ASKED);
  }

  /** Nor does it mean that a config the service holds has the data asked for: the
      patch of the config fails, the service is there, and the answer is success. */
  method StaleConfigIsAnsweredFor() returns (c: Controller, first: Reply<Id>, again: Reply<Id>, ghost s: State)
    ensures c.fates == STALE && first.Answered? && again.Answered? && again.value == first.value
    ensures Holds(s, first.value, "web-host-v1") && !Carries(c.state, again.value, HostConfig(HOST_ASKED))
  {
    c := new Controller(STALE, n => 0, n => true);
    var earlier := HOST_ASKED.(hostV1 := Some("old"));
    StaleCalls(earlier);
    first := CreateService(c, earlier, EMPTY);
    s := c.state;
    assert TakenNames(EMPTY, earlier) == FREE;
    StaleState(s, first.value, earlier, c.log);
    again := CreateService(c, HOST_ASKED, EMPTY);
    StaleAnswered(c, s, Attempt(s, 2, c.state, c.calls, again), first.value);
  }

  // ---------------------------------------------------------------- retrying

  lemma WholeAtFirst(base: State, req: Request)
    requires WellFormed(base) && Untaken(base, req)
    ensures Retrying(base, base, req) && Whole(base, base, req)
  {
  }

  /** The attempt created the service, lost the reply, and took a config from it. */
  ghost predicate StripsIn(c: Controller, req: Request, a: Attempt) {
    Strips(c.fates, req, TakenNames(a.found, req), a.first)
  }

  /** The state and the call number that the first `i` attempts lead to. */
  function Reached(attempts: seq<Attempt>, i: nat, s: State, n: nat): (State, nat)
    requires i <= |attempts|
  {
    if i == 0 then (s, n) else (attempts[i - 1].left, attempts[i - 1].next)
  }

  /** Each attempt starts where the one before left off. */
  ghost predicate Linked(attempts: seq<Attempt>, s: State, n: nat, s': State, n': nat) {
    && (forall i :: 0 <= i < |attempts| ==> attempts[i].first <= attempts[i].next)
    && (forall i :: 0 <= i < |attempts| ==> (attempts[i].found, attempts[i].first) == Reached(attempts, i, s, n))
    && (s', n') == Reached(attempts, |attempts|, s, n)
  }

  ghost predicate AllServed(c: Controller, base: State, req: Request, attempts: seq<Attempt>) {
    forall i :: 0 <= i < |attempts| ==> Served(c, base, req, attempts[i])
  }

  ghost predicate NoneStrips(c: Controller, req: Request, attempts: seq<Attempt>) {
    forall i :: 0 <= i < |attempts| ==> !StripsIn(c, req, attempts[i])
  }

  lemma LinkedOn(attempts: seq<Attempt>, s: State, n: nat, a: Attempt)
    requires Linked(attempts, s, n, a.found, a.first) && a.first <= a.next
    ensures Linked(attempts + [a], s, n, a.left, a.next)
  {
    var all := attempts + [a];
    forall i | 0 <= i < |all|
      ensures all[i].first <= all[i].next && (all[i].found, all[i].first) == Reached(all, i, s, n)
    {
      assert i < |attempts| ==> all[i] == attempts[i];
      assert Reached(all, i, s, n) == Reached(attempts, i, s, n);
    }
  }

  /** One attempt more. */
  lemma OneMoreStrips(c: Controller, req: Request, attempts: seq<Attempt>, a: Attempt)
    ensures NoneStrips(c, req, attempts + [a]) <==> NoneStrips(c, req, attempts) && !StripsIn(c, req, a)
  {
    var all := attempts + [a];
    assert forall i :: 0 <= i < |attempts| ==> all[i] == attempts[i];
    assert all[|attempts|] == a;
  }

  /** No attempt starts before an earlier one has ended. */
  lemma {:induction false} StartsLater(attempts: seq<Attempt>, s: State, n: nat, s': State, n': nat, i: nat)
    requires Linked(attempts, s, n, s', n') && i < |attempts|
    ensures n <= attempts[i].first
    ensures i > 0 ==> attempts[0].next <= attempts[i].first
  {
    if i > 0 {
      StartsLater(attempts, s, n, s', n', i - 1);
      assert attempts[i - 1].first <= attempts[i - 1].next;
    }
    assert (attempts[i].found, attempts[i].first) == Reached(attempts, i, s, n);
  }

  /** Without lost replies nothing is taken from the service. */
  lemma DefiniteStripsNothing(c: Controller, req: Request, attempts: seq<Attempt>, s: State, n: nat, s': State, n': nat)
    requires Linked(attempts, s, n, s', n') && c.Definite(n)
    ensures NoneStrips(c, req, attempts)
  {
    forall i | 0 <= i < |attempts| ensures !StripsIn(c, req, attempts[i]) {
      StartsLater(attempts, s, n, s', n', i);
      assert n <= ServiceCall(c.fates, req, TakenNames(attempts[i].found, req), attempts[i].first);
    }
  }

  /** Where a run stands after `attempts`: nothing is lost unless an attempt stripped it. */
  ghost predicate Stands(c: Controller, req: Request, base: State, attempts: seq<Attempt>, n: nat, s: State, m: nat) {
    && Linked(attempts, base, n, s, m) && AllServed(c, base, req, attempts)
    && Retrying(base, s, req) && (Whole(base, s, req) <==> NoneStrips(c, req, attempts))
  }

  lemma AttemptAdded(c: Controller, req: Request, base: State, attempts: seq<Attempt>, n: nat, a: Attempt)
    requires Stands(c, req, base, attempts, n, a.found, a.first) && Served(c, base, req, a)
    ensures Stands(c, req, base, attempts + [a], n, a.left, a.next)
  {
    LinkedOn(attempts, base, n, a);
    AllServedOn(c, base, req, attempts, a);
    OneMoreStrips(c, req, attempts, a);
  }

  lemma AllServedOn(c: Controller, base: State, req: Request, attempts: seq<Attempt>, a: Attempt)
    requires AllServed(c, base, req, attempts) && Served(c, base, req, a)
    ensures AllServed(c, base, req, attempts + [a])
  {
    assert forall i :: 0 <= i < |attempts| ==> (attempts + [a])[i] == attempts[i];
  }

  /** One attempt of a run. */
  method OneAttempt(c: Controller, req: Request, ghost base: State, ghost run: seq<Attempt>, ghost n: nat)
    returns (r: Reply<Id>, ghost a: Attempt)
    requires c.Valid() && Acceptable(req)
    requires Stands(c, req, base, run, n, c.state, c.calls)
    modifies c
    ensures c.Valid() && a.first == old(c.calls) && a.reply == r && Served(c, base, req, a)
    ensures Stands(c, req, base, run + [a], n, c.state, c.calls)
    ensures r.Answered? ==>
      && r.value in c.state.services && r.value !in base.services
      && (Converged(base, c.state, req, r.value) <==> Whole(base, c.state, req))
  {
    ghost var s, m := c.state, c.calls;
    r := CreateService(c, req, base);
    a := Attempt(s, m, c.state, c.calls, r);
    AttemptAdded(c, req, base, run, n, a);
  }

  /** A client that sends the same request until an attempt is not interrupted. The
      attempt that works is answered. What it is answered with is what it asked for,
      with nothing of the earlier attempts left over, if and only if in no attempt the
      create of the service was executed and answered with an error and a config then
      deleted; so always if replies are definite, however many attempts crashed. */
  method RetryCreateService(c: Controller, req: Request, attempts: nat)
    returns (r: Reply<Id>, from: nat, ghost run: seq<Attempt>)
    requires c.Valid() && Acceptable(req) && req.returnExisting && Untaken(c.state, req)
    modifies c
    ensures c.Valid() && |run| == attempts + 1 && run[attempts].first == from && run[attempts].reply == r
    ensures Linked(run, old(c.state), old(c.calls), c.state, c.calls) && AllServed(c, old(c.state), req, run)
    ensures Retrying(old(c.state), c.state, req)
    ensures c.AllWork(from) ==> r.Answered?
    ensures r.Answered? ==>
      && r.value in c.state.services && r.value !in old(c.state.services)
      && (Converged(old(c.state), c.state, req, r.value) <==> NoneStrips(c, req, run))
    ensures c.Definite(old(c.calls)) && r.Answered? ==> Converged(old(c.state), c.state, req, r.value)
    ensures r.Answered? && NoneStrips(c, req, run) ==>
      AsAsked(map[], c.state.configs, c.state.services[r.value], req)
  {
    ghost var base, n := c.state, c.calls;
    WholeAtFirst(base, req);
    run := [];
    for i := 0 to attempts
      invariant c.Valid() && |run| == i && Stands(c, req, base, run, n, c.state, c.calls)
    {
      var _, a := OneAttempt(c, req, base, run, n);
      run := run + [a];
    }
    from := c.calls;
    ghost var last;
    r, last := OneAttempt(c, req, base, run, n);
    run := run + [last];
    if c.AllWork(from) {
      WorkingAttempt(c, base, req, last);
    }
    if c.Definite(n) {
      DefiniteStripsNothing(c, req, run, base, n, c.state, c.calls);
    }
    if r.Answered? && NoneStrips(c, req, run) {
      ConvergedIsAsAsked(base, c.state, req, r.value);
    }
  }

  /** What an answer with a service that has not converged lacks. */
  lemma UnconvergedLacks(base: State, s: State, req: Request, id: Id)
    requires Retrying(base, s, req) && id in s.services && id !in base.services && !Converged(base, s, req, id)
    ensures |s.services[id].configs| < |Wanted(req)|
  {
  }

  /** The second call, the create of the service, is executed and answered with an error. */
  const LOST_ONCE: Fates := n => if n == 1 then Lost else Works

  lemma LostOnceStrips()
    ensures Strips(LOST_ONCE, HOST_ASKED, FREE, 0) && AfterRequest(LOST_ONCE, HOST_ASKED, FREE, 0) == 5
    ensures AdoptionWorks(LOST_ONCE, HOST_ASKED, FREE, 0)
  {
    assert DeletesAt(LOST_ONCE, 2, 2);
  }

  lemma LostOnce(c: Controller, a: Attempt)
    requires c.fates == LOST_ONCE && a.found == EMPTY && a.first == 0 && Served(c, EMPTY, HOST_ASKED, a)
    ensures StripsIn(c, HOST_ASKED, a) && a.reply.Answered? && a.next == 5
  {
    LostOnceStrips();
    assert TakenNames(EMPTY, HOST_ASKED) == FREE;
  }

  lemma LostRun(c: Controller, run: seq<Attempt>, s: State, n: nat)
    requires c.fates == LOST_ONCE && run != [] && Linked(run, EMPTY, 0, s, n) && AllServed(c, EMPTY, HOST_ASKED, run)
    ensures !NoneStrips(c, HOST_ASKED, run)
    ensures if |run| == 1 then run[0].reply.Answered? else c.AllWork(run[|run| - 1].first)
  {
    assert (run[0].found, run[0].first) == Reached(run, 0, EMPTY, 0);
    LostOnce(c, run[0]);
    StartsLater(run, EMPTY, 0, s, n, |run| - 1);
  }

  /** How it fails: the config is created; the service is created, but the create
      answers with an error; so the clean-up deletes the config, and takes it from the
      service, which is then adopted as it is. However many attempts follow, none
      repairs it. */
  method LostReplyStrips(attempts: nat) returns (c: Controller, r: Reply<Id>)
    ensures c.fates == LOST_ONCE && r.Answered?
    ensures r.value in c.state.services && c.state.services[r.value].configs == []
  {
    c := new Controller(LOST_ONCE, n => 0, n => true);
    var from;
    ghost var run;
    r, from, run := RetryCreateService(c, HOST_ASKED, attempts);
    LostRun(c, run, c.state, c.calls);
    UnconvergedLacks(EMPTY, c.state, HOST_ASKED, r.value);
  }
}
