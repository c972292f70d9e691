/**
 Creating a service with its configs: adoption of what an interrupted create left
 behind, rollback of what a failed create made, and convergence under retry.
 */
module ServiceCreation {
  import opened Wrappers
  import opened ServiceController

  const HOST_V1_TYPE := "NH5p4FpGR"
  const INTERCEPT_V1_TYPE := "g7cIWbcGg"

  datatype Request = Request(
    name: string, roleAttributes: seq<string>, hostV1: Option<Data>, interceptV1: Option<Data>,
    tags: Tags, returnExisting: bool)

  function HostConfig(req: Request): Config
    requires req.hostV1.Some?
  {
    Config(req.name + "-host-v1", HOST_V1_TYPE, req.hostV1.value, req.tags)
  }

  function InterceptConfig(req: Request): Config
    requires req.interceptV1.Some?
  {
    Config(req.name + "-intercept-v1", INTERCEPT_V1_TYPE, req.interceptV1.value, req.tags)
  }

  function HostWanted(req: Request): seq<Config> {
    if req.hostV1.Some? then [HostConfig(req)] else []
  }

  /** The configs a request asks for, in the order in which they are attached. */
  function Wanted(req: Request): seq<Config> {
    HostWanted(req) + if req.interceptV1.Some? then [InterceptConfig(req)] else []
  }

  lemma WantedNamesDiffer(req: Request)
    ensures forall k, l :: 0 <= k < l < |Wanted(req)| ==> Wanted(req)[k].name != Wanted(req)[l].name
    ensures forall a, b :: a in Wanted(req) && b in Wanted(req) && a.name == b.name ==> a == b
  {
    var host, intercept := req.name + "-host-v1", req.name + "-intercept-v1";
    assert |host| != |intercept|;
  }

  // ---------------------------------------------------------------- what the state may look like between attempts

  /** No resource has one of the names derived from the request. */
  ghost predicate Untaken(base: State, req: Request) {
    && (forall config :: config in Wanted(req) ==> !ConfigNameTaken(base, config.name))
    && !ServiceNameTaken(base, req.name)
  }

  /** The service holds exactly the configs asked for, with the data asked for. */
  ghost predicate IsRequested(configs: map<Id, Config>, service: Service, req: Request) {
    && service.name == req.name && service.roleAttributes == req.roleAttributes && service.tags == req.tags
    && |service.configs| == |Wanted(req)|
    && forall k :: 0 <= k < |Wanted(req)| ==>
         service.configs[k] in configs && configs[service.configs[k]] == Wanted(req)[k]
  }

  /** The service is the one asked for, except that it may have lost configs. */
  ghost predicate IsPiece(configs: map<Id, Config>, service: Service, req: Request) {
    && service.name == req.name && service.roleAttributes == req.roleAttributes && service.tags == req.tags
    && |service.configs| <= |Wanted(req)|
    && (|service.configs| == |Wanted(req)| ==> IsRequested(configs, service, req))
  }

  /** Everything of `base` is there unchanged, and whatever is new is a piece of
      what the request asks for. */
  ghost predicate Partial(base: State, s: State, req: Request) {
    && WellFormed(s) && base.nextId <= s.nextId
    && (forall id :: id in base.configs ==> id in s.configs && s.configs[id] == base.configs[id])
    && (forall id :: id in base.services ==> id in s.services && s.services[id] == base.services[id])
    && (forall id :: id in s.configs && id !in base.configs ==> s.configs[id] in Wanted(req))
    && (forall id :: id in s.services && id !in base.services ==> IsPiece(s.configs, s.services[id], req))
  }

  /** `s` is what attempts at the request may have made of `base`, where nothing
      had one of its names. */
  ghost predicate Retrying(base: State, s: State, req: Request) {
    WellFormed(base) && Untaken(base, req) && Partial(base, s, req)
  }

  /** No new service has lost a config. */
  ghost predicate Whole(base: State, s: State, req: Request) {
    forall id :: id in s.services && id !in base.services ==> |s.services[id].configs| == |Wanted(req)|
  }

  /** From `s` to `s'` an attempt stays a retry, and the new service loses configs
      exactly if `stripped`. */
  ghost predicate RetryKept(base: State, s: State, s': State, req: Request, stripped: bool) {
    Retrying(base, s, req) ==>
      && Retrying(base, s', req)
      && (Whole(base, s', req) <==> Whole(base, s, req) && !stripped)
  }

  /** The whole of what was asked for is there, and nothing else is new. */
  ghost predicate Converged(base: State, s: State, req: Request, id: Id) {
    && Partial(base, s, req)
    && id in s.services && id !in base.services && IsRequested(s.configs, s.services[id], req)
  }

  /** Convergence adds exactly one service, and exactly the configs it holds. */
  lemma ConvergedIsExact(base: State, s: State, req: Request, id: Id)
    requires Converged(base, s, req, id)
    ensures s.services.Keys == base.services.Keys + {id}
    ensures s.configs.Keys == base.configs.Keys + set k | 0 <= k < |s.services[id].configs| :: s.services[id].configs[k]
  {
    var configs := s.services[id].configs;
    var attached := set k | 0 <= k < |configs| :: configs[k];
    forall other | other in s.configs ensures other in base.configs.Keys + attached {
      if other !in base.configs {
        var k :| 0 <= k < |Wanted(req)| && Wanted(req)[k] == s.configs[other];
        assert ConfigNamesakes(s, configs[k], other);
      }
    }
    forall other | other in s.services ensures other in base.services.Keys + {id} {
      if other !in base.services {
        assert ServiceNamesakes(s, other, id);
      }
    }
  }

  /** It leaves one service of the name, and of each config name one config, which
      is the one asked for and is attached. */
  lemma ConvergedIsUnique(base: State, s: State, req: Request, id: Id, config: Config, other: Id)
    requires Converged(base, s, req, id)
    ensures forall service :: service in s.services && s.services[service].name == req.name ==> service == id
    ensures config in Wanted(req) && other in s.configs && s.configs[other].name == config.name ==>
      s.configs[other] == config && other in s.services[id].configs
  {
    if config in Wanted(req) && other in s.configs && s.configs[other].name == config.name {
      var k :| 0 <= k < |Wanted(req)| && Wanted(req)[k] == config;
      assert ConfigNamesakes(s, other, s.services[id].configs[k]);
    }
    forall service | service in s.services && s.services[service].name == req.name ensures service == id {
      assert ServiceNamesakes(s, service, id);
    }
  }

  /** Once the service is there, a retry has converged if and only if no config was lost. */
  lemma ConvergedIffWhole(base: State, s: State, req: Request, id: Id)
    requires Retrying(base, s, req) && id in s.services && id !in base.services
    ensures Converged(base, s, req, id) <==> Whole(base, s, req)
  {
    forall other | other in s.services && other !in base.services ensures other == id {
      assert ServiceNamesakes(s, other, id);
    }
  }

  // ---------------------------------------------------------------- the calls of one config, by number
  // `taken` says whether the name is taken when the first of them, call `n`, is made.

  /** The config asked for is created, and the reply says so. */
  predicate Creates(fates: Fates, taken: bool, n: nat) {
    !taken && fates(n).Works?
  }

  /** The config asked for is created, whatever the reply says. */
  predicate MakesNew(fates: Fates, taken: bool, n: nat) {
    !taken && Executes(fates(n))
  }

  /** After a create that was refused, a config of that name is found: it was there
      before, or the create took effect after all. */
  predicate Finds(fates: Fates, taken: bool, n: nat) {
    !Dies(fates(n)) && (taken || fates(n).Lost?) && fates(n + 1).Works?
  }

  /** The config found is rewritten, whatever the reply says. */
  predicate Rewrites(fates: Fates, taken: bool, n: nat) {
    Finds(fates, taken, n) && Executes(fates(n + 2))
  }

  /** The config is created, or found and rewritten. */
  predicate Places(fates: Fates, taken: bool, n: nat) {
    Creates(fates, taken, n) || (Finds(fates, taken, n) && fates(n + 2).Works?)
  }

  /** How many calls that takes, unless the process dies. */
  function CallsFor(fates: Fates, taken: bool, n: nat): nat {
    if Creates(fates, taken, n) then 1 else if Finds(fates, taken, n) then 3 else 2
  }

  // ---------------------------------------------------------------- adoption

  /** What ensuring a config does to the state. */
  ghost predicate Ensured(s: State, s': State, config: Config, id: Id, adopted: bool) {
    if adopted then
      && id in s.configs && s.configs[id].name == config.name
      && s' == PatchedConfig(s, id, config.name, config.data, SentTags(config.tags))
    else
      && id == s.nextId && !ConfigNameTaken(s, config.name)
      && s' == WithConfig(s, config)
  }

  /** The effect of `CreateOrAdoptConfig`, if it got so far as to have one: the id of
      the config, and whether it was there before. */
  ghost predicate Effect(s: State, s': State, config: Config, effect: Option<(Id, bool)>) {
    if effect.None? then s' == s else Ensured(s, s', config, effect.value.0, effect.value.1)
  }

  ghost function EffectLog(effect: Option<(Id, bool)>): seq<Event> {
    if effect.Some? && !effect.value.1 then [ConfigCreated(effect.value.0)] else []
  }

  lemma NewNameTaken(s: State, config: Config)
    ensures ConfigNameTaken(WithConfig(s, config), config.name)
  {
    assert WithConfig(s, config).configs[s.nextId].name == config.name;
  }

  /** A config patched with what it was created with stays as it is. */
  lemma PatchOfNewIsNothing(s: State, config: Config, id: Id)
    requires WellFormed(s) && !ConfigNameTaken(s, config.name)
    ensures
      var s' := WithConfig(s, config);
      id in s'.configs && s'.configs[id].name == config.name ==>
        id == s.nextId && PatchedConfig(s', id, config.name, config.data, SentTags(config.tags)) == s'
  {
    assert WithConfig(s, config).configs[s.nextId] == config;
  }

  /** The second half of `createOrAdoptConfig`: the config of that name, if one is
      found, is rewritten. */
  method AdoptConfig(c: Controller, config: Config) returns (r: Reply<Id>, ghost id: Id)
    requires c.Valid()
    modifies c`calls, c`state
    ensures c.Valid()
    ensures var n, found := old(c.calls), c.fates(old(c.calls)).Works? && ConfigNameTaken(old(c.state), config.name);
      && (found ==> id in old(c.state.configs) && old(c.state.configs)[id].name == config.name)
      && c.state == (
           if found && Executes(c.fates(n + 1))
           then PatchedConfig(old(c.state), id, config.name, config.data, SentTags(config.tags))
           else old(c.state))
      && (r.Answered? <==> found && c.fates(n + 1).Works?) && (r.Answered? ==> r.value == id)
      && (r.Crashed? <==> Dies(c.fates(n)) || (found && Dies(c.fates(n + 1))))
      && c.calls == n + if found then 2 else 1
  {
    id := 0;
    var found := c.FindConfigIdByName(config.name);
    if found.Crashed? {
      return Crashed, id;
    }
    if found.Refused? || found.value.None? {
      return Refused, id;
    }
    id := found.value.value;
    var patched := c.PatchConfig(found.value.value, config.name, config.data, SentTags(config.tags));
    r := match patched case Crashed => Crashed case Refused => Refused case Answered(_) => Answered(found.value.value);
  }

  /** A create that made the config or not, and a patch that was executed or not. */
  lemma EffectOfBoth(s: State, s': State, config: Config, isNew: bool, patched: bool, id: Id)
    requires WellFormed(s) && (isNew ==> !ConfigNameTaken(s, config.name))
    requires
      var s1 := if isNew then WithConfig(s, config) else s;
      && (patched ==> id in s1.configs && s1.configs[id].name == config.name)
      && s' == if patched then PatchedConfig(s1, id, config.name, config.data, SentTags(config.tags)) else s1
    ensures Effect(s, s', config, if isNew then Some((s.nextId, false)) else if patched then Some((id, true)) else None)
  {
    if isNew {
      PatchOfNewIsNothing(s, config, id);
    }
  }

  /** `createOrAdoptConfig`: the id of the config, and whether it was adopted. A
      config whose own create lost its reply is adopted. */
  method CreateOrAdoptConfig(c: Controller, config: Config)
    returns (r: Reply<(Id, bool)>, ghost effect: Option<(Id, bool)>)
    requires c.Valid()
    modifies c
    ensures c.Valid() && c.calls > old(c.calls)
    ensures Effect(old(c.state), c.state, config, effect)
    ensures c.log == old(c.log) + EffectLog(effect)
    ensures var n, taken := old(c.calls), ConfigNameTaken(old(c.state), config.name);
      && (effect.Some? <==> MakesNew(c.fates, taken, n) || Rewrites(c.fates, taken, n))
      && (effect.Some? ==> (effect.value.1 <==> !MakesNew(c.fates, taken, n)))
      && (r.Answered? <==> Places(c.fates, taken, n))
      && (r.Answered? ==> effect.Some? && r.value == (effect.value.0, !Creates(c.fates, taken, n)))
      && (!r.Crashed? ==> c.calls == n + CallsFor(c.fates, taken, n) && !Dies(c.fates(n)))
    ensures r.Crashed? ==> !c.NoCrash(old(c.calls))
  {
    ghost var before, n, taken := c.state, c.calls, ConfigNameTaken(c.state, config.name);
    var created := c.CreateConfig(config);
    ghost var isNew := MakesNew(c.fates, taken, n);
    effect := if isNew then Some((before.nextId, false)) else None;
    if created.Answered? {
      return Answered((created.value, false)), effect;
    }
    if created.Crashed? {
      return Crashed, effect;
    }
    NewNameTaken(before, config);
    ghost var id;
    var adopted;
    adopted, id := AdoptConfig(c, config);
    ghost var patched := Rewrites(c.fates, taken, n);
    EffectOfBoth(before, c.state, config, isNew, patched, id);
    if patched && !isNew {
      effect := Some((id, true));
    }
    r := match adopted case Crashed => Crashed case Refused => Refused case Answered(found) => Answered((found, true));
  }

  /** Within an attempt on `base`, what can be adopted is as asked for already:
      adopting it changes nothing. */
  lemma AdoptionChangesNothing(base: State, s: State, s': State, req: Request, config: Config, id: Id)
    requires Untaken(base, req) && Partial(base, s, req) && config in Wanted(req)
    requires Ensured(s, s', config, id, true)
    ensures s' == s && s.configs[id] == config
  {
    assert id !in base.configs;
    WantedNamesDiffer(req);
    assert s.configs[id] == config;
    assert s'.configs == s.configs;
  }

  lemma CreationKeepsPartial(base: State, s: State, req: Request, config: Config)
    requires WellFormed(base) && Partial(base, s, req) && config in Wanted(req)
    requires !ConfigNameTaken(s, config.name)
    ensures Partial(base, WithConfig(s, config), req)
  {
    var s' := WithConfig(s, config);
    WithConfigWellFormed(s, config);
    assert forall id :: id in s.configs ==> id in s'.configs && s'.configs[id] == s.configs[id];
    forall id | id in s'.services && id !in base.services ensures IsPiece(s'.configs, s'.services[id], req) {
      assert IsPiece(s.configs, s.services[id], req);
    }
  }

  /** Within an attempt on `base`, a config is created as asked for or is there
      already as asked for. */
  lemma EnsuredKeepsPartial(base: State, s: State, s': State, req: Request, config: Config, id: Id, adopted: bool)
    requires Untaken(base, req) && WellFormed(base) && Partial(base, s, req) && config in Wanted(req)
    requires Ensured(s, s', config, id, adopted)
    ensures Partial(base, s', req)
    ensures id in s'.configs && s'.configs[id] == config
    ensures forall other :: other in s.configs ==> other in s'.configs && s'.configs[other] == s.configs[other]
  {
    if adopted {
      AdoptionChangesNothing(base, s, s', req, config, id);
    } else {
      CreationKeepsPartial(base, s, req, config);
    }
  }

  lemma EffectKeepsRetrying(base: State, s: State, s': State, req: Request, config: Config, effect: Option<(Id, bool)>)
    requires config in Wanted(req) && Effect(s, s', config, effect)
    ensures Retrying(base, s, req) ==> Retrying(base, s', req)
  {
    if Retrying(base, s, req) && effect.Some? {
      EnsuredKeepsPartial(base, s, s', req, config, effect.value.0, effect.value.1);
    }
  }

  // ---------------------------------------------------------------- deleting configs

  function Elements(ids: seq<Id>): set<Id> {
    set id | id in ids
  }

  /** What was created since `start`, and what failed to be deleted. */
  ghost function CreatedSince(log: seq<Event>, start: nat): set<Id>
    requires start <= |log|
  {
    set k | start <= k < |log| && log[k].ConfigCreated? :: log[k].id
  }

  ghost function DeleteFailedSince(log: seq<Event>, start: nat): set<Id>
    requires start <= |log|
  {
    set k | start <= k < |log| && log[k].DeleteFailed? :: log[k].id
  }

  lemma LogGrows(log: seq<Event>, start: nat, event: Event)
    requires start <= |log|
    ensures CreatedSince(log + [event], start) ==
      CreatedSince(log, start) + if event.ConfigCreated? then {event.id} else {}
    ensures DeleteFailedSince(log + [event], start) ==
      DeleteFailedSince(log, start) + if event.DeleteFailed? then {event.id} else {}
  {
    var more := log + [event];
    assert forall k :: start <= k < |log| ==> more[k] == log[k];
    assert more[|log|] == event;
  }

  lemma LogSplits(log: seq<Event>, start: nat, mid: nat)
    requires start <= mid <= |log|
    ensures CreatedSince(log, start) == CreatedSince(log[..mid], start) + CreatedSince(log, mid)
    ensures DeleteFailedSince(log, start) == DeleteFailedSince(log[..mid], start) + DeleteFailedSince(log, mid)
  {
    assert forall k :: start <= k < mid ==> log[..mid][k] == log[k];
  }

  /** What a clean-up of `ids` has come to: `gone` is deleted, and the log since
      `start` says what failed. */
  ghost predicate CleanedUp(s: State, s': State, ids: seq<Id>, log: seq<Event>, start: nat, gone: set<Id>) {
    && start <= |log|
    && s' == WithoutConfigs(s, gone) && gone <= Elements(ids)
    && CreatedSince(log, start) == {}
    && DeleteFailedSince(log, start) <= Elements(ids)
  }

  /** Of the ids tried, exactly those whose own delete failed are left. */
  ghost predicate AllTried(ids: seq<Id>, log: seq<Event>, start: nat, gone: set<Id>) {
    start <= |log| && gone == Elements(ids) - DeleteFailedSince(log, start)
  }

  /** Of `count` deletes, from call `n` on, one takes effect before the process dies. */
  ghost predicate DeletesSome(fates: Fates, n: nat, count: nat) {
    exists m :: n <= m < n + count && DeletesAt(fates, n, m)
  }

  ghost predicate DeletesAt(fates: Fates, n: nat, m: nat) {
    Executes(fates(m)) && Survives(fates, n, m)
  }

  /** The process outlives the calls from `n` up to `m`. */
  ghost predicate Survives(fates: Fates, n: nat, m: nat) {
    forall j :: n <= j < m ==> !Dies(fates(j))
  }

  lemma NothingCleanedUp(s: State, log: seq<Event>)
    ensures CleanedUp(s, s, [], log, |log|, {}) && AllTried([], log, |log|, {})
  {
    WithoutUnreferenced(s, {});
    assert s.configs - {} == s.configs;
    assert CreatedSince(log, |log|) == {} && DeleteFailedSince(log, |log|) == {};
  }

  lemma OneDeleted(s: State, s': State, ids: seq<Id>, log: seq<Event>, start: nat, gone: set<Id>, id: Id)
    requires CleanedUp(s, s', ids, log, start, gone)
    ensures CleanedUp(s, WithoutConfigs(s', {id}), ids + [id], log, start, gone + {id})
  {
    WithoutTwice(s, gone, {id});
    assert Elements(ids + [id]) == Elements(ids) + {id};
  }

  lemma OneKept(s: State, s': State, ids: seq<Id>, log: seq<Event>, start: nat, gone: set<Id>, id: Id,
                more: seq<Event>)
    requires CleanedUp(s, s', ids, log, start, gone)
    requires more == [] || more == [DeleteFailed(id)]
    ensures CleanedUp(s, s', ids + [id], log + more, start, gone)
    ensures DeleteFailedSince(log + more, start) == DeleteFailedSince(log, start) + if more == [] then {} else {id}
  {
    assert Elements(ids + [id]) == Elements(ids) + {id};
    LogGrows(log, start, DeleteFailed(id));
    assert log + [] == log;
  }

  /** One turn of the clean-up. */
  method CleanUpOne(c: Controller, id: Id, ghost before: State, ghost tried: seq<Id>, ghost start: nat,
                    ghost gone: set<Id>)
    returns (r: Reply<()>, ghost gone': set<Id>)
    requires c.Valid() && id !in tried
    requires CleanedUp(before, c.state, tried, c.log, start, gone)
    modifies c
    ensures c.Valid() && c.calls == old(c.calls) + 1 && old(c.log) <= c.log
    ensures CleanedUp(before, c.state, tried + [id], c.log, start, gone')
    ensures gone' == if Executes(c.fates(old(c.calls))) then gone + {id} else gone
    ensures !r.Crashed? && AllTried(tried, old(c.log), start, gone) ==> AllTried(tried + [id], c.log, start, gone')
    ensures r.Crashed? <==> Dies(c.fates(old(c.calls)))
  {
    ghost var s, log := c.state, c.log;
    r := c.DeleteConfig(id);
    assert Elements(tried + [id]) == Elements(tried) + {id};
    if Executes(c.fates(c.calls - 1)) {
      assert c.log == log;
      OneDeleted(before, s, tried, log, start, gone, id);
      gone' := gone + {id};
    } else {
      ghost var more := c.log[|log|..];
      assert c.log == log + more;
      OneKept(before, s, tried, log, start, gone, id, more);
      gone' := gone;
    }
  }

  lemma CleanedUpMore(s: State, s': State, ids: seq<Id>, all: seq<Id>, log: seq<Event>, start: nat, gone: set<Id>)
    requires CleanedUp(s, s', ids, log, start, gone) && ids <= all
    ensures CleanedUp(s, s', all, log, start, gone)
  {
    assert Elements(ids) <= Elements(all);
  }

  /** What the first `i` calls of the clean-up mean for all `count` of them. */
  lemma DeletesSoFar(fates: Fates, n: nat, i: nat, count: nat)
    requires i < count && Survives(fates, n, n + i)
    ensures DeletesSome(fates, n, i + 1) <==> DeletesSome(fates, n, i) || Executes(fates(n + i))
    ensures Dies(fates(n + i)) ==> (DeletesSome(fates, n, count) <==> DeletesSome(fates, n, i + 1))
  {
    if Executes(fates(n + i)) {
      assert DeletesAt(fates, n, n + i);
    }
  }

  /** `cleanupConfigs`: tries every id, whatever becomes of the others. */
  method CleanupConfigs(c: Controller, ids: seq<Id>) returns (crashed: bool, ghost gone: set<Id>)
    requires c.Valid()
    requires forall k, l :: 0 <= k < l < |ids| ==> ids[k] != ids[l]
    modifies c
    ensures c.Valid() && c.calls >= old(c.calls) && old(c.log) <= c.log
    ensures CleanedUp(old(c.state), c.state, ids, c.log, |old(c.log)|, gone)
    ensures !crashed ==> AllTried(ids, c.log, |old(c.log)|, gone) && c.calls == old(c.calls) + |ids|
    ensures gone != {} <==> DeletesSome(c.fates, old(c.calls), |ids|)
    ensures crashed ==> !c.NoCrash(old(c.calls))
  {
    ghost var before, start, n := c.state, |c.log|, c.calls;
    gone := {};
    ghost var tried: seq<Id> := [];
    NothingCleanedUp(before, c.log);
    for i := 0 to |ids|
      invariant c.Valid() && c.calls == n + i && old(c.log) <= c.log
      invariant tried == ids[..i]
      invariant CleanedUp(before, c.state, tried, c.log, start, gone)
      invariant AllTried(tried, c.log, start, gone)
      invariant Survives(c.fates, n, n + i)
      invariant gone != {} <==> DeletesSome(c.fates, n, i)
    {
      var r;
      assert ids[i] !in tried;
      DeletesSoFar(c.fates, n, i, |ids|);
      r, gone := CleanUpOne(c, ids[i], before, tried, start, gone);
      tried := tried + [ids[i]];
      if r.Crashed? {
        CleanedUpMore(before, c.state, tried, ids, c.log, start, gone);
        return true, gone;
      }
    }
    assert tried == ids;
    return false, gone;
  }

  lemma StrippedPiece(configs: map<Id, Config>, service: Service, req: Request, gone: set<Id>)
    requires IsPiece(configs, service, req)
    ensures IsPiece(configs - gone, service.(configs := Remaining(service.configs, gone)), req)
    ensures |Remaining(service.configs, gone)| == |Wanted(req)| <==>
      |service.configs| == |Wanted(req)| && forall k :: 0 <= k < |service.configs| ==> service.configs[k] !in gone
  {
    RemainingMeaning(service.configs, gone);
  }

  lemma StrippedServices(base: State, s: State, req: Request, gone: set<Id>, id: Id)
    requires Retrying(base, s, req) && forall id :: id in gone ==> base.nextId <= id
    requires id in s.services
    ensures var service := WithoutConfigs(s, gone).services[id];
      && (id in base.services ==> service == base.services[id])
      && (id !in base.services ==>
            && IsPiece(s.configs - gone, service, req)
            && (|service.configs| == |Wanted(req)| <==>
                && |s.services[id].configs| == |Wanted(req)|
                && forall k :: 0 <= k < |s.services[id].configs| ==> s.services[id].configs[k] !in gone))
  {
    if id in base.services {
      RemainingMeaning(s.services[id].configs, gone);
    } else {
      StrippedPiece(s.configs, s.services[id], req, gone);
    }
  }

  /** Deleting new configs takes nothing from what was there before the first
      attempt, ... */
  lemma StripKeepsRetrying(base: State, s: State, req: Request, gone: set<Id>)
    requires Retrying(base, s, req) && forall id :: id in gone ==> base.nextId <= id
    ensures Retrying(base, WithoutConfigs(s, gone), req)
  {
    WithoutWellFormed(s, gone);
    forall id | id in s.services
      ensures id in base.services ==> WithoutConfigs(s, gone).services[id] == base.services[id]
      ensures id !in base.services ==> IsPiece(s.configs - gone, WithoutConfigs(s, gone).services[id], req)
    {
      StrippedServices(base, s, req, gone, id);
    }
  }

  /** ... and a new service is the less for it if and only if it held one of them. */
  lemma StripKeepsWhole(base: State, s: State, req: Request, gone: set<Id>)
    requires Retrying(base, s, req) && forall id :: id in gone ==> base.nextId <= id
    ensures Whole(base, WithoutConfigs(s, gone), req) <==>
      Whole(base, s, req) && forall id :: id in gone ==> !Referenced(s, id)
  {
    forall id | id in s.services && id !in base.services
      ensures |WithoutConfigs(s, gone).services[id].configs| == |Wanted(req)| <==>
        && |s.services[id].configs| == |Wanted(req)|
        && forall k :: 0 <= k < |s.services[id].configs| ==> s.services[id].configs[k] !in gone
    {
      StrippedServices(base, s, req, gone, id);
    }
    UnreferencedMeaning(s, gone);
    assert forall service, k :: service in base.services && 0 <= k < |s.services[service].configs| ==>
      s.services[service].configs[k] !in gone;
  }

  lemma UnreferencedMeaning(s: State, gone: set<Id>)
    ensures (forall id :: id in gone ==> !Referenced(s, id)) <==>
      (forall service, k :: service in s.services && 0 <= k < |s.services[service].configs| ==>
         s.services[service].configs[k] !in gone)
  {
  }

  // ---------------------------------------------------------------- what an attempt may change

  /** The configs of `s0` are in `s`; only those named in `adoptable` may be rewritten. */
  ghost predicate Preserved(s0: State, s: State, adoptable: seq<Config>) {
    forall id :: id in s0.configs ==>
      && id in s.configs
      && s.configs[id].name == s0.configs[id].name && s.configs[id].typeId == s0.configs[id].typeId
      && ((forall config :: config in adoptable ==> config.name != s0.configs[id].name) ==>
            s.configs[id] == s0.configs[id])
  }

  /** No config that was there is deleted, adopted or not, and no service that was
      there changes, so none loses a config it refers to. */
  ghost predicate Undisturbed(s0: State, s: State, req: Request) {
    && Preserved(s0, s, Wanted(req))
    && forall id :: id in s0.services ==> id in s.services && s.services[id] == s0.services[id]
  }

  /** What is left of a failed create: what was there, undisturbed, and exactly
      those new configs whose own delete failed. */
  ghost predicate RolledBack(s0: State, s: State, req: Request, log: seq<Event>, start: nat)
    requires start <= |log|
  {
    && s.services == s0.services
    && s.configs.Keys == s0.configs.Keys + CreatedSince(log, start) * DeleteFailedSince(log, start)
    && Preserved(s0, s, Wanted(req))
  }

  /** `s` is `s0` with configs `added` added, each numbered after `s0`. */
  ghost predicate Grown(s0: State, s: State, added: set<Id>) {
    && s.services == s0.services && s0.nextId <= s.nextId
    && s.configs.Keys == s0.configs.Keys + added
    && (forall id :: id in added ==> s0.nextId <= id < s.nextId)
  }

  /** `configIds` names, in order, configs with the names and the data wanted. */
  ghost predicate Attachable(s: State, wanted: seq<Config>, configIds: seq<Id>) {
    && |configIds| == |wanted|
    && forall k :: 0 <= k < |wanted| ==>
         && configIds[k] in s.configs
         && s.configs[configIds[k]].name == wanted[k].name && s.configs[configIds[k]].data == wanted[k].data
  }

  /** What comes of asking for `config` where the config `id` has its name or, if it was
      not there before, is new: a new one is as asked for, one that was there keeps its
      type, and its tags if none are sent. */
  function Resulting(before: map<Id, Config>, id: Id, config: Config): Config {
    if id in before then Patched(before[id], config.name, config.data, SentTags(config.tags)) else config
  }

  /** `configIds` names, in order, what came of asking for `wanted`. */
  ghost predicate Sent(s0: State, s: State, wanted: seq<Config>, configIds: seq<Id>) {
    && |configIds| == |wanted|
    && forall k :: 0 <= k < |wanted| ==>
         configIds[k] in s.configs && s.configs[configIds[k]] == Resulting(s0.configs, configIds[k], wanted[k])
  }

  lemma SentIsAttachable(s0: State, s: State, wanted: seq<Config>, configIds: seq<Id>)
    requires Sent(s0, s, wanted, configIds)
    ensures Attachable(s, wanted, configIds)
  {
  }

  /** The log since `start` records the creation of `added`, and no failed delete. */
  ghost predicate Recorded(log: seq<Event>, start: nat, added: set<Id>) {
    start <= |log| && CreatedSince(log, start) == added && DeleteFailedSince(log, start) == {}
  }

  /** The program remembers as created what it was told it created: all of `added`
      if every reply is definite. */
  ghost predicate Remembered(created: seq<Id>, added: set<Id>, definite: bool) {
    && (forall k, l :: 0 <= k < l < |created| ==> created[k] != created[l])
    && Elements(created) <= added && (definite ==> Elements(created) == added)
  }

  /** Where an attempt stands that has dealt with the configs of `done`: `added` is
      new, and `created` is what the program remembers of it. */
  ghost predicate Standing(s0: State, s: State, done: seq<Config>, log: seq<Event>, start: nat,
                           created: seq<Id>, added: set<Id>, definite: bool) {
    Grown(s0, s, added) && Preserved(s0, s, done) && Recorded(log, start, added) && Remembered(created, added, definite)
  }

  /** Only a config with the name of one asked for is rewritten. */
  lemma NextPreserved(s0: State, s: State, s': State, done: seq<Config>, config: Config)
    requires Preserved(s0, s, done)
    requires forall id :: id in s0.configs && id in s.configs ==>
      && id in s'.configs
      && s'.configs[id].name == s.configs[id].name && s'.configs[id].typeId == s.configs[id].typeId
      && (s.configs[id].name == config.name || s'.configs[id] == s.configs[id])
    ensures Preserved(s0, s', done + [config])
  {
    forall id | id in s0.configs &&
      (forall config' :: config' in done + [config] ==> config'.name != s0.configs[id].name)
      ensures s'.configs[id] == s0.configs[id]
    {
      assert forall config' :: config' in done ==> config' in done + [config];
      assert config in done + [config];
    }
  }

  lemma EnsuredTouchesNamesakes(s0: State, s: State, s': State, config: Config, id: Id, adopted: bool)
    requires Ensured(s, s', config, id, adopted)
    requires WellFormed(s0) && s0.nextId <= s.nextId
    ensures forall other :: other in s0.configs && other in s.configs ==>
      && other in s'.configs
      && s'.configs[other].name == s.configs[other].name && s'.configs[other].typeId == s.configs[other].typeId
      && (s.configs[other].name == config.name || s'.configs[other] == s.configs[other])
  {
  }

  /** Neither way of ensuring a config disturbs one of another name. */
  lemma OthersUndisturbed(s: State, s': State, config: Config, id: Id, adopted: bool, other: Id)
    requires WellFormed(s) && Ensured(s, s', config, id, adopted)
    requires other in s.configs && s.configs[other].name != config.name
    ensures other in s'.configs && s'.configs[other] == s.configs[other]
  {
  }

  /** A config adopted by a name that no earlier config of the create has was there
      before, and as it was. */
  lemma AdoptedWasBefore(s0: State, s: State, done: seq<Config>, config: Config, id: Id)
    requires WellFormed(s) && Preserved(s0, s, done) && forall k :: 0 <= k < |done| ==> done[k].name != config.name
    requires ConfigNameTaken(s, config.name) ==> ConfigNameTaken(s0, config.name)
    requires id in s.configs && s.configs[id].name == config.name
    ensures id in s0.configs && s0.configs[id] == s.configs[id]
  {
    var there :| there in s0.configs && s0.configs[there].name == config.name;
    assert ConfigNamesakes(s, there, id);
  }

  lemma NextSent(s0: State, s: State, s': State, done: seq<Config>, configIds: seq<Id>, config: Config, id: Id,
                 adopted: bool)
    requires WellFormed(s0) && WellFormed(s) && s0.nextId <= s.nextId && Preserved(s0, s, done)
    requires Sent(s0, s, done, configIds) && Ensured(s, s', config, id, adopted)
    requires forall k :: 0 <= k < |done| ==> done[k].name != config.name
    requires ConfigNameTaken(s, config.name) ==> ConfigNameTaken(s0, config.name)
    ensures Sent(s0, s', done + [config], configIds + [id])
  {
    forall k | 0 <= k < |done|
      ensures configIds[k] in s'.configs && s'.configs[configIds[k]] == s.configs[configIds[k]]
    {
      assert s.configs[configIds[k]].name == done[k].name;
      OthersUndisturbed(s, s', config, id, adopted, configIds[k]);
    }
    if adopted {
      AdoptedWasBefore(s0, s, done, config, id);
    }
  }

  lemma NextGrown(s0: State, s: State, s': State, added: set<Id>, config: Config, id: Id, adopted: bool)
    requires Grown(s0, s, added) && Ensured(s, s', config, id, adopted)
    ensures adopted ==> Grown(s0, s', added)
    ensures !adopted ==> Grown(s0, s', added + {id})
  {
    if adopted {
      assert s'.configs.Keys == s.configs.Keys;
    } else {
      assert s'.configs.Keys == s.configs.Keys + {id};
      OneMore(s0.configs.Keys, added, id);
    }
  }

  lemma OneMore(before: set<Id>, added: set<Id>, id: Id)
    ensures before + added + {id} == before + (added + {id})
  {
  }

  ghost function AddedBy(added: set<Id>, effect: Option<(Id, bool)>): set<Id> {
    if effect.Some? && !effect.value.1 then added + {effect.value.0} else added
  }

  /** Whatever `CreateOrAdoptConfig` got done fits in. */
  lemma EffectGrows(s0: State, s: State, s': State, done: seq<Config>, added: set<Id>, config: Config,
                    effect: Option<(Id, bool)>)
    requires WellFormed(s0) && Grown(s0, s, added) && Preserved(s0, s, done)
    requires Effect(s, s', config, effect)
    ensures Grown(s0, s', AddedBy(added, effect)) && Preserved(s0, s', done + [config])
  {
    if effect.Some? {
      EnsuredTouchesNamesakes(s0, s, s', config, effect.value.0, effect.value.1);
      NextGrown(s0, s, s', added, config, effect.value.0, effect.value.1);
    }
    NextPreserved(s0, s, s', done, config);
  }

  lemma EffectRecorded(log: seq<Event>, start: nat, added: set<Id>, effect: Option<(Id, bool)>)
    requires Recorded(log, start, added)
    ensures Recorded(log + EffectLog(effect), start, AddedBy(added, effect))
  {
    if effect.Some? {
      LogGrows(log, start, ConfigCreated(effect.value.0));
    }
    assert log + [] == log;
  }

  lemma EffectRemembered(created: seq<Id>, added: set<Id>, definite: bool, effect: Option<(Id, bool)>, told: bool)
    requires Remembered(created, added, definite)
    requires told ==> effect.Some? && !effect.value.1
    requires definite && effect.Some? && !effect.value.1 ==> told
    requires effect.Some? && !effect.value.1 ==> effect.value.0 !in added
    ensures Remembered(if told then created + [effect.value.0] else created, AddedBy(added, effect), definite)
  {
    if told {
      assert Elements(created + [effect.value.0]) == Elements(created) + {effect.value.0};
    }
  }

  /** One config later. `told` says that the program was told it created it. */
  lemma StandingNext(s0: State, s: State, s': State, done: seq<Config>, log: seq<Event>, start: nat,
                     created: seq<Id>, added: set<Id>, definite: bool,
                     config: Config, effect: Option<(Id, bool)>, told: bool)
    requires WellFormed(s0) && Standing(s0, s, done, log, start, created, added, definite)
    requires Effect(s, s', config, effect)
    requires told ==> effect.Some? && !effect.value.1
    requires definite && effect.Some? && !effect.value.1 ==> told
    ensures Standing(s0, s', done + [config], log + EffectLog(effect), start,
                     if told then created + [effect.value.0] else created, AddedBy(added, effect), definite)
  {
    EffectGrows(s0, s, s', done, added, config, effect);
    EffectRecorded(log, start, added, effect);
    EffectRemembered(created, added, definite, effect, told);
  }

  /** The configs `ids` keep their names, and their data unless they have the name of
      `config` and are rewritten. */
  ghost predicate DataKept(ids: set<Id>, before: map<Id, Config>, after: map<Id, Config>, config: Config,
                           rewritten: bool) {
    forall id :: id in ids && id in before ==>
      && id in after && after[id].name == before[id].name
      && after[id].data == if rewritten && before[id].name == config.name then config.data else before[id].data
  }

  lemma EffectKeepsData(s: State, s': State, config: Config, effect: Option<(Id, bool)>)
    requires WellFormed(s) && Effect(s, s', config, effect)
    ensures DataKept(s.configs.Keys, s.configs, s'.configs, config, effect.Some?)
    ensures forall name :: name != config.name ==> (ConfigNameTaken(s', name) <==> ConfigNameTaken(s, name))
  {
    forall id | id in s.configs && effect.Some? && effect.value.1 && s.configs[id].name == config.name
      ensures id == effect.value.0
    {
      assert ConfigNamesakes(s, id, effect.value.0);
    }
    forall name | name != config.name ensures ConfigNameTaken(s', name) <==> ConfigNameTaken(s, name) {
      if id :| id in s.configs && s.configs[id].name == name {
        assert s'.configs[id].name == name;
      }
    }
  }

  predicate Among(ids: seq<Id>, others: seq<Id>) {
    forall k :: 0 <= k < |ids| ==> ids[k] in others
  }

  /** One config of a create: it is put in place and remembered, as created if it was. */
  method PutInPlace(c: Controller, config: Config, configIds: seq<Id>, created: seq<Id>,
                    ghost base: State, ghost s0: State, ghost req: Request, ghost done: seq<Config>,
                    ghost start: nat, ghost added: set<Id>, ghost definite: bool)
    returns (r: Reply<(seq<Id>, seq<Id>)>, ghost added': set<Id>)
    requires c.Valid() && WellFormed(s0) && Sent(s0, c.state, done, configIds)
    requires ConfigNameTaken(c.state, config.name) ==> ConfigNameTaken(s0, config.name)
    requires Standing(s0, c.state, done, c.log, start, created, added, definite)
    requires definite ==> c.Definite(c.calls)
    requires config in Wanted(req) && forall k :: 0 <= k < |done| ==> done[k].name != config.name
    modifies c
    ensures c.Valid() && c.calls > old(c.calls) && old(c.log) <= c.log
    ensures c.state.services == s0.services && Preserved(s0, c.state, done + [config])
    ensures !r.Crashed? ==>
      Standing(s0, c.state, done + [config], c.log, start, if r.Answered? then r.value.1 else created, added', definite)
    ensures r.Answered? ==> Sent(s0, c.state, done + [config], r.value.0)
    ensures r.Answered? && Among(created, configIds) ==> Among(r.value.1, r.value.0)
    ensures var n, taken := old(c.calls), ConfigNameTaken(old(c.state), config.name);
      && (r.Answered? <==> Places(c.fates, taken, n))
      && (r.Answered? ==> |r.value.1| == |created| + if Creates(c.fates, taken, n) then 1 else 0)
      && (!r.Crashed? ==> c.calls == n + CallsFor(c.fates, taken, n))
      && DataKept(s0.configs.Keys, old(c.state.configs), c.state.configs, config,
                  MakesNew(c.fates, taken, n) || Rewrites(c.fates, taken, n))
    ensures forall name :: name != config.name ==>
      (ConfigNameTaken(c.state, name) <==> ConfigNameTaken(old(c.state), name))
    ensures r.Crashed? ==> !c.NoCrash(old(c.calls))
    ensures Retrying(base, old(c.state), req) ==> Retrying(base, c.state, req)
  {
    ghost var s, log := c.state, c.log;
    var ensured, effect := CreateOrAdoptConfig(c, config);
    added' := AddedBy(added, effect);
    EffectKeepsRetrying(base, s, c.state, req, config, effect);
    EffectKeepsData(s, c.state, config, effect);
    EffectGrows(s0, s, c.state, done, added, config, effect);
    if ensured.Crashed? {
      return Crashed, added';
    }
    StandingNext(s0, s, c.state, done, log, start, created, added, definite, config, effect,
                 ensured.Answered? && !ensured.value.1);
    if ensured.Refused? {
      return Refused, added';
    }
    var (id, adopted) := ensured.value;
    NextSent(s0, s, c.state, done, configIds, config, id, effect.value.1);
    r := Answered((configIds + [id], if adopted then created else created + [id]));
  }

  // ---------------------------------------------------------------- rollback

  lemma PreservedMore(s0: State, s: State, done: seq<Config>, more: seq<Config>)
    requires Preserved(s0, s, done) && forall config :: config in done ==> config in more
    ensures Preserved(s0, s, more)
  {
  }

  /** Deleting what is newer than `s0` disturbs nothing of it. */
  lemma StripUndisturbed(s0: State, s: State, req: Request, gone: set<Id>)
    requires WellFormed(s0) && Undisturbed(s0, s, req) && forall id :: id in gone ==> s0.nextId <= id
    ensures Undisturbed(s0, WithoutConfigs(s, gone), req)
    ensures SameFor(s0.configs.Keys, s.configs, WithoutConfigs(s, gone).configs)
  {
    forall id | id in s0.services ensures WithoutConfigs(s, gone).services[id] == s0.services[id] {
      RemainingMeaning(s.services[id].configs, gone);
    }
  }

  lemma StripKeepsNames(s: State, gone: set<Id>, name: string)
    ensures ServiceNameTaken(WithoutConfigs(s, gone), name) <==> ServiceNameTaken(s, name)
  {
    assert forall id :: id in s.services ==> WithoutConfigs(s, gone).services[id].name == s.services[id].name;
  }

  ghost predicate SameFor(ids: set<Id>, before: map<Id, Config>, after: map<Id, Config>) {
    forall id :: id in ids && id in before ==> id in after && after[id] == before[id]
  }

  lemma AddedAreUnreferenced(s0: State, s: State, added: set<Id>)
    requires WellFormed(s0) && s.services == s0.services && forall id :: id in added ==> s0.nextId <= id
    ensures forall id :: id in added ==> !Referenced(s, id)
  {
  }

  /** With definite replies the clean-up is exact: what it leaves of the new configs
      are those whose own delete failed. */
  lemma CleanupRollsBack(s0: State, s: State, s': State, req: Request, created: seq<Id>, added: set<Id>, gone: set<Id>,
                         log: seq<Event>, start: nat, mid: nat)
    requires start <= mid <= |log| && WellFormed(s0)
    requires Standing(s0, s, Wanted(req), log[..mid], start, created, added, true)
    requires CleanedUp(s, s', created, log, mid, gone) && AllTried(created, log, mid, gone)
    ensures RolledBack(s0, s', req, log, start)
  {
    LogSplits(log, start, mid);
    AddedAreUnreferenced(s0, s, added);
    WithoutUnreferenced(s, gone);
    KeysLeft(s0.configs.Keys, added, DeleteFailedSince(log, mid));
    assert s'.configs.Keys == s.configs.Keys - gone;
    assert s0.configs.Keys !! added;
  }

  lemma KeysLeft(before: set<Id>, created: set<Id>, failed: set<Id>)
    requires before !! created && failed <= created
    ensures before + created - (created - failed) == before + created * failed
  {
  }

  /** Every one of `ids` is held by some service. */
  ghost predicate AllReferenced(s: State, ids: seq<Id>) {
    forall k :: 0 <= k < |ids| ==> Referenced(s, ids[k])
  }

  lemma CleanupKeepsRetrying(base: State, s0: State, s: State, req: Request, created: seq<Id>, gone: set<Id>,
                             lost: bool)
    requires WellFormed(s0) && forall k :: 0 <= k < |created| ==> s0.nextId <= created[k]
    requires gone <= Elements(created)
    requires if lost then AllReferenced(s, created) else s.services == s0.services
    ensures base.nextId <= s0.nextId ==> RetryKept(base, s, WithoutConfigs(s, gone), req, lost && gone != {})
  {
    if base.nextId <= s0.nextId && Retrying(base, s, req) {
      StripKeepsRetrying(base, s, req, gone);
      StripKeepsWhole(base, s, req, gone);
      if !lost {
        AddedAreUnreferenced(s0, s, gone);
      }
    }
  }

  /** `created` may be given back: it is newer than `s0`, and the service holds it if
      the reply to its create was lost. Without lost replies it is all that is new. */
  ghost predicate CanGiveBack(s0: State, s: State, req: Request, created: seq<Id>, log: seq<Event>, start: nat,
                              added: set<Id>, lost: bool, exact: bool) {
    && Undisturbed(s0, s, req) && start <= |log|
    && (forall k :: 0 <= k < |created| ==> s0.nextId <= created[k])
    && (forall k, l :: 0 <= k < l < |created| ==> created[k] != created[l])
    && (if lost then AllReferenced(s, created) else s.services == s0.services)
    && (exact ==> Standing(s0, s, Wanted(req), log, start, created, added, true))
  }

  /** What giving back `created`, from call `n` on, comes to. */
  ghost predicate GivenBack(c: Controller, n: nat, base: State, s0: State, s: State, s': State, req: Request,
                            created: seq<Id>, log: seq<Event>, start: nat, lost: bool, exact: bool, r: Reply<Id>,
                            calls: nat)
    requires start <= |log|
  {
    && !r.Answered? && Undisturbed(s0, s', req) && SameFor(s0.configs.Keys, s.configs, s'.configs)
    && (exact && r.Refused? ==> RolledBack(s0, s', req, log, start))
    && (r.Refused? ==> calls == n + |created|)
    && (r.Crashed? ==> !c.NoCrash(n))
    && (!lost ==> s'.services == s0.services)
    && (ServiceNameTaken(s', req.name) <==> ServiceNameTaken(s, req.name))
    && (base.nextId <= s0.nextId ==> RetryKept(base, s, s', req, lost && DeletesSome(c.fates, n, |created|)))
  }

  /** What a failed create does last: it gives back what it remembers as created. If
      the reply to the create of the service was lost, the service loses it. */
  method RollBack(c: Controller, created: seq<Id>, ghost base: State, ghost s0: State, ghost req: Request,
                  ghost start: nat, ghost added: set<Id>, ghost lost: bool, ghost exact: bool)
    returns (r: Reply<Id>)
    requires c.Valid() && WellFormed(s0)
    requires CanGiveBack(s0, c.state, req, created, c.log, start, added, lost, exact)
    modifies c
    ensures c.Valid() && c.calls >= old(c.calls) && old(c.log) <= c.log
    ensures GivenBack(c, old(c.calls), base, s0, old(c.state), c.state, req, created, c.log, start, lost, exact, r,
                      c.calls)
  {
    ghost var s, mid := c.state, |c.log|;
    var crashed, gone := CleanupConfigs(c, created);
    StripKeepsNames(s, gone, req.name);
    StripUndisturbed(s0, s, req, gone);
    CleanupKeepsRetrying(base, s0, s, req, created, gone, lost);
    if !lost {
      AddedAreUnreferenced(s0, s, gone);
      WithoutUnreferenced(s, gone);
    }
    if crashed {
      return Crashed;
    }
    if exact {
      assert c.log[..mid] == old(c.log);
      CleanupRollsBack(s0, s, c.state, req, created, added, gone, c.log, start, mid);
    }
    return Refused;
  }

  // ---------------------------------------------------------------- the calls of an attempt, by number
  // An attempt that starts at call `n` finds the names of `taken` taken.

  datatype Names = Names(host: bool, intercept: bool, service: bool)

  function TakenNames(s: State, req: Request): Names {
    Names(req.hostV1.Some? && ConfigNameTaken(s, HostConfig(req).name),
          req.interceptV1.Some? && ConfigNameTaken(s, InterceptConfig(req).name),
          ServiceNameTaken(s, req.name))
  }

  predicate HostPlaced(fates: Fates, req: Request, taken: bool, n: nat) {
    req.hostV1.None? || Places(fates, taken, n)
  }

  function AfterHost(fates: Fates, req: Request, taken: bool, n: nat): nat {
    n + if req.hostV1.Some? then CallsFor(fates, taken, n) else 0
  }

  function HostsCreated(fates: Fates, req: Request, taken: bool, n: nat): nat {
    if req.hostV1.Some? && Creates(fates, taken, n) then 1 else 0
  }

  predicate InterceptPlaced(fates: Fates, req: Request, taken: bool, n: nat) {
    req.interceptV1.None? || Places(fates, taken, n)
  }

  function AfterIntercept(fates: Fates, req: Request, taken: bool, n: nat): nat {
    n + if req.interceptV1.Some? then CallsFor(fates, taken, n) else 0
  }

  function InterceptsCreated(fates: Fates, req: Request, taken: bool, n: nat): nat {
    if req.interceptV1.Some? && Creates(fates, taken, n) then 1 else 0
  }

  predicate AllPlaced(fates: Fates, req: Request, taken: Names, n: nat) {
    && HostPlaced(fates, req, taken.host, n)
    && InterceptPlaced(fates, req, taken.intercept, AfterHost(fates, req, taken.host, n))
  }

  /** The call that creates the service, if the configs get placed. */
  function ServiceCall(fates: Fates, req: Request, taken: Names, n: nat): nat {
    AfterIntercept(fates, req, taken.intercept, AfterHost(fates, req, taken.host, n))
  }

  /** How many configs the attempt is told it created. */
  function CreatedCount(fates: Fates, req: Request, taken: Names, n: nat): nat {
    HostsCreated(fates, req, taken.host, n) +
    InterceptsCreated(fates, req, taken.intercept, AfterHost(fates, req, taken.host, n))
  }

  /** The service is created, and the reply says so. */
  predicate MakesService(fates: Fates, req: Request, taken: Names, n: nat) {
    && AllPlaced(fates, req, taken, n) && !taken.service
    && fates(ServiceCall(fates, req, taken, n)).Works?
  }

  /** The service is created, and the reply is an error. */
  predicate LosesReply(fates: Fates, req: Request, taken: Names, n: nat) {
    && AllPlaced(fates, req, taken, n) && !taken.service
    && fates(ServiceCall(fates, req, taken, n)).Lost?
  }

  /** The service is created, the reply is an error, and the clean-up gets to delete
      one of its configs. */
  ghost predicate Strips(fates: Fates, req: Request, taken: Names, n: nat) {
    && LosesReply(fates, req, taken, n)
    && DeletesSome(fates, ServiceCall(fates, req, taken, n) + 1, CreatedCount(fates, req, taken, n))
  }

  /** The first call after the create and its clean-up, unless the process dies. */
  function AfterCreate(fates: Fates, req: Request, taken: Names, n: nat): nat {
    if !HostPlaced(fates, req, taken.host, n) then AfterHost(fates, req, taken.host, n)
    else if !AllPlaced(fates, req, taken, n) then
      ServiceCall(fates, req, taken, n) + HostsCreated(fates, req, taken.host, n)
    else
      ServiceCall(fates, req, taken, n) + 1 +
      if MakesService(fates, req, taken, n) then 0 else CreatedCount(fates, req, taken, n)
  }

  /** The attempt gets to rewrite the config of that name. */
  predicate RewritesConfig(fates: Fates, req: Request, taken: Names, config: Config, n: nat) {
    if req.hostV1.Some? && config == HostConfig(req) then Rewrites(fates, taken.host, n)
    else
      && HostPlaced(fates, req, taken.host, n)
      && Rewrites(fates, taken.intercept, AfterHost(fates, req, taken.host, n))
  }

  /** The configs that were there under the names asked for have the data asked for
      if the attempt got to rewrite them, and their own otherwise. */
  ghost predicate DataRewritten(fates: Fates, s0: State, s: State, req: Request, n: nat) {
    forall id, config :: id in s0.configs && config in Wanted(req) && s0.configs[id].name == config.name ==>
      && id in s.configs
      && s.configs[id].data ==
           if RewritesConfig(fates, req, TakenNames(s0, req), config, n) then config.data else s0.configs[id].data
  }

  // ---------------------------------------------------------------- placing the configs

  lemma StartStanding(s0: State, req: Request, log: seq<Event>, definite: bool)
    requires WellFormed(s0)
    ensures Standing(s0, s0, [], log, |log|, [], {}, definite) && Sent(s0, s0, [], [])
    ensures RolledBack(s0, s0, req, log, |log|)
  {
    assert CreatedSince(log, |log|) == {} && DeleteFailedSince(log, |log|) == {};
    assert s0.configs.Keys + {} == s0.configs.Keys;
  }

  /** An attempt that stands with nothing created has nothing to give back. */
  lemma NothingToGiveBack(s0: State, s: State, req: Request, log: seq<Event>, start: nat, added: set<Id>)
    requires Standing(s0, s, Wanted(req), log, start, [], added, true)
    ensures RolledBack(s0, s, req, log, start)
  {
    assert Elements([]) == {};
    assert s0.configs.Keys + {} == s0.configs.Keys + {} * DeleteFailedSince(log, start);
  }

  lemma StandingMore(s0: State, s: State, done: seq<Config>, more: seq<Config>, log: seq<Event>, start: nat,
                     created: seq<Id>, added: set<Id>, definite: bool)
    requires Standing(s0, s, done, log, start, created, added, definite)
    requires forall config :: config in done ==> config in more
    ensures Standing(s0, s, more, log, start, created, added, definite)
  {
  }

  /** What the program remembers is new. */
  lemma CreatedAreNew(s0: State, s: State, done: seq<Config>, log: seq<Event>, start: nat,
                      created: seq<Id>, added: set<Id>, definite: bool)
    requires Standing(s0, s, done, log, start, created, added, definite)
    ensures forall k :: 0 <= k < |created| ==> s0.nextId <= created[k]
  {
    assert forall k :: 0 <= k < |created| ==> created[k] in Elements(created);
  }

  lemma DataStillKept(ids: set<Id>, before: map<Id, Config>, after: map<Id, Config>, later: map<Id, Config>,
                      config: Config, rewritten: bool)
    requires DataKept(ids, before, after, config, rewritten) && SameFor(ids, after, later)
    ensures DataKept(ids, before, later, config, rewritten)
  {
  }

  /** What placing the intercept config, from call `n` on, makes of `s`, where the host
      config is in place. */
  ghost predicate InterceptOutcome(c: Controller, n: nat, base: State, s0: State, s: State, s': State, req: Request,
                                   configIds: seq<Id>, created: seq<Id>, taken: bool, log: seq<Event>, start: nat,
                                   added: set<Id>, definite: bool, r: Reply<(seq<Id>, seq<Id>)>, calls: nat)
    requires start <= |log|
  {
    && s'.services == s0.services && Preserved(s0, s', Wanted(req))
    && (Retrying(base, s0, req) && Retrying(base, s, req) ==> Retrying(base, s', req))
    && (r.Answered? <==> InterceptPlaced(c.fates, req, taken, n))
    && (r.Answered? ==>
          && Standing(s0, s', Wanted(req), log, start, r.value.1, added, definite)
          && Sent(s0, s', Wanted(req), r.value.0)
          && |r.value.1| == |created| + InterceptsCreated(c.fates, req, taken, n)
          && (Among(created, configIds) ==> Among(r.value.1, r.value.0)))
    && (!r.Crashed? ==> calls == AfterIntercept(c.fates, req, taken, n) + if r.Refused? then |created| else 0)
    && (r.Refused? && definite ==> RolledBack(s0, s', req, log, start))
    && (if req.interceptV1.None? then s' == s
        else r.Crashed? ||
             DataKept(s0.configs.Keys, s.configs, s'.configs, InterceptConfig(req),
                      MakesNew(c.fates, taken, n) || Rewrites(c.fates, taken, n)))
    && (r.Crashed? ==> !c.NoCrash(n))
  }

  lemma NoIntercept(c: Controller, base: State, s0: State, s: State, req: Request, configIds: seq<Id>,
                    created: seq<Id>, taken: bool, log: seq<Event>, start: nat, added: set<Id>, definite: bool,
                    calls: nat)
    requires req.interceptV1.None? && Sent(s0, s, HostWanted(req), configIds)
    requires Standing(s0, s, HostWanted(req), log, start, created, added, definite)
    ensures InterceptOutcome(c, calls, base, s0, s, s, req, configIds, created, taken, log, start, added, definite,
                             Answered((configIds, created)), calls)
  {
    assert Wanted(req) == HostWanted(req);
  }

  /** The intercept config, placed from call `n` on, failed: what was created for the
      host config is given back. */
  method GiveHostBack(c: Controller, req: Request, configIds: seq<Id>, created: seq<Id>, ghost n: nat,
                      ghost base: State, ghost s0: State, ghost s: State, ghost taken: bool, ghost start: nat,
                      ghost added: set<Id>, ghost definite: bool)
    returns (r: Reply<(seq<Id>, seq<Id>)>)
    requires c.Valid() && WellFormed(s0) && req.interceptV1.Some?
    requires Standing(s0, c.state, Wanted(req), c.log, start, created, added, definite)
    requires !Places(c.fates, taken, n) && c.calls == n + CallsFor(c.fates, taken, n)
    requires DataKept(s0.configs.Keys, s.configs, c.state.configs, InterceptConfig(req),
                      MakesNew(c.fates, taken, n) || Rewrites(c.fates, taken, n))
    requires Retrying(base, s, req) ==> Retrying(base, c.state, req)
    modifies c
    ensures c.Valid() && c.calls >= old(c.calls) && old(c.log) <= c.log
    ensures !r.Answered?
    ensures InterceptOutcome(c, n, base, s0, s, c.state, req, configIds, created, taken, c.log, start, added, definite,
                             r, c.calls)
  {
    ghost var s1 := c.state;
    CreatedAreNew(s0, s1, Wanted(req), c.log, start, created, added, definite);
    var failed := RollBack(c, created, base, s0, req, start, added, false, definite);
    DataStillKept(s0.configs.Keys, s.configs, s1.configs, c.state.configs, InterceptConfig(req),
                  MakesNew(c.fates, taken, n) || Rewrites(c.fates, taken, n));
    r := if failed.Crashed? then Crashed else Refused;
  }

  /** The intercept config of a create, after the host config; if it fails, the
      host config is given back. */
  method PlaceIntercept(c: Controller, req: Request, configIds: seq<Id>, created: seq<Id>,
                        ghost base: State, ghost s0: State, ghost taken: bool, ghost start: nat,
                        ghost before: set<Id>, ghost definite: bool)
    returns (r: Reply<(seq<Id>, seq<Id>)>, ghost added: set<Id>)
    requires c.Valid() && WellFormed(s0) && Sent(s0, c.state, HostWanted(req), configIds)
    requires Standing(s0, c.state, HostWanted(req), c.log, start, created, before, definite)
    requires definite ==> c.Definite(c.calls)
    requires req.interceptV1.Some? ==>
      && taken == ConfigNameTaken(c.state, InterceptConfig(req).name)
      && (taken ==> ConfigNameTaken(s0, InterceptConfig(req).name))
    modifies c
    ensures c.Valid() && c.calls >= old(c.calls) && old(c.log) <= c.log
    ensures InterceptOutcome(c, old(c.calls), base, s0, old(c.state), c.state, req, configIds, created, taken, c.log,
                             start, added, definite, r, c.calls)
  {
    if req.interceptV1.None? {
      NoIntercept(c, base, s0, c.state, req, configIds, created, taken, c.log, start, before, definite, c.calls);
      return Answered((configIds, created)), before;
    }
    ghost var s, n := c.state, c.calls;
    var config := InterceptConfig(req);
    assert Wanted(req) == HostWanted(req) + [config];
    r, added := PutInPlace(c, config, configIds, created, base, s0, req, HostWanted(req), start, before, definite);
    if r.Refused? {
      r := GiveHostBack(c, req, configIds, created, n, base, s0, s, taken, start, added, definite);
    }
  }

  lemma DataOfHost(fates: Fates, s0: State, s: State, req: Request, n: nat)
    requires req.hostV1.Some? && !HostPlaced(fates, req, TakenNames(s0, req).host, n)
    requires DataKept(s0.configs.Keys, s0.configs, s.configs, HostConfig(req),
                      MakesNew(fates, TakenNames(s0, req).host, n) || Rewrites(fates, TakenNames(s0, req).host, n))
    ensures DataRewritten(fates, s0, s, req, n)
  {
    HostNameDiffers(req);
    assert forall id :: id in s0.configs && s0.configs[id].name == HostConfig(req).name ==> TakenNames(s0, req).host;
  }

  lemma HostNameDiffers(req: Request)
    ensures req.hostV1.Some? && req.interceptV1.Some? ==> HostConfig(req).name != InterceptConfig(req).name
    ensures forall config :: config in Wanted(req) ==>
      || (req.hostV1.Some? && config == HostConfig(req))
      || (req.interceptV1.Some? && config == InterceptConfig(req) && !(req.hostV1.Some? && config == HostConfig(req)))
  {
    var host, intercept := req.name + "-host-v1", req.name + "-intercept-v1";
    assert |host| != |intercept|;
  }

  lemma DataOfBoth(fates: Fates, s0: State, s1: State, s: State, req: Request, n: nat)
    requires HostPlaced(fates, req, TakenNames(s0, req).host, n)
    requires
      var taken := TakenNames(s0, req).host;
      if req.hostV1.None? then s1 == s0
      else DataKept(s0.configs.Keys, s0.configs, s1.configs, HostConfig(req),
                    MakesNew(fates, taken, n) || Rewrites(fates, taken, n))
    requires
      var taken, m := TakenNames(s0, req).intercept, AfterHost(fates, req, TakenNames(s0, req).host, n);
      if req.interceptV1.None? then s == s1
      else DataKept(s0.configs.Keys, s1.configs, s.configs, InterceptConfig(req),
                    MakesNew(fates, taken, m) || Rewrites(fates, taken, m))
    ensures DataRewritten(fates, s0, s, req, n)
  {
    HostNameDiffers(req);
    assert req.hostV1.Some? ==>
      forall id :: id in s0.configs && s0.configs[id].name == HostConfig(req).name ==> TakenNames(s0, req).host;
    assert req.interceptV1.Some? ==>
      forall id :: id in s0.configs && s0.configs[id].name == InterceptConfig(req).name ==>
        TakenNames(s0, req).intercept;
  }

  /** What placing the host config, from call `n` on, comes to. */
  ghost predicate HostOutcome(c: Controller, n: nat, base: State, s0: State, s: State, req: Request, taken: bool,
                              log: seq<Event>, start: nat, added: set<Id>, definite: bool,
                              r: Reply<(seq<Id>, seq<Id>)>, calls: nat)
  {
    && s.services == s0.services && Preserved(s0, s, HostWanted(req))
    && (Retrying(base, s0, req) ==> Retrying(base, s, req))
    && (r.Answered? <==> HostPlaced(c.fates, req, taken, n))
    && (!r.Crashed? ==>
          && Standing(s0, s, HostWanted(req), log, start, if r.Answered? then r.value.1 else [], added, definite)
          && calls == AfterHost(c.fates, req, taken, n))
    && (r.Answered? ==>
          && Sent(s0, s, HostWanted(req), r.value.0) && Among(r.value.1, r.value.0)
          && |r.value.1| == HostsCreated(c.fates, req, taken, n))
    && (if req.hostV1.None? then s == s0
        else
          && DataKept(s0.configs.Keys, s0.configs, s.configs, HostConfig(req),
                      MakesNew(c.fates, taken, n) || Rewrites(c.fates, taken, n))
          && (forall name :: name != HostConfig(req).name ==>
                (ConfigNameTaken(s, name) <==> ConfigNameTaken(s0, name))))
    && (r.Crashed? ==> !c.NoCrash(n))
  }

  /** The host config of a create. */
  method PlaceHost(c: Controller, req: Request, ghost base: State, ghost taken: bool, ghost definite: bool)
    returns (r: Reply<(seq<Id>, seq<Id>)>, ghost added: set<Id>)
    requires c.Valid() && (definite ==> c.Definite(c.calls))
    requires req.hostV1.Some? ==> taken == ConfigNameTaken(c.state, HostConfig(req).name)
    modifies c
    ensures c.Valid() && c.calls >= old(c.calls) && old(c.log) <= c.log
    ensures HostOutcome(c, old(c.calls), base, old(c.state), c.state, req, taken, c.log, |old(c.log)|, added,
                        definite, r, c.calls)
  {
    ghost var s0 := c.state;
    StartStanding(s0, req, c.log, definite);
    if req.hostV1.None? {
      return Answered(([], [])), {};
    }
    assert [] + [HostConfig(req)] == HostWanted(req);
    r, added := PutInPlace(c, HostConfig(req), [], [], base, s0, req, [], |c.log|, {}, definite);
  }

  /** What placing the configs, from call `n` on, comes to. */
  ghost predicate PlacingOutcome(c: Controller, n: nat, base: State, s0: State, s: State, req: Request,
                                 log: seq<Event>, start: nat, added: set<Id>, definite: bool,
                                 r: Reply<(seq<Id>, seq<Id>)>, calls: nat)
    requires start <= |log|
  {
    var taken := TakenNames(s0, req);
    && s.services == s0.services && Preserved(s0, s, Wanted(req)) && RetryKept(base, s0, s, req, false)
    && (r.Answered? <==> AllPlaced(c.fates, req, taken, n))
    && (r.Answered? ==>
          && Standing(s0, s, Wanted(req), log, start, r.value.1, added, definite)
          && Sent(s0, s, Wanted(req), r.value.0) && Among(r.value.1, r.value.0)
          && calls == ServiceCall(c.fates, req, taken, n) && |r.value.1| == CreatedCount(c.fates, req, taken, n))
    && (r.Refused? ==> calls == AfterCreate(c.fates, req, taken, n))
    && (r.Refused? && definite ==> RolledBack(s0, s, req, log, start))
    && (!r.Crashed? ==> DataRewritten(c.fates, s0, s, req, n))
    && (r.Crashed? ==> !c.NoCrash(n))
  }

  lemma HostUnplaced(c: Controller, n: nat, base: State, s0: State, s: State, req: Request, log: seq<Event>, start: nat,
                     added: set<Id>, definite: bool, r: Reply<(seq<Id>, seq<Id>)>, calls: nat)
    requires start <= |log| && !r.Answered?
    requires HostOutcome(c, n, base, s0, s, req, TakenNames(s0, req).host, log, start, added, definite, r, calls)
    ensures PlacingOutcome(c, n, base, s0, s, req, log, start, added, definite, r, calls)
  {
    PreservedMore(s0, s, HostWanted(req), Wanted(req));
    if r.Refused? {
      DataOfHost(c.fates, s0, s, req, n);
      StandingMore(s0, s, HostWanted(req), Wanted(req), log, start, [], added, definite);
      if definite {
        NothingToGiveBack(s0, s, req, log, start, added);
      }
    }
  }

  lemma HostPlacedFirst(c: Controller, n: nat, base: State, s0: State, s1: State, s: State, req: Request,
                        log1: seq<Event>, log: seq<Event>, start: nat, added1: set<Id>, added: set<Id>, definite: bool,
                        host: Reply<(seq<Id>, seq<Id>)>, r: Reply<(seq<Id>, seq<Id>)>, calls: nat)
    requires start <= |log| && host.Answered?
    requires HostOutcome(c, n, base, s0, s1, req, TakenNames(s0, req).host, log1, start, added1, definite, host,
                         AfterHost(c.fates, req, TakenNames(s0, req).host, n))
    requires InterceptOutcome(c, AfterHost(c.fates, req, TakenNames(s0, req).host, n), base, s0, s1, s, req,
                              host.value.0, host.value.1, TakenNames(s0, req).intercept, log, start, added, definite, r,
                              calls)
    ensures PlacingOutcome(c, n, base, s0, s, req, log, start, added, definite, r, calls)
  {
    SameServices(base, s0, s, req);
    if !r.Crashed? {
      DataOfBoth(c.fates, s0, s1, s, req, n);
    }
  }

  lemma SameServices(base: State, s: State, s': State, req: Request)
    requires s'.services == s.services && (Retrying(base, s, req) ==> Retrying(base, s', req))
    ensures RetryKept(base, s, s', req, false)
  {
  }

  /** The configs of a create, host first. */
  method PlaceConfigs(c: Controller, req: Request, ghost base: State, ghost definite: bool)
    returns (r: Reply<(seq<Id>, seq<Id>)>, ghost added: set<Id>)
    requires c.Valid() && (definite ==> c.Definite(c.calls))
    modifies c
    ensures c.Valid() && c.calls >= old(c.calls) && old(c.log) <= c.log
    ensures PlacingOutcome(c, old(c.calls), base, old(c.state), c.state, req, c.log, |old(c.log)|, added, definite, r,
                           c.calls)
  {
    ghost var s0, start, n, taken := c.state, |c.log|, c.calls, TakenNames(c.state, req);
    HostNameDiffers(req);
    var host;
    host, added := PlaceHost(c, req, base, taken.host, definite);
    ghost var s1, log1, added1 := c.state, c.log, added;
    if !host.Answered? {
      HostUnplaced(c, n, base, s0, s1, req, log1, start, added, definite, host, c.calls);
      return host, added;
    }
    r, added := PlaceIntercept(c, req, host.value.0, host.value.1, base, s0, taken.intercept, start, added, definite);
    HostPlacedFirst(c, n, base, s0, s1, c.state, req, log1, c.log, start, added1, added, definite, host, r, c.calls);
  }

  // ---------------------------------------------------------------- creating the service

  function ServiceOf(req: Request, configIds: seq<Id>): Service {
    Service(req.name, req.roleAttributes, configIds, req.tags)
  }

  /** While retrying, what has the name of a config asked for is that config. */
  lemma AttachableIsWanted(base: State, s: State, req: Request, configIds: seq<Id>)
    requires Retrying(base, s, req) && Attachable(s, Wanted(req), configIds)
    ensures forall k :: 0 <= k < |configIds| ==> s.configs[configIds[k]] == Wanted(req)[k]
  {
    WantedNamesDiffer(req);
    forall k | 0 <= k < |configIds| ensures s.configs[configIds[k]] == Wanted(req)[k] {
      assert configIds[k] !in base.configs;
    }
  }

  lemma NoNewService(base: State, s: State, req: Request)
    requires Partial(base, s, req) && !ServiceNameTaken(s, req.name)
    ensures s.services == base.services
  {
    forall id | id in s.services ensures id in base.services {
      assert s.services[id].name != req.name;
    }
  }

  lemma ServiceConverges(base: State, s: State, req: Request, configIds: seq<Id>)
    requires Retrying(base, s, req) && Attachable(s, Wanted(req), configIds)
    requires !ServiceNameTaken(s, req.name)
    ensures
      var s' := WithService(s, ServiceOf(req, configIds));
      Retrying(base, s', req) && Converged(base, s', req, s.nextId) && Whole(base, s', req)
  {
    NoNewService(base, s, req);
    AttachableIsWanted(base, s, req, configIds);
    WithServiceWellFormed(s, ServiceOf(req, configIds));
    OneNewService(base, s, req, ServiceOf(req, configIds));
  }

  lemma OneNewService(base: State, s: State, req: Request, service: Service)
    requires WellFormed(base) && Partial(base, s, req) && s.services == base.services
    requires WellFormed(WithService(s, service)) && IsRequested(s.configs, service, req)
    ensures Converged(base, WithService(s, service), req, s.nextId) && Whole(base, WithService(s, service), req)
  {
    assert s.nextId !in base.services;
  }

  /** A create that succeeds had the name free, and adds the service and what it
      created of its configs. */
  ghost predicate Made(s0: State, s: State, req: Request, id: Id, log: seq<Event>, start: nat)
    requires start <= |log|
  {
    && !ServiceNameTaken(s0, req.name) && id !in s0.services && id in s.services
    && s.services == s0.services[id := ServiceOf(req, s.services[id].configs)]
    && s.configs.Keys == s0.configs.Keys + CreatedSince(log, start) && DeleteFailedSince(log, start) == {}
    && Preserved(s0, s, Wanted(req)) && Attachable(s, Wanted(req), s.services[id].configs)
    && AsAsked(s0.configs, s.configs, s.services[id], req)
  }

  /** The service is as the request describes it, and holds one config for each that
      the request gives, host first: ... */
  ghost predicate AsAsked(before: map<Id, Config>, after: map<Id, Config>, service: Service, req: Request) {
    var count := (if req.hostV1.Some? then 1 else 0) + (if req.interceptV1.Some? then 1 else 0);
    && service.name == req.name && service.roleAttributes == req.roleAttributes && service.tags == req.tags
    && |service.configs| == count
    && (req.hostV1.Some? ==>
          GivenAs(before, after, service.configs[0], req.name + "-host-v1", HOST_V1_TYPE, req.hostV1.value, req.tags))
    && (req.interceptV1.Some? ==>
          GivenAs(before, after, service.configs[count - 1], req.name + "-intercept-v1", INTERCEPT_V1_TYPE,
                  req.interceptV1.value, req.tags))
  }

  /** ... of that name, with that data, and, unless it was there before, of that type
      and with those tags. */
  ghost predicate GivenAs(before: map<Id, Config>, after: map<Id, Config>, id: Id, name: string, typeId: string,
                          data: Data, tags: Tags) {
    && id in after && after[id].name == name && after[id].data == data
    && after[id].typeId == (if id in before then before[id].typeId else typeId)
    && after[id].tags == (if id in before && |tags| == 0 then before[id].tags else tags)
  }

  lemma SentIsAsAsked(s0: State, s: State, req: Request, configIds: seq<Id>)
    requires Sent(s0, s, Wanted(req), configIds)
    ensures AsAsked(s0.configs, s.configs, ServiceOf(req, configIds), req)
  {
    assert forall k :: 0 <= k < |configIds| ==>
      s.configs[configIds[k]] == Resulting(s0.configs, configIds[k], Wanted(req)[k]);
  }

  /** Convergence means that the service and its configs are new and as the request
      describes them. */
  lemma ConvergedIsAsAsked(base: State, s: State, req: Request, id: Id)
    requires Converged(base, s, req, id)
    ensures AsAsked(map[], s.configs, s.services[id], req)
  {
    var configs := s.services[id].configs;
    assert forall k :: 0 <= k < |configs| ==> s.configs[configs[k]] == Wanted(req)[k];
  }

  lemma PlacedIsMade(s0: State, s: State, req: Request, configIds: seq<Id>, log: seq<Event>, start: nat,
                     created: seq<Id>, added: set<Id>, definite: bool)
    requires WellFormed(s0) && WellFormed(s) && !ServiceNameTaken(s, req.name)
    requires Standing(s0, s, Wanted(req), log, start, created, added, definite) && Sent(s0, s, Wanted(req), configIds)
    ensures Made(s0, WithService(s, ServiceOf(req, configIds)), req, s.nextId, log, start)
  {
    SentIsAttachable(s0, s, Wanted(req), configIds);
    SentIsAsAsked(s0, s, req, configIds);
  }

  lemma PlacedConverges(base: State, s: State, req: Request, configIds: seq<Id>)
    requires Attachable(s, Wanted(req), configIds) && !ServiceNameTaken(s, req.name)
    ensures Retrying(base, s, req) ==>
      var s' := WithService(s, ServiceOf(req, configIds));
      && Whole(base, s, req)
      && Retrying(base, s', req) && Converged(base, s', req, s.nextId) && Whole(base, s', req)
  {
    if Retrying(base, s, req) {
      NoNewService(base, s, req);
      ServiceConverges(base, s, req, configIds);
    }
  }

  lemma PlacedUndisturbed(s0: State, s: State, req: Request, configIds: seq<Id>)
    requires WellFormed(s0) && s.services == s0.services && s0.nextId <= s.nextId && Preserved(s0, s, Wanted(req))
    ensures Undisturbed(s0, s, req) && Undisturbed(s0, WithService(s, ServiceOf(req, configIds)), req)
  {
  }

  lemma HeldByNew(s: State, service: Service, ids: seq<Id>)
    requires Among(ids, service.configs)
    ensures AllReferenced(WithService(s, service), ids)
  {
    assert s.nextId in WithService(s, service).services;
  }

  /** How the create of the service itself, call `n`, takes `s` to `s'`. */
  ghost predicate ServiceCalled(fates: Fates, n: nat, base: State, s0: State, s: State, s': State, req: Request,
                                created: seq<Id>, log: seq<Event>, start: nat, r: Reply<Id>)
    requires start <= |log|
  {
    var free := !ServiceNameTaken(s0, req.name);
    && Undisturbed(s0, s', req) && s'.configs == s.configs
    && (r.Answered? <==> fates(n).Works? && free) && (r.Crashed? <==> Dies(fates(n)))
    && (r.Answered? ==> Made(s0, s', req, r.value, log, start))
    && (if fates(n).Lost? && free then AllReferenced(s', created) else r.Refused? ==> s' == s)
    && (ServiceNameTaken(s', req.name) <==> !free || Executes(fates(n)))
    && RetryKept(base, s, s', req, false)
    && (Retrying(base, s, req) && r.Answered? ==> Converged(base, s', req, r.value))
  }

  /** The call that creates the service, once its configs are in place. It may take
      effect without saying so, and the service then holds what was created for it. */
  method CallCreateService(c: Controller, req: Request, configIds: seq<Id>, created: seq<Id>,
                           ghost base: State, ghost s0: State, ghost start: nat, ghost added: set<Id>,
                           ghost definite: bool)
    returns (r: Reply<Id>)
    requires c.Valid() && WellFormed(s0) && Sent(s0, c.state, Wanted(req), configIds)
    requires Standing(s0, c.state, Wanted(req), c.log, start, created, added, definite) && Among(created, configIds)
    modifies c`calls, c`state
    ensures c.Valid() && c.calls == old(c.calls) + 1
    ensures ServiceCalled(c.fates, old(c.calls), base, s0, old(c.state), c.state, req, created, c.log, start, r)
  {
    ghost var s := c.state;
    PlacedUndisturbed(s0, s, req, configIds);
    SentIsAttachable(s0, s, Wanted(req), configIds);
    HeldByNew(s, ServiceOf(req, configIds), created);
    assert WithService(s, ServiceOf(req, configIds)).services[s.nextId].name == req.name;
    if !ServiceNameTaken(s, req.name) {
      PlacedIsMade(s0, s, req, configIds, c.log, start, created, added, definite);
      PlacedConverges(base, s, req, configIds);
    }
    r := c.CreateService(ServiceOf(req, configIds));
  }

  /** After a create of the service that took effect without saying so, or had none. */
  lemma RefusedToGiveBack(fates: Fates, n: nat, base: State, s0: State, s: State, s': State, req: Request,
                          created: seq<Id>, log: seq<Event>, start: nat, added: set<Id>, definite: bool)
    requires Standing(s0, s, Wanted(req), log, start, created, added, definite)
    requires ServiceCalled(fates, n, base, s0, s, s', req, created, log, start, Refused)
    requires definite ==> !fates(n).Lost?
    ensures CanGiveBack(s0, s', req, created, log, start, added, fates(n).Lost? && !ServiceNameTaken(s0, req.name),
                        definite)
  {
    CreatedAreNew(s0, s, Wanted(req), log, start, created, added, definite);
  }

  /** What a create comes to whose configs are in place, and which creates the service
      in call `n`. With a lost reply the service loses what was created for it. */
  ghost predicate PlacedOutcome(c: Controller, n: nat, base: State, s0: State, s: State, s': State, req: Request,
                                count: nat, log: seq<Event>, start: nat, definite: bool, r: Reply<Id>, calls: nat)
    requires start <= |log|
  {
    var free := !ServiceNameTaken(s0, req.name);
    && Undisturbed(s0, s', req) && SameFor(s0.configs.Keys, s.configs, s'.configs)
    && (r.Answered? <==> c.fates(n).Works? && free)
    && (!r.Crashed? ==> calls == n + 1 + if r.Answered? then 0 else count)
    && (r.Answered? ==> Made(s0, s', req, r.value, log, start))
    && (r.Refused? && definite ==> RolledBack(s0, s', req, log, start))
    && (r.Refused? ==> (ServiceNameTaken(s', req.name) <==> !free || c.fates(n).Lost?))
    && (r.Crashed? ==> !c.NoCrash(n))
    && (base.nextId <= s0.nextId ==>
          RetryKept(base, s, s', req, c.fates(n).Lost? && free && DeletesSome(c.fates, n + 1, count)))
    && (Retrying(base, s, req) && r.Answered? ==> Converged(base, s', req, r.value))
  }

  lemma NothingGivenBack(c: Controller, n: nat, base: State, s0: State, s: State, s': State, req: Request,
                         created: seq<Id>, log: seq<Event>, start: nat, definite: bool, r: Reply<Id>)
    requires start <= |log| && !r.Refused?
    requires ServiceCalled(c.fates, n, base, s0, s, s', req, created, log, start, r)
    ensures PlacedOutcome(c, n, base, s0, s, s', req, |created|, log, start, definite, r, n + 1)
  {
  }

  lemma AllGivenBack(c: Controller, n: nat, base: State, s0: State, s: State, s1: State, s': State, req: Request,
                     created: seq<Id>, log: seq<Event>, log': seq<Event>, start: nat, definite: bool, r: Reply<Id>,
                     calls: nat)
    requires start <= |log| && start <= |log'|
    requires ServiceCalled(c.fates, n, base, s0, s, s1, req, created, log, start, Refused)
    requires GivenBack(c, n + 1, base, s0, s1, s', req, created, log', start,
                       c.fates(n).Lost? && !ServiceNameTaken(s0, req.name), definite, r, calls)
    ensures PlacedOutcome(c, n, base, s0, s, s', req, |created|, log', start, definite, r, calls)
  {
  }

  /** The rollback of a create whose call `n`, for the service itself, was answered
      with an error. */
  method GiveBackCreated(c: Controller, req: Request, created: seq<Id>, ghost n: nat, ghost base: State,
                         ghost s0: State, ghost s: State, ghost start: nat, ghost added: set<Id>,
                         ghost definite: bool)
    returns (r: Reply<Id>)
    requires c.Valid() && WellFormed(s0) && c.calls == n + 1
    requires Standing(s0, s, Wanted(req), c.log, start, created, added, definite)
    requires ServiceCalled(c.fates, n, base, s0, s, c.state, req, created, c.log, start, Refused)
    requires definite ==> !c.fates(n).Lost?
    modifies c
    ensures c.Valid() && c.calls >= old(c.calls) && old(c.log) <= c.log
    ensures PlacedOutcome(c, n, base, s0, s, c.state, req, |created|, c.log, start, definite, r, c.calls)
  {
    ghost var s1, log := c.state, c.log;
    RefusedToGiveBack(c.fates, n, base, s0, s, s1, req, created, log, start, added, definite);
    r := RollBack(c, created, base, s0, req, start, added, c.fates(n).Lost? && !ServiceNameTaken(s0, req.name),
                  definite);
    AllGivenBack(c, n, base, s0, s, s1, c.state, req, created, log, c.log, start, definite, r, c.calls);
  }

  /** The end of a create: the service, and the rollback if that is refused. */
  method CreatePlaced(c: Controller, req: Request, configIds: seq<Id>, created: seq<Id>,
                      ghost base: State, ghost s0: State, ghost start: nat, ghost added: set<Id>, ghost definite: bool)
    returns (r: Reply<Id>)
    requires c.Valid() && WellFormed(s0) && Sent(s0, c.state, Wanted(req), configIds)
    requires Standing(s0, c.state, Wanted(req), c.log, start, created, added, definite) && Among(created, configIds)
    requires definite ==> c.Definite(c.calls)
    modifies c
    ensures c.Valid() && c.calls > old(c.calls) && old(c.log) <= c.log
    ensures PlacedOutcome(c, old(c.calls), base, s0, old(c.state), c.state, req, |created|, c.log, start, definite, r,
                          c.calls)
  {
    ghost var n, s := c.calls, c.state;
    r := CallCreateService(c, req, configIds, created, base, s0, start, added, definite);
    if !r.Refused? {
      NothingGivenBack(c, n, base, s0, s, c.state, req, created, c.log, start, definite, r);
      return;
    }
    r := GiveBackCreated(c, req, created, n, base, s0, s, start, added, definite);
  }

  /** What a create that starts at call `n` comes to. */
  ghost predicate CreateOutcome(c: Controller, n: nat, s0: State, s: State, log: seq<Event>, start: nat,
                                calls: nat, req: Request, base: State, r: Reply<Id>)
    requires start <= |log|
  {
    var taken := TakenNames(s0, req);
    && Undisturbed(s0, s, req)
    && (r.Answered? <==> MakesService(c.fates, req, taken, n))
    && (r.Answered? ==> Made(s0, s, req, r.value, log, start))
    && (r.Refused? && c.Definite(n) ==> RolledBack(s0, s, req, log, start))
    && (r.Refused? ==> (ServiceNameTaken(s, req.name) <==> taken.service || LosesReply(c.fates, req, taken, n)))
    && (r.Crashed? ==> !c.NoCrash(n))
    && (!r.Crashed? ==> calls == AfterCreate(c.fates, req, taken, n) && DataRewritten(c.fates, s0, s, req, n))
    && RetryKept(base, s0, s, req, Strips(c.fates, req, taken, n))
    && (Retrying(base, s0, req) && r.Answered? ==> Converged(base, s, req, r.value))
  }

  lemma DataStays(fates: Fates, s0: State, s: State, s': State, req: Request, n: nat)
    requires DataRewritten(fates, s0, s, req, n) && SameFor(s0.configs.Keys, s.configs, s'.configs)
    ensures DataRewritten(fates, s0, s', req, n)
  {
  }

  /** A create whose configs did not get placed. */
  lemma UnplacedOutcome(c: Controller, n: nat, s0: State, s: State, log: seq<Event>, start: nat, calls: nat,
                        req: Request, base: State, added: set<Id>, r: Reply<Id>)
    requires start <= |log| && WellFormed(s0) && !r.Answered?
    requires PlacingOutcome(c, n, base, s0, s, req, log, start, added, c.Definite(n),
                            if r.Refused? then Refused else Crashed, calls)
    ensures CreateOutcome(c, n, s0, s, log, start, calls, req, base, r)
  {
  }

  /** A create whose configs did, up to `s`. */
  lemma PlacedIsOutcome(c: Controller, n: nat, s0: State, s: State, s': State, log: seq<Event>, start: nat, calls: nat,
                        req: Request, base: State, r: Reply<Id>)
    requires start <= |log| && AllPlaced(c.fates, req, TakenNames(s0, req), n) && s0.nextId <= s.nextId
    requires RetryKept(base, s0, s, req, false) && DataRewritten(c.fates, s0, s, req, n)
    requires PlacedOutcome(c, ServiceCall(c.fates, req, TakenNames(s0, req), n), base, s0, s, s', req,
                           CreatedCount(c.fates, req, TakenNames(s0, req), n), log, start, c.Definite(n), r, calls)
    ensures CreateOutcome(c, n, s0, s', log, start, calls, req, base, r)
  {
    DataStays(c.fates, s0, s, s', req, n);
  }

  /** A service with no configs: the service is all there is to create. */
  method CreateServiceWithoutConfigs(c: Controller, req: Request, ghost base: State) returns (r: Reply<Id>)
    requires c.Valid() && req.hostV1.None? && req.interceptV1.None?
    modifies c
    ensures c.Valid() && c.calls >= old(c.calls) && old(c.log) <= c.log
    ensures CreateOutcome(c, old(c.calls), old(c.state), c.state, c.log, |old(c.log)|, c.calls, req, base, r)
  {
    ghost var s0, n, definite := c.state, c.calls, c.Definite(c.calls);
    StartStanding(s0, req, c.log, definite);
    assert Wanted(req) == [];
    r := CreatePlaced(c, req, [], [], base, s0, |old(c.log)|, {}, definite);
    PlacedIsOutcome(c, n, s0, s0, c.state, c.log, |old(c.log)|, c.calls, req, base, r);
  }

  /** `CreateServiceWithConfigsAndTags`. */
  method CreateServiceWithConfigsAndTags(c: Controller, req: Request, ghost base: State) returns (r: Reply<Id>)
    requires c.Valid()
    modifies c
    ensures c.Valid() && c.calls >= old(c.calls) && old(c.log) <= c.log
    ensures CreateOutcome(c, old(c.calls), old(c.state), c.state, c.log, |old(c.log)|, c.calls, req, base, r)
  {
    if req.hostV1.None? && req.interceptV1.None? {
      r := CreateServiceWithoutConfigs(c, req, base);
      return;
    }
    ghost var s0, start, n, definite := c.state, |c.log|, c.calls, c.Definite(c.calls);
    var placed, added := PlaceConfigs(c, req, base, definite);
    if !placed.Answered? {
      r := if placed.Crashed? then Crashed else Refused;
      UnplacedOutcome(c, n, s0, c.state, c.log, start, c.calls, req, base, added, r);
      return;
    }
    ghost var s := c.state;
    r := CreatePlaced(c, req, placed.value.0, placed.value.1, base, s0, start, added, definite);
    PlacedIsOutcome(c, n, s0, s, c.state, c.log, start, c.calls, req, base, r);
  }
}
