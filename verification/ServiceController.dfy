/**
 The part of the OpenZiti controller that services and configs live in: unique
 config names, unique service names, services that refer to configs.
 */
module ServiceController {
  import opened Wrappers

  type Id = nat          // opaque; the controller numbers what it creates
  type Data = string     // the data of a config, serialised
  type Tags = map<string, string>

  datatype Config = Config(name: string, typeId: string, data: Data, tags: Tags)

  datatype Service = Service(name: string, roleAttributes: seq<string>, configs: seq<Id>, tags: Tags)

  datatype State = State(configs: map<Id, Config>, services: map<Id, Service>, nextId: Id)

  /** What happens to one call: it works; it fails without effect; it is executed,
      but answered with an error; or the calling process dies just before or just
      after it is executed. */
  datatype Fate = Works | Fails | Lost | CrashBefore | CrashAfter

  predicate Executes(fate: Fate) {
    fate.Works? || fate.Lost? || fate.CrashAfter?
  }

  predicate Dies(fate: Fate) {
    fate.CrashBefore? || fate.CrashAfter?
  }

  /** By call number. */
  type Fates = nat -> Fate

  datatype Reply<+T> = Answered(value: T) | Refused | Crashed

  /** The reply to a call that the controller can or cannot carry out. */
  function ReplyTo<T>(fate: Fate, possible: bool, value: T): Reply<T> {
    if Dies(fate) then Crashed
    else if fate.Works? && possible then Answered(value)
    else Refused
  }

  predicate ConfigNameTaken(s: State, name: string) {
    exists id :: id in s.configs && s.configs[id].name == name
  }

  predicate ServiceNameTaken(s: State, name: string) {
    exists id :: id in s.services && s.services[id].name == name
  }

  predicate ConfigNamesakes(s: State, a: Id, b: Id) {
    a in s.configs && b in s.configs && s.configs[a].name == s.configs[b].name
  }

  predicate ServiceNamesakes(s: State, a: Id, b: Id) {
    a in s.services && b in s.services && s.services[a].name == s.services[b].name
  }

  /** Names are unique, and services refer to configs that are there. */
  ghost predicate WellFormed(s: State) {
    && (forall id :: id in s.configs ==> id < s.nextId)
    && (forall id :: id in s.services ==> id < s.nextId)
    && (forall a, b :: ConfigNamesakes(s, a, b) ==> a == b)
    && (forall a, b :: ServiceNamesakes(s, a, b) ==> a == b)
    && (forall id, k :: id in s.services && 0 <= k < |s.services[id].configs| ==>
          s.services[id].configs[k] in s.configs)
  }

  predicate Referenced(s: State, id: Id) {
    exists service :: service in s.services && id in s.services[service].configs
  }

  function WithConfig(s: State, config: Config): State {
    s.(configs := s.configs[s.nextId := config], nextId := s.nextId + 1)
  }

  function WithService(s: State, service: Service): State {
    s.(services := s.services[s.nextId := service], nextId := s.nextId + 1)
  }

  function Remaining(ids: seq<Id>, gone: set<Id>): seq<Id> {
    if ids == [] then []
    else if ids[0] in gone then Remaining(ids[1..], gone)
    else [ids[0]] + Remaining(ids[1..], gone)
  }

  /** Deleting configs strips them from the services that hold them. */
  function WithoutConfigs(s: State, gone: set<Id>): State {
    s.(configs := s.configs - gone,
       services := map id | id in s.services :: s.services[id].(configs := Remaining(s.services[id].configs, gone)))
  }

  lemma {:induction false} RemainingMeaning(ids: seq<Id>, gone: set<Id>)
    ensures forall id :: id in Remaining(ids, gone) <==> id in ids && id !in gone
    ensures |Remaining(ids, gone)| <= |ids|
    ensures (forall k :: 0 <= k < |ids| ==> ids[k] !in gone) <==> Remaining(ids, gone) == ids
    ensures |Remaining(ids, gone)| == |ids| ==> Remaining(ids, gone) == ids
  {
    if ids != [] {
      RemainingMeaning(ids[1..], gone);
      assert ids == [ids[0]] + ids[1..];
      if Remaining(ids, gone) == ids {
        assert ids[0] in Remaining(ids, gone);
        assert Remaining(ids, gone)[1..] == ids[1..];
      }
    }
  }

  lemma {:induction false} RemainingTwice(ids: seq<Id>, a: set<Id>, b: set<Id>)
    ensures Remaining(Remaining(ids, a), b) == Remaining(ids, a + b)
  {
    if ids != [] {
      RemainingTwice(ids[1..], a, b);
    }
  }

  lemma WithoutTwice(s: State, a: set<Id>, b: set<Id>)
    ensures WithoutConfigs(WithoutConfigs(s, a), b) == WithoutConfigs(s, a + b)
  {
    forall id | id in s.services
      ensures Remaining(Remaining(s.services[id].configs, a), b) == Remaining(s.services[id].configs, a + b)
    {
      RemainingTwice(s.services[id].configs, a, b);
    }
    assert s.configs - a - b == s.configs - (a + b);
  }

  /** Deleting what no service holds leaves the services as they are. */
  lemma WithoutUnreferenced(s: State, gone: set<Id>)
    requires forall id :: id in gone ==> !Referenced(s, id)
    ensures WithoutConfigs(s, gone).services == s.services
  {
    forall id | id in s.services ensures Remaining(s.services[id].configs, gone) == s.services[id].configs {
      RemainingMeaning(s.services[id].configs, gone);
    }
  }

  /** What has a name in `s'` has it in `s`. */
  lemma NamesStayUnique(s: State, s': State)
    requires WellFormed(s)
    requires forall id :: id in s'.configs ==> id in s.configs && s'.configs[id].name == s.configs[id].name
    requires forall id :: id in s'.services ==> id in s.services && s'.services[id].name == s.services[id].name
    ensures forall a, b :: ConfigNamesakes(s', a, b) ==> a == b
    ensures forall a, b :: ServiceNamesakes(s', a, b) ==> a == b
  {
    forall a, b | ConfigNamesakes(s', a, b) ensures a == b {
      assert ConfigNamesakes(s, a, b);
    }
    forall a, b | ServiceNamesakes(s', a, b) ensures a == b {
      assert ServiceNamesakes(s, a, b);
    }
  }

  lemma WithConfigWellFormed(s: State, config: Config)
    requires WellFormed(s) && !ConfigNameTaken(s, config.name)
    ensures WellFormed(WithConfig(s, config))
  {
    var s' := WithConfig(s, config);
    forall a, b | ConfigNamesakes(s', a, b) ensures a == b {
      assert a in s.configs && b in s.configs ==> ConfigNamesakes(s, a, b);
    }
    forall a, b | ServiceNamesakes(s', a, b) ensures a == b {
      assert ServiceNamesakes(s, a, b);
    }
  }

  lemma WithServiceWellFormed(s: State, service: Service)
    requires WellFormed(s) && !ServiceNameTaken(s, service.name) && Exist(s, service.configs)
    ensures WellFormed(WithService(s, service))
  {
    var s' := WithService(s, service);
    forall a, b | ConfigNamesakes(s', a, b) ensures a == b {
      assert ConfigNamesakes(s, a, b);
    }
    forall a, b | ServiceNamesakes(s', a, b) ensures a == b {
      assert a in s.services && b in s.services ==> ServiceNamesakes(s, a, b);
    }
  }

  lemma WithoutWellFormed(s: State, gone: set<Id>)
    requires WellFormed(s)
    ensures WellFormed(WithoutConfigs(s, gone))
  {
    var s' := WithoutConfigs(s, gone);
    NamesStayUnique(s, s');
    forall id, k | id in s'.services && 0 <= k < |s'.services[id].configs|
      ensures s'.services[id].configs[k] in s'.configs
    {
      RemainingMeaning(s.services[id].configs, gone);
      assert s'.services[id].configs[k] in s'.services[id].configs;
    }
  }

  /** A patch of a config: data and name always, tags if given, its type never. */
  function Patched(config: Config, name: string, data: Data, tags: Option<Tags>): Config {
    Config(name, config.typeId, data, tags.GetOr(config.tags))
  }

  predicate CanPatch(s: State, id: Id, name: string) {
    id in s.configs && (s.configs[id].name == name || !ConfigNameTaken(s, name))
  }

  function PatchedConfig(s: State, id: Id, name: string, data: Data, tags: Option<Tags>): State
    requires id in s.configs
  {
    s.(configs := s.configs[id := Patched(s.configs[id], name, data, tags)])
  }

  lemma PatchedConfigWellFormed(s: State, id: Id, name: string, data: Data, tags: Option<Tags>)
    requires WellFormed(s) && CanPatch(s, id, name)
    ensures WellFormed(PatchedConfig(s, id, name, data, tags))
  {
    var s' := PatchedConfig(s, id, name, data, tags);
    forall a, b | ConfigNamesakes(s', a, b) ensures a == b {
      assert ConfigNamesakes(s, a, b) || a == id || b == id;
      assert s.configs[id].name == name ==> ConfigNamesakes(s, a, b);
    }
    forall a, b | ServiceNamesakes(s', a, b) ensures a == b {
      assert ServiceNamesakes(s, a, b);
    }
  }

  datatype ServicePatch = ServicePatch(
    configs: Option<seq<Id>>, roleAttributes: Option<seq<string>>, tags: Option<Tags>)

  predicate Exist(s: State, configs: seq<Id>) {
    forall k :: 0 <= k < |configs| ==> configs[k] in s.configs
  }

  function PatchedService(s: State, id: Id, patch: ServicePatch): State
    requires id in s.services
  {
    var service := s.services[id];
    s.(services := s.services[id := Service(service.name, patch.roleAttributes.GetOr(service.roleAttributes),
                                            patch.configs.GetOr(service.configs), patch.tags.GetOr(service.tags))])
  }

  lemma PatchedServiceWellFormed(s: State, id: Id, patch: ServicePatch)
    requires WellFormed(s) && id in s.services && Exist(s, patch.configs.GetOr([]))
    ensures WellFormed(PatchedService(s, id, patch))
  {
    NamesStayUnique(s, PatchedService(s, id, patch));
  }

  /** `tagsFromMap`: no tags at all are not sent. */
  function SentTags(tags: Tags): Option<Tags> {
    if |tags| == 0 then None else Some(tags)
  }

  /** What a listing says of a config. */
  datatype ConfigDetail = ConfigDetail(id: Id, typeId: string)

  /** One page of the configs of a service; the total number may be missing. */
  datatype ConfigPage = ConfigPage(details: seq<ConfigDetail>, totalCount: Option<nat>)

  function Details(configs: map<Id, Config>, ids: seq<Id>): seq<ConfigDetail>
    requires forall k :: 0 <= k < |ids| ==> ids[k] in configs
  {
    seq(|ids|, k requires 0 <= k < |ids| => ConfigDetail(ids[k], configs[ids[k]].typeId))
  }

  function FirstOf(details: seq<ConfigDetail>, size: nat): seq<ConfigDetail> {
    if size < |details| then details[..size] else details
  }

  /** What became of configs, whatever the controller answered: one was created, or
      one was to be deleted and is still there. */
  datatype Event = ConfigCreated(id: Id) | DeleteFailed(id: Id)

  class Controller {
    const fates: Fates
    const pageSizes: nat -> nat      // by call number; one more entry than this in a page of a listing
    const totals: nat -> bool        // by call number; whether a listing says how many entries there are
    var calls: nat
    var state: State
    ghost var log: seq<Event>

    ghost predicate Valid()
      reads this
    {
      WellFormed(state)
    }

    ghost predicate AllWork(from: nat) {
      forall n :: from <= n ==> fates(n).Works?
    }

    /** An error means that the call had no effect. */
    ghost predicate Definite(from: nat) {
      forall n :: from <= n ==> !fates(n).Lost?
    }

    ghost predicate TotalsGiven() {
      forall n :: totals(n)
    }

    ghost predicate NoCrash(from: nat) {
      forall n :: from <= n ==> !Dies(fates(n))
    }

    constructor (fates: Fates, pageSizes: nat -> nat, totals: nat -> bool)
      ensures Valid() && this.fates == fates && this.pageSizes == pageSizes && this.totals == totals
      ensures log == [] && calls == 0
      ensures state == State(map[], map[], 0)
    {
      this.fates := fates;
      this.pageSizes := pageSizes;
      this.totals := totals;
      calls := 0;
      state := State(map[], map[], 0);
      log := [];
    }

    method NextFate() returns (fate: Fate)
      modifies this`calls
      ensures fate == fates(old(calls)) && calls == old(calls) + 1
    {
      fate := fates(calls);
      calls := calls + 1;
    }

    method CreateConfig(config: Config) returns (r: Reply<Id>)
      requires Valid()
      modifies this
      ensures Valid() && calls == old(calls) + 1
      ensures r == ReplyTo(fates(old(calls)), !ConfigNameTaken(old(state), config.name), old(state.nextId))
      ensures Executes(fates(old(calls))) && !ConfigNameTaken(old(state), config.name) ==>
        state == WithConfig(old(state), config) && log == old(log) + [ConfigCreated(old(state.nextId))]
      ensures !Executes(fates(old(calls))) || ConfigNameTaken(old(state), config.name) ==>
        state == old(state) && log == old(log)
    {
      var fate := NextFate();
      var free := !ConfigNameTaken(state, config.name);
      r := ReplyTo(fate, free, state.nextId);
      if Executes(fate) && free {
        WithConfigWellFormed(state, config);
        log := log + [ConfigCreated(state.nextId)];
        state := WithConfig(state, config);
      }
    }

    method FindConfigIdByName(name: string) returns (r: Reply<Option<Id>>)
      requires Valid()
      modifies this`calls
      ensures calls == old(calls) + 1
      ensures r.Answered? && r.value.Some? ==>
        r.value.value in state.configs && state.configs[r.value.value].name == name
      ensures r.Answered? && r.value.None? ==> !ConfigNameTaken(state, name)
      ensures fates(old(calls)).Works? <==> r.Answered?
      ensures r.Crashed? <==> Dies(fates(old(calls)))
    {
      var fate := NextFate();
      if id :| id in state.configs && state.configs[id].name == name {
        return ReplyTo(fate, true, Some(id));
      }
      return ReplyTo(fate, true, None);
    }

    method PatchConfig(id: Id, name: string, data: Data, tags: Option<Tags>) returns (r: Reply<()>)
      requires Valid()
      modifies this`calls, this`state
      ensures Valid() && calls == old(calls) + 1
      ensures r == ReplyTo(fates(old(calls)), CanPatch(old(state), id, name), ())
      ensures state ==
        if Executes(fates(old(calls))) && CanPatch(old(state), id, name)
        then PatchedConfig(old(state), id, name, data, tags) else old(state)
    {
      var fate := NextFate();
      var possible := CanPatch(state, id, name);
      if Executes(fate) && possible {
        PatchedConfigWellFormed(state, id, name, data, tags);
        state := PatchedConfig(state, id, name, data, tags);
      }
      r := ReplyTo(fate, possible, ());
    }

    /** Deleting what is not there is no error. */
    method DeleteConfig(id: Id) returns (r: Reply<()>)
      requires Valid()
      modifies this
      ensures Valid() && calls == old(calls) + 1
      ensures r == ReplyTo(fates(old(calls)), true, ())
      ensures state == if Executes(fates(old(calls))) then WithoutConfigs(old(state), {id}) else old(state)
      ensures log == old(log) + if fates(old(calls)).Fails? then [DeleteFailed(id)] else []
    {
      var fate := NextFate();
      ghost var more: seq<Event> := if fate.Fails? then [DeleteFailed(id)] else [];
      log := log + more;
      if Executes(fate) {
        WithoutWellFormed(state, {id});
        state := WithoutConfigs(state, {id});
      }
      r := ReplyTo(fate, true, ());
    }

    method CreateService(service: Service) returns (r: Reply<Id>)
      requires Valid()
      modifies this`calls, this`state
      ensures Valid() && calls == old(calls) + 1
      ensures
        var possible := !ServiceNameTaken(old(state), service.name) && Exist(old(state), service.configs);
        && r == ReplyTo(fates(old(calls)), possible, old(state.nextId))
        && state == if Executes(fates(old(calls))) && possible then WithService(old(state), service) else old(state)
    {
      var fate := NextFate();
      var possible := !ServiceNameTaken(state, service.name) && Exist(state, service.configs);
      r := ReplyTo(fate, possible, state.nextId);
      if Executes(fate) && possible {
        WithServiceWellFormed(state, service);
        state := WithService(state, service);
      }
    }

    /** `getServiceByName`: the service of that name, if there is one. */
    method FindServiceByName(name: string) returns (r: Reply<Option<Id>>)
      requires Valid()
      modifies this`calls
      ensures calls == old(calls) + 1
      ensures r.Answered? && r.value.Some? ==>
        r.value.value in state.services && state.services[r.value.value].name == name
      ensures r.Answered? && r.value.None? ==> !ServiceNameTaken(state, name)
      ensures fates(old(calls)).Works? <==> r.Answered?
      ensures r.Crashed? <==> Dies(fates(old(calls)))
    {
      var fate := NextFate();
      if id :| id in state.services && state.services[id].name == name {
        return ReplyTo(fate, true, Some(id));
      }
      return ReplyTo(fate, true, None);
    }

    method PatchService(id: Id, patch: ServicePatch) returns (r: Reply<()>)
      requires Valid()
      modifies this`calls, this`state
      ensures Valid() && calls == old(calls) + 1
      ensures
        var possible := id in old(state.services) && Exist(old(state), patch.configs.GetOr([]));
        && r == ReplyTo(fates(old(calls)), possible, ())
        && state ==
             if Executes(fates(old(calls))) && possible then PatchedService(old(state), id, patch) else old(state)
    {
      var fate := NextFate();
      var possible := id in state.services && Exist(state, patch.configs.GetOr([]));
      if Executes(fate) && possible {
        PatchedServiceWellFormed(state, id, patch);
        state := PatchedService(state, id, patch);
      }
      r := ReplyTo(fate, possible, ());
    }

    method DetailService(id: Id) returns (r: Reply<Service>)
      requires Valid()
      modifies this`calls
      ensures calls == old(calls) + 1
      ensures r.Answered? ==> id in state.services && r.value == state.services[id]
      ensures fates(old(calls)).Works? && id in state.services ==> r.Answered?
      ensures r.Crashed? <==> Dies(fates(old(calls)))
    {
      var fate := NextFate();
      if id !in state.services {
        return if Dies(fate) then Crashed else Refused;
      }
      return ReplyTo(fate, true, state.services[id]);
    }

    /** A page of a service's configs from `offset` on, never empty before the end. */
    method ListServiceConfigs(id: Id, offset: nat) returns (r: Reply<ConfigPage>)
      requires Valid()
      modifies this`calls
      ensures calls == old(calls) + 1
      ensures r.Answered? ==>
        && id in state.services
        && var details := Details(state.configs, state.services[id].configs);
        && (r.value.totalCount == if totals(old(calls)) then Some(|details|) else None)
        && (offset < |details| ==> r.value.details == FirstOf(details[offset..], pageSizes(old(calls)) + 1))
        && (offset >= |details| ==> r.value.details == [])
      ensures fates(old(calls)).Works? && id in state.services ==> r.Answered?
      ensures r.Crashed? <==> Dies(fates(old(calls)))
    {
      var size := pageSizes(calls) + 1;
      var total := totals(calls);
      var fate := NextFate();
      if id !in state.services {
        return if Dies(fate) then Crashed else Refused;
      }
      var details := Details(state.configs, state.services[id].configs);
      var rest := if offset < |details| then details[offset..] else [];
      return ReplyTo(fate, true, ConfigPage(FirstOf(rest, size), if total then Some(|details|) else None));
    }
  }
}
