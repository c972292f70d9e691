/**
 Updating a service: its config of each type asked for is rewritten, or created
 and attached if it has none of that type.
 */
module ServiceUpdate {
  import opened Wrappers
  import opened ServiceController
  import opened ServiceCreation

  datatype Update = Update(
    hostV1: Option<Data>, interceptV1: Option<Data>, tags: Tags, updateTags: bool,
    roleAttributes: seq<string>, updateRoleAttributes: bool)

  /** An update of the service `name` asks for the configs a create of it would. */
  function AsCreate(update: Update, name: string): Request {
    Request(name, update.roleAttributes, update.hostV1, update.interceptV1, update.tags, false)
  }

  /** The configs an update asks for. */
  function Asked(update: Update, name: string): seq<Config> {
    Wanted(AsCreate(update, name))
  }

  // ---------------------------------------------------------------- the config of a type

  /** The first entry of a type. */
  function FirstOfType(details: seq<ConfigDetail>, typeId: string): (first: Option<Id>)
    ensures first.None? <==> forall k :: 0 <= k < |details| ==> details[k].typeId != typeId
    ensures first.Some? ==> ConfigDetail(first.value, typeId) in details
  {
    if details == [] then None
    else if details[0].typeId == typeId then Some(details[0].id)
    else FirstOfType(details[1..], typeId)
  }

  lemma {:induction false} FirstOfTypeConcat(a: seq<ConfigDetail>, b: seq<ConfigDetail>, typeId: string)
    ensures FirstOfType(a + b, typeId) ==
      if FirstOfType(a, typeId).Some? then FirstOfType(a, typeId) else FirstOfType(b, typeId)
  {
    if a == [] {
      assert a + b == b;
    } else {
      FirstOfTypeConcat(a[1..], b, typeId);
      assert (a + b)[1..] == a[1..] + b;
    }
  }

  predicate NoneBefore(details: seq<ConfigDetail>, end: nat, typeId: string) {
    end <= |details| && forall k :: 0 <= k < end ==> details[k].typeId != typeId
  }

  /** A page that continues a fruitless scan settles it, or leaves it fruitless. */
  lemma PageScanned(details: seq<ConfigDetail>, offset: nat, page: seq<ConfigDetail>, typeId: string)
    requires NoneBefore(details, offset, typeId) && page <= details[offset..]
    ensures FirstOfType(page, typeId).Some? ==> FirstOfType(details, typeId) == FirstOfType(page, typeId)
    ensures FirstOfType(page, typeId).None? ==> NoneBefore(details, offset + |page|, typeId)
  {
    var rest := details[offset + |page|..];
    assert details == details[..offset] + (page + rest);
    FirstOfTypeConcat(details[..offset], page + rest, typeId);
    FirstOfTypeConcat(page, rest, typeId);
    NoneInPage(details, offset, page, typeId);
  }

  lemma NoneInPage(details: seq<ConfigDetail>, offset: nat, page: seq<ConfigDetail>, typeId: string)
    requires NoneBefore(details, offset, typeId) && page <= details[offset..]
    ensures FirstOfType(page, typeId).None? ==> NoneBefore(details, offset + |page|, typeId)
  {
    assert forall k :: offset <= k < offset + |page| ==> details[k] == page[k - offset];
  }

  method FirstInPage(page: seq<ConfigDetail>, typeId: string) returns (first: Option<Id>)
    ensures first == FirstOfType(page, typeId)
  {
    for i := 0 to |page|
      invariant FirstOfType(page, typeId) == FirstOfType(page[i..], typeId)
    {
      if page[i].typeId == typeId {
        return Some(page[i].id);
      }
    }
    first := None;
  }

  /** The listings show the first config of the type, if there is one: they say how many
      entries there are, or it is on the first page, whatever its size. */
  ghost predicate Findable(c: Controller, details: seq<ConfigDetail>, typeId: string) {
    c.TotalsGiven() ||
    forall n :: FirstOfType(FirstPage(c, details, n), typeId) == FirstOfType(details, typeId)
  }

  /** The first page of a listing made by call `n`. */
  ghost function FirstPage(c: Controller, details: seq<ConfigDetail>, n: nat): seq<ConfigDetail> {
    FirstOf(details, c.pageSizes(n) + 1)
  }

  /** What a scan that starts with call `n` finds: the first config of the type if that
      can be found, and without a total what the first page shows. */
  ghost predicate Found(c: Controller, details: seq<ConfigDetail>, n: nat, typeId: string, first: Option<Id>) {
    && (Findable(c, details, typeId) || first.Some? ==> first == FirstOfType(details, typeId))
    && (!c.totals(n) ==> first == FirstOfType(FirstPage(c, details, n), typeId))
  }

  /** The scan that started with call `n` has come to `offset` without finding any. */
  ghost predicate Fruitless(c: Controller, details: seq<ConfigDetail>, n: nat, m: nat, offset: nat, typeId: string) {
    && NoneBefore(details, offset, typeId) && (offset == 0 || offset < |details|)
    && if offset == 0 then m == n else c.totals(n) && FirstOfType(FirstPage(c, details, n), typeId).None?
  }

  /** Where the scan may stop: with a match, without a total, or at the end. */
  lemma ScanStops(c: Controller, details: seq<ConfigDetail>, n: nat, m: nat, offset: nat, typeId: string,
                  page: seq<ConfigDetail>)
    requires Fruitless(c, details, n, m, offset, typeId)
    requires page == if offset < |details| then FirstPage(c, details[offset..], m) else []
    ensures FirstOfType(page, typeId).Some? || !c.totals(m) || page == [] || offset + |page| >= |details| ==>
      Found(c, details, n, typeId, FirstOfType(page, typeId))
    ensures FirstOfType(page, typeId).None? && c.totals(m) && offset + |page| < |details| && page != [] ==>
      Fruitless(c, details, n, m + 1, offset + |page|, typeId)
  {
    PageScanned(details, offset, page, typeId);
    if offset == 0 {
      assert details[0..] == details;
      assert page == FirstPage(c, details, n);
    }
    if Findable(c, details, typeId) && !c.totals(m) {
      assert FirstOfType(FirstPage(c, details, n), typeId) == FirstOfType(details, typeId);
    }
  }

  /** `findServiceConfigByType`: reads on by the number of entries it was given. */
  method FindServiceConfigByType(c: Controller, id: Id, typeId: string) returns (r: Reply<Option<Id>>)
    requires c.Valid()
    modifies c`calls
    ensures c.Valid() && c.calls > old(c.calls)
    ensures r.Answered? ==> id in c.state.services
    ensures r.Answered? ==>
      Found(c, Details(c.state.configs, c.state.services[id].configs), old(c.calls), typeId, r.value)
    ensures r.Refused? && c.AllWork(old(c.calls)) ==> id !in c.state.services
    ensures r.Crashed? ==> !c.NoCrash(old(c.calls)) && !c.AllWork(old(c.calls))
  {
    ghost var details, n :=
      if id in c.state.services then Details(c.state.configs, c.state.services[id].configs) else [], c.calls;
    var offset := 0;
    while true
      invariant c.Valid() && c.calls >= n
      invariant Fruitless(c, details, n, c.calls, offset, typeId)
      decreases |details| - offset
    {
      var listed := c.ListServiceConfigs(id, offset);
      if !listed.Answered? {
        return if listed.Crashed? then Crashed else Refused;
      }
      var page := listed.value.details;
      ScanStops(c, details, n, c.calls - 1, offset, typeId, page);
      var first := FirstInPage(page, typeId);
      if first.Some? {
        return Answered(first);
      }
      if listed.value.totalCount.None? {
        return Answered(None);
      }
      if |page| == 0 || offset + |page| >= listed.value.totalCount.value {
        return Answered(None);
      }
      offset := offset + |page|;
    }
  }

  // ---------------------------------------------------------------- what an update may do to the configs

  predicate Present(configs: map<Id, Config>, ids: seq<Id>) {
    forall k :: 0 <= k < |ids| ==> ids[k] in configs
  }

  function FirstAttached(configs: map<Id, Config>, ids: seq<Id>, typeId: string): (first: Option<Id>)
    requires Present(configs, ids)
    ensures first.Some? ==> first.value in ids && configs[first.value].typeId == typeId
    ensures first.None? <==> forall k :: 0 <= k < |ids| ==> configs[ids[k]].typeId != typeId
  {
    var details := Details(configs, ids);
    assert forall k :: 0 <= k < |ids| ==> details[k] == ConfigDetail(ids[k], configs[ids[k]].typeId);
    FirstOfType(details, typeId)
  }

  function SentIf(updateTags: bool, tags: Tags): Option<Tags> {
    if updateTags then SentTags(tags) else None
  }

  /** `asked` is in force: the attached config of its type has been patched to it,
      or it is attached anew because there was none. */
  ghost predicate InForce(before: map<Id, Config>, attached: seq<Id>, after: map<Id, Config>, ids: seq<Id>,
                          asked: Config, updateTags: bool)
    requires Present(before, attached) && Present(after, ids)
  {
    match FirstAttached(before, attached, asked.typeId)
    case Some(id) =>
      id in after && after[id] == Config(asked.name, before[id].typeId, asked.data,
                                         if updateTags && |asked.tags| > 0 then asked.tags else before[id].tags)
    case None =>
      exists k :: |attached| <= k < |ids| && after[ids[k]] == asked
  }

  /** No config asked for is of the type of `id`, or `id` is not the attached config of its type. */
  ghost predicate Bystander(before: map<Id, Config>, attached: seq<Id>, id: Id, asked: seq<Config>)
    requires Present(before, attached)
  {
    forall config :: config in asked ==> FirstAttached(before, attached, config.typeId) != Some(id)
  }

  /** What was there is there, with its type, and only attached configs of the
      types asked for are touched. */
  ghost predicate Kept(before: map<Id, Config>, attached: seq<Id>, after: map<Id, Config>, asked: seq<Config>)
    requires Present(before, attached)
  {
    && before.Keys <= after.Keys
    && (forall id :: id in before ==> after[id].typeId == before[id].typeId)
    && (forall id :: id in before && Bystander(before, attached, id, asked) ==> after[id] == before[id])
  }

  /** What was attached stays attached, in its place; what is attached besides is
      new, is asked for, and of a type of which nothing was attached. */
  ghost predicate Extended(before: map<Id, Config>, attached: seq<Id>, after: map<Id, Config>, ids: seq<Id>,
                           asked: seq<Config>)
    requires Present(before, attached)
  {
    && Present(after, ids) && attached <= ids
    && after.Keys == before.Keys + Elements(ids[|attached|..])
    && (forall k :: |attached| <= k < |ids| ==> ids[k] !in before)
    && (forall k :: |attached| <= k < |ids| ==>
          after[ids[k]] in asked && FirstAttached(before, attached, after[ids[k]].typeId) == None)
    && (forall k, l :: |attached| <= k < l < |ids| ==> after[ids[k]].typeId != after[ids[l]].typeId)
  }

  /** The configs after an update that asks for `asked`. */
  ghost predicate ConfigsUpdated(before: map<Id, Config>, attached: seq<Id>, after: map<Id, Config>, ids: seq<Id>,
                                 asked: seq<Config>, updateTags: bool)
    requires Present(before, attached)
  {
    && Kept(before, attached, after, asked)
    && Extended(before, attached, after, ids, asked)
    && forall config :: config in asked ==> InForce(before, attached, after, ids, config, updateTags)
  }

  // ---------------------------------------------------------------- one config

  /** What an upsert does that finds `found`: it patches that, or creates a config. */
  ghost predicate Puts(s: State, s': State, found: Option<Id>, config: Config, updateTags: bool, id: Id) {
    match found
    case Some(there) =>
      && id == there && id in s.configs
      && s' == PatchedConfig(s, id, config.name, config.data, SentIf(updateTags, config.tags))
    case None =>
      id == s.nextId && s' == WithConfig(s, config)
  }

  /** What it should do: patch the attached config of the type, or create one. */
  ghost predicate Upserted(s: State, s': State, attached: seq<Id>, config: Config, updateTags: bool, id: Id)
    requires Present(s.configs, attached)
  {
    Puts(s, s', FirstAttached(s.configs, attached, config.typeId), config, updateTags, id)
  }

  /** No second config of the type can be made: the listings show the attached one, or
      it has the name that the new one would have. */
  ghost predicate Recognised(c: Controller, configs: map<Id, Config>, attached: seq<Id>, config: Config)
    requires Present(configs, attached)
  {
    || Findable(c, Details(configs, attached), config.typeId)
    || (var first := FirstAttached(configs, attached, config.typeId);
        first.Some? && configs[first.value].name == config.name)
  }

  /** No config has the name, unless it is the attached one of the type. */
  ghost predicate NameAvailable(configs: map<Id, Config>, attached: seq<Id>, config: Config)
    requires Present(configs, attached)
  {
    forall other :: other in configs && configs[other].name == config.name ==>
      FirstAttached(configs, attached, config.typeId) == Some(other)
  }

  method UpsertServiceConfig(c: Controller, service: Id, config: Config, updateTags: bool)
    returns (r: Reply<Id>, ghost found: Option<Id>)
    requires c.Valid()
    modifies c
    ensures c.Valid() && c.calls >= old(c.calls) && c.state.services == old(c.state.services)
    ensures r.Answered? ==>
      && service in c.state.services
      && var attached := c.state.services[service].configs;
      && Found(c, Details(old(c.state.configs), attached), old(c.calls), config.typeId, found)
      && Puts(old(c.state), c.state, found, config, updateTags, r.value)
      && (Recognised(c, old(c.state.configs), attached, config) ==>
            Upserted(old(c.state), c.state, attached, config, updateTags, r.value))
    ensures c.AllWork(old(c.calls)) && service in c.state.services && !ConfigNameTaken(old(c.state), config.name) ==>
      r.Answered?
    ensures c.AllWork(old(c.calls)) && service in c.state.services ==>
      var attached := c.state.services[service].configs;
      && Present(old(c.state.configs), attached)
      && (&& Findable(c, Details(old(c.state.configs), attached), config.typeId)
          && NameAvailable(old(c.state.configs), attached, config) ==>
          r.Answered?)
    ensures r.Crashed? ==> !c.NoCrash(old(c.calls))
  {
    var first := FindServiceConfigByType(c, service, config.typeId);
    found := if first.Answered? then first.value else None;
    if !first.Answered? {
      return if first.Crashed? then Crashed else Refused, found;
    }
    if first.value.None? {
      r := c.CreateConfig(config);
      return;
    }
    var id := first.value.value;
    var patched := c.PatchConfig(id, config.name, config.data, SentIf(updateTags, config.tags));
    r := match patched case Crashed => Crashed case Refused => Refused case Answered(_) => Answered(id);
  }

  const PLAIN := Config("plain", "other type", "", map[])
  const HOST := Config("host", HOST_V1_TYPE, "", map[])

  /** A service with two configs, one to a page, and no totals. */
  method HostBehindPlain() returns (c: Controller)
    ensures fresh(c) && c.Valid() && c.AllWork(0) && !c.totals(3) && c.pageSizes(3) == 0
    ensures c.calls == 3 && c.state.configs == map[0 := PLAIN, 1 := HOST]
    ensures c.state.services.Keys == {2} && c.state.services[2].configs == [0, 1]
  {
    c := new Controller(n => Works, n => 0, n => false);
    var plain := c.CreateConfig(PLAIN);
    var host := c.CreateConfig(HOST);
    var service := c.CreateService(Service("web", ["web"], [0, 1], map[]));
  }

  /** Without a total the first page is all that is looked at: a service that has a
      config of the type behind it, under another name, gets a second one. */
  method SecondOfItsType() returns (c: Controller, r: Reply<Id>)
    ensures 2 in c.state.services && c.state.services[2].configs == [0, 1]
    ensures r.Answered? && r.value !in [0, 1] && 1 in c.state.configs && r.value in c.state.configs
    ensures c.state.configs[1].typeId == c.state.configs[r.value].typeId
  {
    c := HostBehindPlain();
    ghost var found;
    assert Details(c.state.configs, [0, 1]) == [ConfigDetail(0, "other type"), ConfigDetail(1, HOST_V1_TYPE)];
    r, found := UpsertServiceConfig(c, 2, Config("web-host-v1", HOST_V1_TYPE, "data", map[]), false);
    assert found == None;
  }

  /** `appendMissing` as a function. */
  function Including(ids: seq<Id>, id: Id): seq<Id> {
    if id in ids then ids else ids + [id]
  }

  method AppendMissing(ids: seq<Id>, id: Id) returns (r: seq<Id>)
    ensures r == Including(ids, id)
  {
    for k := 0 to |ids|
      invariant id !in ids[..k]
    {
      if ids[k] == id {
        return ids;
      }
    }
    return ids + [id];
  }

  /** Types never change, so what is attached of each type does not either. */
  lemma SameTypesSameFirst(before: map<Id, Config>, after: map<Id, Config>, attached: seq<Id>, typeId: string)
    requires Present(before, attached) && Present(after, attached)
    requires forall k :: 0 <= k < |attached| ==> after[attached[k]].typeId == before[attached[k]].typeId
    ensures FirstAttached(after, attached, typeId) == FirstAttached(before, attached, typeId)
  {
    assert Details(after, attached) == Details(before, attached);
  }

  lemma StillInForce(before: map<Id, Config>, attached: seq<Id>, after: map<Id, Config>, ids: seq<Id>,
                     after': map<Id, Config>, ids': seq<Id>, asked: Config, updateTags: bool)
    requires Present(before, attached) && Present(after, ids) && Present(after', ids') && ids <= ids'
    requires InForce(before, attached, after, ids, asked, updateTags)
    requires forall id :: id in after && after[id].typeId == asked.typeId ==> id in after' && after'[id] == after[id]
    requires forall id :: id in before && id in after ==> after[id].typeId == before[id].typeId
    ensures InForce(before, attached, after', ids', asked, updateTags)
  {
    if FirstAttached(before, attached, asked.typeId).None? {
      var k :| |attached| <= k < |ids| && after[ids[k]] == asked;
      assert after'[ids'[k]] == asked;
    }
  }

  lemma NextKept(before: map<Id, Config>, attached: seq<Id>, after: map<Id, Config>, after': map<Id, Config>,
                 asked: seq<Config>, config: Config, id: Id)
    requires Present(before, attached) && Kept(before, attached, after, asked)
    requires id in after' && after' == after[id := after'[id]]
    requires id in before ==>
      after'[id].typeId == after[id].typeId && FirstAttached(before, attached, config.typeId) == Some(id)
    ensures Kept(before, attached, after', asked + [config])
  {
    forall other | other in before && Bystander(before, attached, other, asked + [config])
      ensures after'[other] == before[other]
    {
      assert config in asked + [config];
      assert Bystander(before, attached, other, asked);
    }
  }

  lemma StillExtended(before: map<Id, Config>, attached: seq<Id>, after: map<Id, Config>, after': map<Id, Config>,
                   ids: seq<Id>, asked: seq<Config>, config: Config)
    requires Present(before, attached) && Extended(before, attached, after, ids, asked)
    requires after'.Keys == after.Keys && forall id :: id in after && id !in before ==> after'[id] == after[id]
    ensures Extended(before, attached, after', ids, asked + [config])
  {
  }

  lemma NextExtended(before: map<Id, Config>, attached: seq<Id>, after: map<Id, Config>, id: Id,
                  ids: seq<Id>, asked: seq<Config>, config: Config)
    requires Present(before, attached) && Extended(before, attached, after, ids, asked)
    requires forall other :: other in asked ==> other.typeId != config.typeId
    requires FirstAttached(before, attached, config.typeId) == None
    requires id !in after
    ensures Extended(before, attached, after[id := config], ids + [id], asked + [config])
  {
    NextKeys(before, attached, after, id, ids, config);
    forall k | |attached| <= k < |ids| + 1
      ensures
        var next := (ids + [id])[k];
        && after[id := config][next] == (if k < |ids| then after[ids[k]] else config)
        && after[id := config][next] in asked + [config]
    {
      if k < |ids| {
        assert (ids + [id])[k] == ids[k] != id;
      }
    }
  }

  lemma NextKeys(before: map<Id, Config>, attached: seq<Id>, after: map<Id, Config>, id: Id, ids: seq<Id>,
                 config: Config)
    requires attached <= ids && after.Keys == before.Keys + Elements(ids[|attached|..])
    ensures attached <= ids + [id]
    ensures after[id := config].Keys == before.Keys + Elements((ids + [id])[|attached|..])
  {
    assert (ids + [id])[|attached|..] == ids[|attached|..] + [id];
    assert Elements(ids[|attached|..] + [id]) == Elements(ids[|attached|..]) + {id};
  }

  /** A config is patched into force. */
  lemma PatchUpdates(before: map<Id, Config>, attached: seq<Id>, s: State, s': State, ids: seq<Id>,
                     asked: seq<Config>, config: Config, updateTags: bool, id: Id)
    requires Present(before, attached) && ConfigsUpdated(before, attached, s.configs, ids, asked, updateTags)
    requires forall other :: other in asked ==> other.typeId != config.typeId
    requires FirstAttached(before, attached, config.typeId) == Some(id)
    requires s' == PatchedConfig(s, id, config.name, config.data, SentIf(updateTags, config.tags))
    ensures ConfigsUpdated(before, attached, s'.configs, ids, asked + [config], updateTags)
  {
    assert Bystander(before, attached, id, asked);
    NextKept(before, attached, s.configs, s'.configs, asked, config, id);
    StillExtended(before, attached, s.configs, s'.configs, ids, asked, config);
    forall other | other in asked ensures InForce(before, attached, s'.configs, ids, other, updateTags) {
      StillInForce(before, attached, s.configs, ids, s'.configs, ids, other, updateTags);
    }
  }

  /** A config is created into force. */
  lemma CreationUpdates(before: map<Id, Config>, attached: seq<Id>, s: State, ids: seq<Id>,
                        asked: seq<Config>, config: Config, updateTags: bool)
    requires Present(before, attached) && ConfigsUpdated(before, attached, s.configs, ids, asked, updateTags)
    requires forall other :: other in asked ==> other.typeId != config.typeId
    requires FirstAttached(before, attached, config.typeId) == None
    requires s.nextId !in s.configs
    ensures ConfigsUpdated(before, attached, WithConfig(s, config).configs, ids + [s.nextId], asked + [config],
                           updateTags)
  {
    var after, ids' := WithConfig(s, config).configs, ids + [s.nextId];
    NextKept(before, attached, s.configs, after, asked, config, s.nextId);
    NextExtended(before, attached, s.configs, s.nextId, ids, asked, config);
    forall other | other in asked ensures InForce(before, attached, after, ids', other, updateTags) {
      StillInForce(before, attached, s.configs, ids, after, ids', other, updateTags);
    }
    assert after[ids'[|ids|]] == config;
  }

  lemma UpsertUpdates(before: map<Id, Config>, attached: seq<Id>, s: State, s': State, ids: seq<Id>,
                      asked: seq<Config>, config: Config, updateTags: bool, id: Id)
    requires Present(before, attached) && ConfigsUpdated(before, attached, s.configs, ids, asked, updateTags)
    requires forall other :: other in asked ==> other.typeId != config.typeId
    requires WellFormed(s) && Upserted(s, s', attached, config, updateTags, id)
    ensures ConfigsUpdated(before, attached, s'.configs, Including(ids, id), asked + [config], updateTags)
  {
    SameTypesSameFirst(before, s.configs, attached, config.typeId);
    if FirstAttached(before, attached, config.typeId).Some? {
      assert id in ids;
      PatchUpdates(before, attached, s, s', ids, asked, config, updateTags, id);
    } else {
      assert s.nextId !in s.configs;
      CreationUpdates(before, attached, s, ids, asked, config, updateTags);
    }
  }

  // ---------------------------------------------------------------- what an update comes to

  ghost predicate OneOfEachType(configs: map<Id, Config>, ids: seq<Id>)
    requires Present(configs, ids)
  {
    forall k, l :: 0 <= k < l < |ids| ==> configs[ids[k]].typeId != configs[ids[l]].typeId
  }

  predicate Distinct(ids: seq<Id>) {
    forall k, l :: 0 <= k < l < |ids| ==> ids[k] != ids[l]
  }

  /** No config is detached, none is attached twice, and no type is attached twice,
      unless it was before. */
  lemma UpdateKeepsAttached(before: map<Id, Config>, attached: seq<Id>, after: map<Id, Config>, ids: seq<Id>,
                            asked: seq<Config>, updateTags: bool)
    requires Present(before, attached) && ConfigsUpdated(before, attached, after, ids, asked, updateTags)
    ensures attached <= ids
    ensures Distinct(attached) ==> Distinct(ids)
    ensures OneOfEachType(before, attached) ==> OneOfEachType(after, ids)
  {
  }

  /** Each config asked for is the attached config of its type. */
  lemma UpdateStoresData(before: map<Id, Config>, attached: seq<Id>, after: map<Id, Config>, ids: seq<Id>,
                         asked: seq<Config>, updateTags: bool, config: Config)
    requires Present(before, attached) && ConfigsUpdated(before, attached, after, ids, asked, updateTags)
    requires config in asked
    ensures var first := FirstAttached(after, ids, config.typeId);
      first.Some? && after[first.value].name == config.name && after[first.value].data == config.data
  {
    FirstAttachedSplits(after, attached, ids, config.typeId);
    SameTypesSameFirst(before, after, attached, config.typeId);
    if FirstAttached(before, attached, config.typeId).None? {
      NewOfType(before, attached, after, ids, asked, updateTags, config);
    }
  }

  lemma FirstAttachedSplits(configs: map<Id, Config>, attached: seq<Id>, ids: seq<Id>, typeId: string)
    requires Present(configs, ids) && attached <= ids
    ensures FirstAttached(configs, attached, typeId).Some? ==>
      FirstAttached(configs, ids, typeId) == FirstAttached(configs, attached, typeId)
  {
    assert Details(configs, ids) == Details(configs, attached) + Details(configs, ids[|attached|..]);
    FirstOfTypeConcat(Details(configs, attached), Details(configs, ids[|attached|..]), typeId);
  }

  lemma NewOfType(before: map<Id, Config>, attached: seq<Id>, after: map<Id, Config>, ids: seq<Id>,
                  asked: seq<Config>, updateTags: bool, config: Config)
    requires Present(before, attached)
    requires Kept(before, attached, after, asked) && Extended(before, attached, after, ids, asked)
    requires InForce(before, attached, after, ids, config, updateTags)
    requires FirstAttached(before, attached, config.typeId) == None
    ensures FirstAttached(after, ids, config.typeId).Some?
    ensures after[FirstAttached(after, ids, config.typeId).value] == config
  {
    var k :| |attached| <= k < |ids| && after[ids[k]] == config;
    var first := FirstAttached(after, ids, config.typeId);
    assert first.Some?;
    var l :| 0 <= l < |ids| && ids[l] == first.value;
    NoneOfType(before, attached, after, ids, asked, config.typeId);
    assert l == k;
  }

  lemma NoneOfType(before: map<Id, Config>, attached: seq<Id>, after: map<Id, Config>, ids: seq<Id>, asked: seq<Config>,
                   typeId: string)
    requires Present(before, attached) && Present(after, ids) && attached <= ids
    requires Kept(before, attached, after, asked) && FirstAttached(before, attached, typeId) == None
    ensures forall k :: 0 <= k < |attached| ==> after[ids[k]].typeId != typeId
  {
    assert forall k :: 0 <= k < |attached| ==>
      ids[k] == attached[k] && after[ids[k]].typeId == before[attached[k]].typeId;
  }

  /** What an update leaves of the configs of one type, first attached first: the first
      has the name and the data given. If it was attached before it keeps its type, and
      its tags unless others are sent; otherwise it is new, with the tags given. */
  ghost predicate TypeUpdated(before: map<Id, Config>, attached: seq<Id>, after: map<Id, Config>, ids: seq<Id>,
                              typeId: string, name: string, data: Data, tags: Tags, updateTags: bool) {
    exists k: nat :: FirstAt(after, ids, typeId, k) && after[ids[k]].name == name && after[ids[k]].data == data
      && after[ids[k]].tags == (
           if k < |attached| && ids[k] in before && !(updateTags && |tags| > 0) then before[ids[k]].tags else tags)
  }

  ghost predicate FirstAt(configs: map<Id, Config>, ids: seq<Id>, typeId: string, k: nat) {
    && k < |ids| && ids[k] in configs && configs[ids[k]].typeId == typeId
    && forall j :: 0 <= j < k ==> ids[j] in configs && configs[ids[j]].typeId != typeId
  }

  /** The configs given in an update are in force afterwards, each under its derived name. */
  ghost predicate AsGiven(before: map<Id, Config>, attached: seq<Id>, after: map<Id, Config>, ids: seq<Id>,
                          name: string, update: Update) {
    && (update.hostV1.Some? ==>
          TypeUpdated(before, attached, after, ids, HOST_V1_TYPE, name + "-host-v1", update.hostV1.value,
                      update.tags, update.updateTags))
    && (update.interceptV1.Some? ==>
          TypeUpdated(before, attached, after, ids, INTERCEPT_V1_TYPE, name + "-intercept-v1",
                      update.interceptV1.value, update.tags, update.updateTags))
  }

  lemma FirstAttachedAt(configs: map<Id, Config>, ids: seq<Id>, typeId: string) returns (k: nat)
    requires Present(configs, ids) && FirstAttached(configs, ids, typeId).Some?
    ensures FirstAt(configs, ids, typeId, k) && ids[k] == FirstAttached(configs, ids, typeId).value
  {
    k := FirstOfTypeAt(Details(configs, ids), typeId);
    assert forall j :: 0 <= j < |ids| ==> Details(configs, ids)[j] == ConfigDetail(ids[j], configs[ids[j]].typeId);
  }

  lemma {:induction false} FirstOfTypeAt(details: seq<ConfigDetail>, typeId: string) returns (k: nat)
    requires FirstOfType(details, typeId).Some?
    ensures k < |details| && details[k] == ConfigDetail(FirstOfType(details, typeId).value, typeId)
    ensures forall j :: 0 <= j < k ==> details[j].typeId != typeId
  {
    if details[0].typeId == typeId {
      return 0;
    }
    k := FirstOfTypeAt(details[1..], typeId);
    assert forall j :: 0 < j <= k + 1 ==> details[j] == details[1..][j - 1];
    k := k + 1;
  }

  lemma InForceIsUpdated(before: map<Id, Config>, attached: seq<Id>, after: map<Id, Config>, ids: seq<Id>,
                         asked: seq<Config>, updateTags: bool, config: Config)
    requires Present(before, attached) && ConfigsUpdated(before, attached, after, ids, asked, updateTags)
    requires config in asked
    ensures TypeUpdated(before, attached, after, ids, config.typeId, config.name, config.data, config.tags, updateTags)
  {
    UpdateStoresData(before, attached, after, ids, asked, updateTags, config);
    var k := FirstAttachedAt(after, ids, config.typeId);
    FirstAttachedSplits(after, attached, ids, config.typeId);
    SameTypesSameFirst(before, after, attached, config.typeId);
    if FirstAttached(before, attached, config.typeId).Some? {
      var l := FirstAttachedAt(after, attached, config.typeId);
      assert FirstAt(after, ids, config.typeId, l);
      assert l == k;
    } else {
      NoneOfType(before, attached, after, ids, asked, config.typeId);
      NewOfType(before, attached, after, ids, asked, updateTags, config);
    }
  }

  lemma UpdatedAsGiven(before: map<Id, Config>, attached: seq<Id>, after: map<Id, Config>, ids: seq<Id>,
                       name: string, update: Update)
    requires Present(before, attached)
    requires ConfigsUpdated(before, attached, after, ids, Asked(update, name), update.updateTags)
    ensures AsGiven(before, attached, after, ids, name, update)
  {
    var req, asked := AsCreate(update, name), Asked(update, name);
    if update.hostV1.Some? {
      assert asked[0] == HostConfig(req);
      InForceIsUpdated(before, attached, after, ids, asked, update.updateTags, asked[0]);
    }
    if update.interceptV1.Some? {
      assert asked[|asked| - 1] == InterceptConfig(req);
      InForceIsUpdated(before, attached, after, ids, asked, update.updateTags, asked[|asked| - 1]);
    }
  }

  // ---------------------------------------------------------------- the whole update

  /** What a successful update of the service `id` makes of the services; the
      configs attached are appended to. */
  ghost predicate ServiceUpdated(s: State, s': State, id: Id, update: Update)
    requires id in s.services
  {
    var before := s.services[id];
    && id in s'.services
    && var after := s'.services[id];
    && s'.services == s.services[id := after]
    && after.name == before.name && before.configs <= after.configs
    && after.roleAttributes == (if update.updateRoleAttributes then update.roleAttributes else before.roleAttributes)
    && after.tags == (if update.updateTags && |update.tags| > 0 then update.tags else before.tags)
  }

  lemma StillRecognised(c: Controller, before: map<Id, Config>, attached: seq<Id>, after: map<Id, Config>,
                        asked: seq<Config>, config: Config)
    requires Present(before, attached) && Kept(before, attached, after, asked)
    requires forall other :: other in asked ==> other.typeId != config.typeId
    requires Recognised(c, before, attached, config)
    ensures Present(after, attached) && Recognised(c, after, attached, config)
  {
    SameTypesSameFirst(before, after, attached, config.typeId);
    assert Details(after, attached) == Details(before, attached);
    var first := FirstAttached(before, attached, config.typeId);
    if first.Some? {
      assert Bystander(before, attached, first.value, asked);
    }
  }

  /** The listings show the attached config of the type, and the name is available. */
  ghost predicate Ready(c: Controller, s: State, attached: seq<Id>, config: Config) {
    && Present(s.configs, attached)
    && Findable(c, Details(s.configs, attached), config.typeId) && NameAvailable(s.configs, attached, config)
  }

  /** With the host config put in force, the intercept config is as ready as before. */
  lemma StillReady(c: Controller, s: State, s': State, attached: seq<Id>, ids: seq<Id>, host: Config, config: Config,
                   updateTags: bool)
    requires Present(s.configs, attached) && ConfigsUpdated(s.configs, attached, s'.configs, ids, [host], updateTags)
    requires host.name != config.name && host.typeId != config.typeId
    requires Ready(c, s, attached, config)
    ensures Ready(c, s', attached, config)
  {
    assert Present(s'.configs, attached);
    SameTypesSameFirst(s.configs, s'.configs, attached, config.typeId);
    assert Details(s'.configs, attached) == Details(s.configs, attached);
    forall other | other in s'.configs && s'.configs[other].name == config.name
      ensures FirstAttached(s'.configs, attached, config.typeId) == Some(other)
    {
      if other !in s.configs {
        assert false;
      }
      if FirstAttached(s.configs, attached, host.typeId) == Some(other) {
        assert false;
      }
      assert Bystander(s.configs, attached, other, [host]);
    }
  }

  /** One config of an update is put in force, and attached if it was not. */
  method PutInForce(c: Controller, service: Id, ids: seq<Id>, config: Config, updateTags: bool,
                    ghost before: map<Id, Config>, ghost attached: seq<Id>, ghost asked: seq<Config>, ghost seen: bool)
    returns (r: Reply<seq<Id>>)
    requires c.Valid() && Present(before, attached)
    requires service in c.state.services ==> c.state.services[service].configs == attached
    requires seen ==>
      && ConfigsUpdated(before, attached, c.state.configs, ids, asked, updateTags)
      && Recognised(c, before, attached, config)
    requires forall other :: other in asked ==> other.typeId != config.typeId
    modifies c
    ensures c.Valid() && c.calls >= old(c.calls) && c.state.services == old(c.state.services)
    ensures r.Answered? ==> ids <= r.value
    ensures r.Answered? && seen ==>
      ConfigsUpdated(before, attached, c.state.configs, r.value, asked + [config], updateTags)
    ensures c.AllWork(old(c.calls)) && service in c.state.services && Ready(c, old(c.state), attached, config) ==>
      r.Answered?
  {
    ghost var s := c.state;
    if seen {
      StillRecognised(c, before, attached, s.configs, asked, config);
    }
    var upserted, found := UpsertServiceConfig(c, service, config, updateTags);
    if !upserted.Answered? {
      return if upserted.Crashed? then Crashed else Refused;
    }
    if seen {
      UpsertUpdates(before, attached, s, c.state, ids, asked, config, updateTags, upserted.value);
    }
    var more := AppendMissing(ids, upserted.value);
    return Answered(more);
  }

  /** So it is for each config asked for. */
  ghost predicate AllRecognised(c: Controller, s: State, id: Id, update: Update) {
    && id in s.services && Present(s.configs, s.services[id].configs)
    && forall config :: config in Asked(update, s.services[id].name) ==>
         Recognised(c, s.configs, s.services[id].configs, config)
  }

  ghost predicate AllReady(c: Controller, s: State, id: Id, update: Update) {
    && id in s.services && Present(s.configs, s.services[id].configs)
    && forall config :: config in Asked(update, s.services[id].name) ==>
         Ready(c, s, s.services[id].configs, config)
  }

  /** The intercept config of an update, after the host config. */
  method PutInterceptInForce(c: Controller, id: Id, name: string, update: Update, ids: seq<Id>,
                             ghost before: map<Id, Config>, ghost attached: seq<Id>, ghost seen: bool)
    returns (r: Reply<seq<Id>>)
    requires c.Valid() && Present(before, attached)
    requires id in c.state.services ==> c.state.services[id].configs == attached
    requires seen ==>
      && ConfigsUpdated(before, attached, c.state.configs, ids, HostWanted(AsCreate(update, name)), update.updateTags)
      && (update.interceptV1.Some? ==> Recognised(c, before, attached, InterceptConfig(AsCreate(update, name))))
    modifies c
    ensures c.Valid() && c.calls >= old(c.calls) && c.state.services == old(c.state.services)
    ensures r.Answered? ==> ids <= r.value
    ensures r.Answered? && seen ==>
      ConfigsUpdated(before, attached, c.state.configs, r.value, Asked(update, name), update.updateTags)
    ensures
      && c.AllWork(old(c.calls)) && id in c.state.services
      && (update.interceptV1.Some? ==> Ready(c, old(c.state), attached, InterceptConfig(AsCreate(update, name)))) ==>
      r.Answered?
    ensures r.Answered? && update.interceptV1.None? ==> r.value == ids && c.state == old(c.state)
  {
    ghost var done := HostWanted(AsCreate(update, name));
    if update.interceptV1.None? {
      assert Asked(update, name) == done;
      return Answered(ids);
    }
    var config := InterceptConfig(AsCreate(update, name));
    assert Asked(update, name) == done + [config];
    r := PutInForce(c, id, ids, config, update.updateTags, before, attached, done, seen);
  }

  /** The host config of an update. */
  method PutHostInForce(c: Controller, id: Id, service: Service, update: Update) returns (r: Reply<seq<Id>>)
    requires c.Valid() && id in c.state.services && service == c.state.services[id]
    modifies c
    ensures c.Valid() && c.calls >= old(c.calls) && c.state.services == old(c.state.services)
    ensures r.Answered? ==> service.configs <= r.value
    ensures r.Answered? && AllRecognised(c, old(c.state), id, update) ==>
      ConfigsUpdated(old(c.state.configs), service.configs, c.state.configs, r.value,
                     HostWanted(AsCreate(update, service.name)), update.updateTags)
    ensures c.AllWork(old(c.calls)) && AllReady(c, old(c.state), id, update) ==>
      && r.Answered?
      && (update.interceptV1.Some? ==>
            Ready(c, c.state, service.configs, InterceptConfig(AsCreate(update, service.name))))
    ensures r.Answered? && update.hostV1.None? ==> r.value == service.configs && c.state == old(c.state)
  {
    ghost var s, seen := c.state, AllRecognised(c, c.state, id, update);
    if update.hostV1.None? {
      return Answered(service.configs);
    }
    var config := HostConfig(AsCreate(update, service.name));
    assert HostWanted(AsCreate(update, service.name)) == [] + [config];
    r := PutInForce(c, id, service.configs, config, update.updateTags, s.configs, service.configs, [], seen);
    if update.interceptV1.Some? && r.Answered? && AllReady(c, s, id, update) {
      HostNameDiffers(AsCreate(update, service.name));
      StillReady(c, s, c.state, service.configs, r.value, config, InterceptConfig(AsCreate(update, service.name)),
                 update.updateTags);
    }
  }

  /** The configs of an update, host first. */
  method PutAllInForce(c: Controller, id: Id, service: Service, update: Update) returns (r: Reply<seq<Id>>)
    requires c.Valid() && id in c.state.services && service == c.state.services[id]
    modifies c
    ensures c.Valid() && c.calls >= old(c.calls) && c.state.services == old(c.state.services)
    ensures r.Answered? ==> service.configs <= r.value
    ensures c.AllWork(old(c.calls)) && AllReady(c, old(c.state), id, update) ==> r.Answered?
    ensures r.Answered? && AllRecognised(c, old(c.state), id, update) ==>
      ConfigsUpdated(old(c.state.configs), service.configs, c.state.configs, r.value,
                     Asked(update, service.name), update.updateTags)
      && AsGiven(old(c.state.configs), service.configs, c.state.configs, r.value, service.name, update)
    ensures r.Answered? && update.hostV1.None? && update.interceptV1.None? ==>
      r.value == service.configs && c.state.configs == old(c.state.configs)
  {
    ghost var s, seen := c.state, AllRecognised(c, c.state, id, update);
    r := PutHostInForce(c, id, service, update);
    if !r.Answered? {
      return;
    }
    r := PutInterceptInForce(c, id, service.name, update, r.value, s.configs, service.configs, seen);
    if r.Answered? && seen {
      UpdatedAsGiven(s.configs, service.configs, c.state.configs, r.value, service.name, update);
    }
  }

  method UpdateService(c: Controller, id: Id, update: Update) returns (r: Reply<Service>)
    requires c.Valid()
    modifies c
    ensures c.Valid()
    ensures r.Answered? ==> id in old(c.state.services) && ServiceUpdated(old(c.state), c.state, id, update)
    ensures r.Answered? ==> r.value == c.state.services[id]
    ensures c.AllWork(old(c.calls)) && AllReady(c, old(c.state), id, update) ==> r.Answered?
    ensures r.Answered? && AllRecognised(c, old(c.state), id, update) ==>
      var before := old(c.state.services)[id];
      ConfigsUpdated(old(c.state.configs), before.configs, c.state.configs, r.value.configs,
                     Asked(update, before.name), update.updateTags)
      && AsGiven(old(c.state.configs), before.configs, c.state.configs, r.value.configs, before.name, update)
    ensures r.Answered? && update.hostV1.None? && update.interceptV1.None? ==>
      c.state.configs == old(c.state.configs) && r.value.configs == old(c.state.services)[id].configs
  {
    var detail := c.DetailService(id);
    if !detail.Answered? {
      return if detail.Crashed? then Crashed else Refused;
    }
    var ids := PutAllInForce(c, id, detail.value, update);
    if !ids.Answered? {
      return if ids.Crashed? then Crashed else Refused;
    }
    var patch := ServicePatch(
      if update.hostV1.Some? || update.interceptV1.Some? then Some(ids.value) else None,
      if update.updateRoleAttributes then Some(update.roleAttributes) else None,
      SentIf(update.updateTags, update.tags));
    var patched := c.PatchService(id, patch);
    if !patched.Answered? {
      return if patched.Crashed? then Crashed else Refused;
    }
    r := c.DetailService(id);
  }
}
