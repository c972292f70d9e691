/**
 The callers of the scan loop: what each filters locally, and what a complete
 walk of each returns. The part of a filter that travels to the controller is a
 predicate on the name; the controller pages over the items it selects.
 */
module ResourceLists {
  import opened Wrappers
  import opened OffsetToken
  import opened FilteredScan

  type Tags = map<string, string>

  datatype OpenZitiIdentity = OpenZitiIdentity(id: string, name: string, roleAttributes: seq<string>, tags: Tags)

  datatype OpenZitiService = OpenZitiService(id: string, name: string, roleAttributes: seq<string>, tags: Tags)

  datatype OpenZitiServicePolicy = OpenZitiServicePolicy(
    id: string, name: string, policyType: string,
    identityRoles: seq<string>, serviceRoles: seq<string>, tags: Tags)

  datatype ServiceListFilter = ServiceListFilter(name: string, namePrefix: string, roleAttributes: seq<string>)

  datatype ServicePolicyListFilter = ServicePolicyListFilter(
    name: string, namePrefix: string, policyType: string,
    identityRoles: seq<string>, serviceRoles: seq<string>)

  /** A key the item lacks reads as "", as in a Go map. */
  function TagValue(tags: Tags, key: string): string {
    if key in tags then tags[key] else ""
  }

  predicate MatchesTags(actual: Tags, required: Tags) {
    forall key :: key in required ==> TagValue(actual, key) == required[key]
  }

  predicate ServiceMatchesFilter(service: OpenZitiService, filter: ServiceListFilter) {
    && (filter.namePrefix != "" ==> filter.namePrefix <= service.name)
    && (forall i :: 0 <= i < |filter.roleAttributes| ==> filter.roleAttributes[i] in service.roleAttributes)
  }

  predicate ServicePolicyMatchesFilter(policy: OpenZitiServicePolicy, filter: ServicePolicyListFilter) {
    && (filter.namePrefix != "" ==> filter.namePrefix <= policy.name)
    && (filter.policyType != "" ==> policy.policyType == filter.policyType)
    && (forall i :: 0 <= i < |filter.identityRoles| ==> filter.identityRoles[i] in policy.identityRoles)
    && (forall i :: 0 <= i < |filter.serviceRoles| ==> filter.serviceRoles[i] in policy.serviceRoles)
  }

  // The local filters, as the loop takes them.

  function ServiceFilter(filter: ServiceListFilter): OpenZitiService -> bool {
    (service: OpenZitiService) => ServiceMatchesFilter(service, filter)
  }

  function PolicyFilter(filter: ServicePolicyListFilter): OpenZitiServicePolicy -> bool {
    (policy: OpenZitiServicePolicy) => ServicePolicyMatchesFilter(policy, filter)
  }

  function IdentityTags(tags: Tags): OpenZitiIdentity -> bool {
    (identity: OpenZitiIdentity) => MatchesTags(identity.tags, tags)
  }

  function ServiceTags(tags: Tags): OpenZitiService -> bool {
    (service: OpenZitiService) => MatchesTags(service.tags, tags)
  }

  function PolicyTags(tags: Tags): OpenZitiServicePolicy -> bool {
    (policy: OpenZitiServicePolicy) => MatchesTags(policy.tags, tags)
  }

  // The part of a filter the controller applies: `name = "..."`, or nothing.

  function ServiceNamed(name: string): OpenZitiService -> bool {
    (service: OpenZitiService) => name != "" ==> service.name == name
  }

  function PolicyNamed(name: string): OpenZitiServicePolicy -> bool {
    (policy: OpenZitiServicePolicy) => name != "" ==> policy.name == name
  }

  // ---------------------------------------------------------------- the calls

  /** `result` answers a call that should give `page`: it is the page if every
      request is served, an error or the page if requests may fail, and an error or
      a prefix of the page if pagination metadata may be missing. A token that does
      not parse is refused. */
  ghost predicate IsAnswer<T>(answers: (nat, nat, nat) -> Answer, result: Result<ListResult<T>>,
                              page: Result<ListResult<T>>) {
    && (page.Err? ==> result.Err?)
    && (AlwaysServes(answers) ==> result == page)
    && (AlwaysPaginates(answers) && result.Ok? ==> result == page)
    && (result.Ok? ==> result.value.items <= page.value.items)
  }

  /** `controller` pages over the services of `directory` that the request's own
      filter selects. */
  method ListServices(controller: Controller<OpenZitiService>, ghost directory: seq<OpenZitiService>,
                      filter: ServiceListFilter, pageSize: int, pageToken: string)
    returns (result: Result<ListResult<OpenZitiService>>)
    requires controller.snapshot == Matching(directory, ServiceNamed(filter.name), 0, |directory|)
    modifies controller`requests
    ensures IsAnswer(controller.answers, result,
                     Listed(Matching(directory, ServiceNamed(filter.name), 0, |directory|), ServiceFilter(filter),
                            pageSize, pageToken))
  {
    result := Scan(controller, ServiceFilter(filter), pageSize, pageToken);
  }

  method ListServicePolicies(controller: Controller<OpenZitiServicePolicy>, ghost directory: seq<OpenZitiServicePolicy>,
                             filter: ServicePolicyListFilter, pageSize: int, pageToken: string)
    returns (result: Result<ListResult<OpenZitiServicePolicy>>)
    requires controller.snapshot == Matching(directory, PolicyNamed(filter.name), 0, |directory|)
    modifies controller`requests
    ensures IsAnswer(controller.answers, result,
                     Listed(Matching(directory, PolicyNamed(filter.name), 0, |directory|), PolicyFilter(filter),
                            pageSize, pageToken))
  {
    result := Scan(controller, PolicyFilter(filter), pageSize, pageToken);
  }

  method ListIdentitiesByTag(controller: Controller<OpenZitiIdentity>, tags: Tags, pageSize: int, pageToken: string)
    returns (result: Result<ListResult<OpenZitiIdentity>>)
    modifies controller`requests
    ensures IsAnswer(controller.answers, result, Listed(controller.snapshot, IdentityTags(tags), pageSize, pageToken))
  {
    result := Scan(controller, IdentityTags(tags), pageSize, pageToken);
  }

  method ListServicesByTag(controller: Controller<OpenZitiService>, tags: Tags, pageSize: int, pageToken: string)
    returns (result: Result<ListResult<OpenZitiService>>)
    modifies controller`requests
    ensures IsAnswer(controller.answers, result, Listed(controller.snapshot, ServiceTags(tags), pageSize, pageToken))
  {
    result := Scan(controller, ServiceTags(tags), pageSize, pageToken);
  }

  method ListServicePoliciesByTag(controller: Controller<OpenZitiServicePolicy>, tags: Tags, pageSize: int,
                                  pageToken: string)
    returns (result: Result<ListResult<OpenZitiServicePolicy>>)
    modifies controller`requests
    ensures IsAnswer(controller.answers, result, Listed(controller.snapshot, PolicyTags(tags), pageSize, pageToken))
  {
    result := Scan(controller, PolicyTags(tags), pageSize, pageToken);
  }

  // ---------------------------------------------------------------- both filters together

  function Both<T>(remote: T -> bool, local: T -> bool): T -> bool {
    (x: T) => remote(x) && local(x)
  }

  /** Filtering locally what the controller filtered already is filtering once
      with both predicates. */
  lemma {:induction false} FilterTwice<T>(s: seq<T>, remote: T -> bool, local: T -> bool, n: nat)
    requires n <= |s|
    ensures
      var selected := Matching(s, remote, 0, n);
      Matching(selected, local, 0, |selected|) == Matching(s, Both(remote, local), 0, n)
  {
    if n > 0 {
      FilterTwice(s, remote, local, n - 1);
      var before := Matching(s, remote, 0, n - 1);
      var selected := Matching(s, remote, 0, n);
      MatchingOfPrefix(selected, before, local, |before|);
    }
  }

  lemma {:induction false} MatchingOfPrefix<T>(s: seq<T>, prefix: seq<T>, matches: T -> bool, n: nat)
    requires n <= |prefix| <= |s| && prefix <= s
    ensures Matching(s, matches, 0, n) == Matching(prefix, matches, 0, n)
  {
    if n > 0 {
      MatchingOfPrefix(s, prefix, matches, n - 1);
    }
  }

  lemma TwoStageWalk<T>(directory: seq<T>, remote: T -> bool, local: T -> bool,
                        sizes: seq<int>, pages: seq<ListResult<T>>)
    requires |directory| < INT64_LIMIT
    requires IsWalk(Matching(directory, remote, 0, |directory|), local, sizes, pages) && IsComplete(pages)
    ensures Items(pages) == Matching(directory, Both(remote, local), 0, |directory|)
  {
    MatchingIsShorter(directory, remote, |directory|);
    WalkIsComplete(Matching(directory, remote, 0, |directory|), local, sizes, pages);
    FilterTwice(directory, remote, local, |directory|);
  }

  /** The members of a complete walk. */
  lemma WalkMembers<T>(directory: seq<T>, remote: T -> bool, local: T -> bool,
                       sizes: seq<int>, pages: seq<ListResult<T>>)
    requires |directory| < INT64_LIMIT
    requires IsWalk(Matching(directory, remote, 0, |directory|), local, sizes, pages) && IsComplete(pages)
    ensures Items(pages) == Matching(directory, Both(remote, local), 0, |directory|)
    ensures forall x :: x in Items(pages) <==> x in directory && remote(x) && local(x)
  {
    TwoStageWalk(directory, remote, local, sizes, pages);
    MatchingMembers(directory, Both(remote, local), |directory|);
    assert directory[..|directory|] == directory;
  }

  /** A complete walk of `ListServices` returns every service of the directory
      with the name, prefix and role attributes asked for, once, in order. */
  lemma ServicesWalk(directory: seq<OpenZitiService>, filter: ServiceListFilter,
                     sizes: seq<int>, pages: seq<ListResult<OpenZitiService>>)
    requires |directory| < INT64_LIMIT
    requires IsWalk(Matching(directory, ServiceNamed(filter.name), 0, |directory|), ServiceFilter(filter), sizes, pages)
    requires IsComplete(pages)
    ensures Items(pages) == Matching(directory, Both(ServiceNamed(filter.name), ServiceFilter(filter)), 0, |directory|)
    ensures forall service :: service in Items(pages) <==>
      && service in directory
      && (filter.name == "" || service.name == filter.name) && filter.namePrefix <= service.name
      && forall role :: role in filter.roleAttributes ==> role in service.roleAttributes
  {
    WalkMembers(directory, ServiceNamed(filter.name), ServiceFilter(filter), sizes, pages);
  }

  /** The same for `ListServicePolicies`. */
  lemma ServicePoliciesWalk(directory: seq<OpenZitiServicePolicy>, filter: ServicePolicyListFilter,
                            sizes: seq<int>, pages: seq<ListResult<OpenZitiServicePolicy>>)
    requires |directory| < INT64_LIMIT
    requires IsWalk(Matching(directory, PolicyNamed(filter.name), 0, |directory|), PolicyFilter(filter), sizes, pages)
    requires IsComplete(pages)
    ensures Items(pages) == Matching(directory, Both(PolicyNamed(filter.name), PolicyFilter(filter)), 0, |directory|)
    ensures forall policy :: policy in Items(pages) <==>
      && policy in directory
      && (filter.name == "" || policy.name == filter.name) && filter.namePrefix <= policy.name
      && (filter.policyType == "" || policy.policyType == filter.policyType)
      && (forall role :: role in filter.identityRoles ==> role in policy.identityRoles)
      && (forall role :: role in filter.serviceRoles ==> role in policy.serviceRoles)
  {
    WalkMembers(directory, PolicyNamed(filter.name), PolicyFilter(filter), sizes, pages);
  }

  /** Every required tag is there with its value; a required value of "" is also met by
      a tag that is missing. */
  ghost predicate HasTags(actual: Tags, required: Tags) {
    forall key :: key in required ==>
      (key in actual && actual[key] == required[key]) || (key !in actual && required[key] == "")
  }

  lemma TagWalkMembers<T>(s: seq<T>, matches: T -> bool, sizes: seq<int>, pages: seq<ListResult<T>>)
    requires |s| < INT64_LIMIT && IsWalk(s, matches, sizes, pages) && IsComplete(pages)
    ensures forall x :: x in Items(pages) <==> x in s && matches(x)
  {
    WalkIsComplete(s, matches, sizes, pages);
    MatchingMembers(s, matches, |s|);
    assert s[..|s|] == s;
  }

  /** Complete walks by tag return exactly what has the tags. */
  lemma IdentitiesByTagWalk(s: seq<OpenZitiIdentity>, tags: Tags, sizes: seq<int>,
                            pages: seq<ListResult<OpenZitiIdentity>>)
    requires |s| < INT64_LIMIT && IsWalk(s, IdentityTags(tags), sizes, pages) && IsComplete(pages)
    ensures forall x :: x in Items(pages) <==> x in s && HasTags(x.tags, tags)
  {
    TagWalkMembers(s, IdentityTags(tags), sizes, pages);
  }

  lemma ServicesByTagWalk(s: seq<OpenZitiService>, tags: Tags, sizes: seq<int>, pages: seq<ListResult<OpenZitiService>>)
    requires |s| < INT64_LIMIT && IsWalk(s, ServiceTags(tags), sizes, pages) && IsComplete(pages)
    ensures forall x :: x in Items(pages) <==> x in s && HasTags(x.tags, tags)
  {
    TagWalkMembers(s, ServiceTags(tags), sizes, pages);
  }

  lemma ServicePoliciesByTagWalk(s: seq<OpenZitiServicePolicy>, tags: Tags, sizes: seq<int>,
                                 pages: seq<ListResult<OpenZitiServicePolicy>>)
    requires |s| < INT64_LIMIT && IsWalk(s, PolicyTags(tags), sizes, pages) && IsComplete(pages)
    ensures forall x :: x in Items(pages) <==> x in s && HasTags(x.tags, tags)
  {
    TagWalkMembers(s, PolicyTags(tags), sizes, pages);
  }

  lemma {:induction false} MatchingIsShorter<T>(s: seq<T>, matches: T -> bool, n: nat)
    requires n <= |s|
    ensures |Matching(s, matches, 0, n)| <= n
  {
    if n > 0 {
      MatchingIsShorter(s, matches, n - 1);
    }
  }

  /** The lookup of a service by name asks for two and takes the first: it finds
      one exactly when the directory has one of that name. */
  lemma {:induction false} LookupByName(directory: seq<OpenZitiService>, name: string)
    requires name != ""
    ensures
      var selected := Matching(directory, ServiceNamed(name), 0, |directory|);
      var page := Listed(selected, ServiceFilter(ServiceListFilter(name, "", [])), 2, "");
      && page.Ok?
      && (page.value.items != [] <==> exists i :: 0 <= i < |directory| && directory[i].name == name)
      && (page.value.items != [] ==> page.value.items[0].name == name && page.value.items[0] in directory)
  {
    var selected := Matching(directory, ServiceNamed(name), 0, |directory|);
    var filter := ServiceFilter(ServiceListFilter(name, "", []));
    MatchingMembers(directory, ServiceNamed(name), |directory|);
    PageEndMeaning(selected, filter, 2, 0, 0);
    var end := PageEnd(selected, filter, 2, 0, 0);
    MatchingMembers(selected, filter, end);
    var items := Matching(selected, filter, 0, end);
    if items != [] {
      assert items[0] in items;
      assert items[0] in selected;
    }
    if selected != [] {
      assert filter(selected[0]);
    }
    if i :| 0 <= i < |directory| && directory[i].name == name {
      assert directory[i] in selected;
    }
  }

  lemma {:induction false} MatchingMembers<T>(s: seq<T>, matches: T -> bool, n: nat)
    requires n <= |s|
    ensures forall x :: x in Matching(s, matches, 0, n) <==> x in s[..n] && matches(x)
  {
    if n > 0 {
      MatchingMembers(s, matches, n - 1);
      assert s[..n] == s[..n - 1] + [s[n - 1]];
    }
  }
}
