# Verified model of the identity and service management logic

The service keeps two stores in agreement without a transaction that spans them:
the OpenZiti controller (identities, services, configs, policies) and a Postgres
database (`managed_identities`, `service_identities`). Any call can fail, lose its
reply, or be the last one before its process dies. This project models that logic
and proves what survives such failures. `dafny verify dfyconfig.toml` checks all
of it.

| modules | what they are about |
|---|---|
| `LeaseProtocol`, `ServiceIdentityCalls` | issuing, extending and collecting service identities: a small-step system for every interleaving, and the program's calls, each shown to be a run of that system |
| `ServiceController`, `ServiceCreation`, `ServiceRequests`, `ServiceUpdate` | services with their configs: rollback, adoption, retry, update by config type |
| `Identities`, `ReEnrollment`, `IdentityDeletion` | runner and app identities on both sides: replacing them, deleting them, retrying |
| `FilteredScan`, `OffsetToken`, `ResourceLists` | list calls that filter locally while paging the controller, resumed by offset tokens |
| `KeysetPages`, `PageToken`, `ManagedIdentityListing` | keyset pages over `managed_identities` and their opaque tokens |
| `RoleAttributes` | the two in-place algorithms on role attribute lists |
| `AgentNames` | the agent identity name and its parser |
| `Migrations` | applying the schema migrations |
| `Ceilings`, `StringOrder`, `RemoteCalls`, `Wrappers` | shared vocabulary |

How failures are modelled. A call of the lease protocol, of re-enrolment or of a
deletion is `Done`, `Failed` (no effect) or `Lost` (executed, but answered with an
error). A controller call in service creation and update may besides be the point
at which the process crashes, before or after the call took effect. Which of these
happens is an arbitrary function of the call number, so a contract holds for every
pattern of failures. The clock readings, the ids that the controller gives out, the
random name suffix and the outcome of an enrollment are parameters. The methods
that stand for the controller and for one SQL statement
(`ServiceController.Controller`, the first methods of `ReEnrollment.World`,
`FilteredScan.Controller`, `KeysetPages.Store.Select`) are the environment and have
no row below.

Statements one might expect that are false of the code, each with its exact
condition:

- "The collector never deletes an unexpired row": it can if and only if the row's id
  is on a worklist, because the sweep does not look at the lease again
  (`LeaseProtocol.UnexpiredRowExposedIffListed`; a run that does it is
  `LeaseProtocol.RacingExtensionLosesUnexpiredRow`).
- "Retrying a create of a service converges": if and only if in no attempt the call
  that creates the service is executed and answered with an error while the process
  lives to execute the delete of a config that the attempt created. The condition
  (`ServiceCreation.Strips`) is on the fates of the calls of each attempt, by number.
  Crashes and plain failures alone never prevent it
  (`ServiceRequests.RetryCreateService`; a run that no number of further attempts
  repairs is `ServiceRequests.LostReplyStrips`).
- "A service answered for has the configs asked for": one that was there before carries
  a config, data included, if and only if it did before, or it held one of that name
  and the attempt's patch of that config was executed, which is again a condition on
  the fates of the calls (`ServiceRequests.CreateService`, by
  `ServiceRequests.AdoptedServiceCarries`; runs that answer success over what is not
  as asked for are `ServiceRequests.StaleConfigIsAnsweredFor` and
  `ServiceRequests.BareServiceStaysBare`).
- "Retrying the deletion of a runner or an app converges": if and only if no attempt
  took the row without removing the identity, because the row leads to the identity
  and is deleted first (`IdentityDeletion.OwnerDeletionConverges`; a stuck state is
  `IdentityDeletion.StuckAfterFailedIdentityDelete`).
- "An upgrade in stages equals one run", whatever the migrations do: if and only if
  what an early release has pending comes first, in order, in what the later has
  pending (`Migrations.TwoStagesIff`, for any number of stages
  `Migrations.StagesAgreeIff`; a pair that differs is
  `Migrations.LateEarlierFileDiffers`).
- "An update keeps one config per type": it does if listings say how many entries
  there are, or the attached config of the type, if any, is on the first page, or has
  the name the program would give it, so that an update that does not see it is
  refused (`ServiceUpdate.UpdateService`). Otherwise what is found is exactly what the
  first page shows (`ServiceUpdate.FindServiceConfigByType`), and a service can get a
  second config of the type (`ServiceUpdate.SecondOfItsType`).

## Model

The main results come first, then the operations and the results they rest on, and last
single steps of them.

| member | source | states |
|---|---|---|
| `LeaseProtocol.NotFoundIsDefinitive` | internal/store/store.go:142-154 | when an extension of an issued id is answered NotFound, the identity is already gone, and neither identity nor row is there at any later point of the run |
| `LeaseProtocol.NoOrphan` | internal/server/server.go:470-479 | over any run, every live identity has a row, or a request in flight, or was an orphan before, or was given up on by a step of the run |
| `LeaseProtocol.FaultlessRunsLeaveNoOrphan` | internal/ziti/client.go:1590-1596 | without crashes, lost creates and failed compensating deletes there are no orphans, however enrollments and INSERTs fail |
| `LeaseProtocol.RenewedIsNeverCollected` | internal/store/store.go:156-157 | with the database clock at most d ahead of the server's and every extension in time, the id is on no replica's worklist at any point of any run |
| `LeaseProtocol.RenewedRowStays` | internal/gc/gc.go:30-46 | under the same conditions the row, once inserted, is there at every later point |
| `LeaseProtocol.UnexpiredRowExposedIffListed` | internal/gc/gc.go:35-42 | an unexpired row can be removed by the replicas running on alone if and only if its id is still on a worklist |
| `LeaseProtocol.WithoutRacesOnlyExpiredRowsGo` | internal/gc/gc.go:30-47 | in a run where no extension is written for a listed id, every row that goes had expired |
| `LeaseProtocol.RacingExtensionLosesUnexpiredRow` | internal/gc/gc.go:35-42 | a concrete run: the holder asks for an extension while its lease stands, the extension is written after the listing, and the sweep can still remove the row, whose lease then runs on |
| `ServiceRequests.RetryCreateService` | internal/server/server.go:238-252 | from a state without the derived names, after any number of crashed, failed or misreported attempts: an attempt whose calls all work is answered; what is answered with has converged on the state before the first attempt plus the request, its configs being those given field by field, if and only if the fates of no attempt strip the new service; so always if replies are definite |
| `ServiceRequests.CreateService` | internal/server/server.go:218-261 | rejects an empty name or no role attributes without a call; otherwise, unless the process dies, answers exactly if the create works, or return_existing is set, the name is taken after it and both calls of the adoption work; the number of calls; for every answer on a name that was taken, exactly which of the configs asked for the service carries; for one that the create gave, the service and its configs field by field; in every outcome all services stay but for the role attributes of the adopted one; with definite replies the exact services and configs made, adopted or rolled back |
| `ServiceCreation.CreateServiceWithConfigsAndTags` | internal/ziti/client.go:570-620 | by the fates of its calls: it succeeds if and only if the configs get placed, the name is free and the create of the service works; success adds one service with the configs asked for; with definite replies failure is rolled back exactly; in every outcome, a crash or a lost reply included, no config or service that was there is deleted or changed except configs rewritten; while retrying, every outcome leaves only pieces of the request, the new service loses configs exactly under the stated condition on the fates, and success has converged |
| `ServiceCreation.ConvergedIsExact` | internal/ziti/client.go:570-620 | convergence has added exactly one service and exactly the configs it holds |
| `ServiceCreation.ConvergedIsUnique` | internal/ziti/client.go:702-705 | exactly one service has the name, and each config name belongs to one config, which is as asked for and attached |
| `ServiceCreation.SentIsAsAsked` | internal/ziti/client.go:575-619 | the service holds, host first, one config for each that the request gives, with the derived name, the data given and, unless it was there before, the type and the tags |
| `ServiceCreation.ConvergedIsAsAsked` | internal/ziti/client.go:570-620 | convergence means that the service and each config given, by name, type, data and tags, are there as the request describes them |
| `ServiceRequests.LostReplyStrips` | internal/ziti/client.go:615-618 | a run: the second call, the create of the service, is executed and answered with an error, every other call works; after any number of attempts the service answered with has no configs |
| `ServiceRequests.StaleConfigIsAnsweredFor` | internal/ziti/client.go:717-726 | a run of definite replies: the patch of the config fails, and the answer is success over a service whose config keeps its earlier data |
| `ServiceRequests.BareServiceStaysBare` | internal/server/server.go:243-250 | a service that was there without configs is answered for, and stays without |
| `ServiceUpdate.UpdateService` | internal/ziti/client.go:1281-1342 | on success: the exact new service, with the tags given if they are to be updated and there are any, no other service changed, and, unless a config of a type asked for is attached that is neither shown by the listings nor of the derived name, every config kept and the given ones in force; with no config in the request all configs unchanged; it succeeds if every call works, the listings show what is attached and no other config has a derived name |
| `ServiceUpdate.UpdateKeepsAttached` | internal/ziti/client.go:1286-1320 | an update detaches nothing, introduces no duplicate id and keeps "at most one config per type" |
| `ServiceUpdate.UpdateStoresData` | internal/ziti/client.go:1287-1320 | after an update the attached config of each requested type has the requested name and data |
| `ServiceUpdate.UpdatedAsGiven` | internal/ziti/client.go:1287-1322 | after an update the first attached config of each type given has the derived name and the data given; it has the tags given if it is new or tags are updated and there are any, and otherwise keeps its own |
| `ServiceUpdate.SecondOfItsType` | internal/ziti/client.go:1415-1417 | a run: without a total, a service whose config of the type is on the second page under another name gets a second one |
| `IdentityDeletion.OwnerDeletionConverges` | internal/server/server.go:352-367 | after any attempts the identity can still be removed if and only if none took the row, or the one that did removed the identity as well |
| `IdentityDeletion.OwnerServiceConverges` | internal/server/server.go:369-381 | the service that the row leads to can still be removed if and only if none took the row, or the one that did got as far as removing the service |
| `IdentityDeletion.RetriedDeletion` | internal/server/server.go:386-406 | through any failures: success is answered only once row and identity are gone, they stay gone, an attempt whose calls work succeeds, and nothing else is touched |
| `IdentityDeletion.StuckAfterFailedIdentityDelete` | internal/server/server.go:414-434 | a concrete state after one failed controller delete: the app is answered with success over a live identity that no retry removes, the runner with an error |
| `ReEnrollment.World.CreateRunnerIdentity` | internal/server/server.go:310-344 | no role attributes: rejected without a call or a change; otherwise, from any state: exactly when it succeeds; success ends with exactly one identity and one row for the runner, naming each other, all others unchanged; after an error the runner has the new identity exactly if the reply to the create was lost or the delete that takes it back failed, and else none once the create was called; it succeeds when every call from then on works, whatever failed before |
| `ReEnrollment.World.CreateAppIdentity` | internal/server/server.go:182-216 | no slug: rejected without a call or a change; otherwise the same for an app |
| `FilteredScan.WalkIsComplete` | internal/ziti/client.go:827-872 | a walk that follows the tokens from "" to "" returns exactly the matching items in controller order, none lost or repeated |
| `FilteredScan.WalkCompletes` | internal/ziti/client.go:827-872 | every walk can be completed: following the tokens terminates |
| `FilteredScan.WalkCost` | internal/ziti/client.go:835-871 | with N items, m matches and a constant limit L that the controller honours, at most max(1, ceil(N/L)) + floor(m/L) requests |
| `FilteredScan.Scan` | internal/ziti/client.go:827-872 | the page returned does not depend on the sizes in which the controller serves its data; without pagination metadata it is a prefix of that page; the exact number of requests when the limit is honoured |
| `ResourceLists.ServicesWalk` | internal/ziti/client.go:827-884 | a complete walk of services returns, once each and in order, exactly those with the name, the prefix and all the role attributes asked for |
| `ResourceLists.ServicePoliciesWalk` | internal/ziti/client.go:948-1013 | a complete walk of policies returns, once each and in order, exactly those with the name, prefix, type, identity roles and service roles asked for |
| `KeysetPages.WalkUnderChange` | internal/server/server.go:786-827 | over a complete walk under change: strictly increasing ids, none twice, and every row that matches throughout is returned |
| `KeysetPages.PagesOfUnchangingTable` | internal/store/store.go:82-128 | on an unchanging table of n matching rows a complete walk takes exactly max(1, ceil(n/limit)) pages |
| `ManagedIdentityListing.TokenWalkUnderChange` | internal/server/server.go:786-827 | a complete walk by tokens under change: strictly increasing ids, and every row that matches throughout |
| `PageToken.PageTokenRoundTrip` | internal/store/pagination.go:29-54 | a token decodes to its id for every valid Unicode id; the empty id is the only one refused |
| `Migrations.StagesAgreeIff` | internal/db/migrate.go:32-54 | stages agree with one run, whatever the files do, if and only if they apply the files in the order of one run |
| `Migrations.TwoStagesIff` | internal/db/migrate.go:32-54 | an early release and then a later one agree with one run over the later, whatever the files do, if and only if what is pending of the early comes first, in order, in what is pending of the later |
| `Migrations.StagedUpgrade` | internal/db/migrate.go:14-57 | upgrading through any number of sorted prefixes yields the database of one run over the whole |
| `RoleAttributes.PatchedMeaning` | internal/ziti/client.go:1086-1116 | the specification holds exactly (current + add) - remove, once each, in order of first occurrence |
| `RoleAttributes.FirstOccurrenceOrderIsUnique` | internal/ziti/client.go:1086-1116 | only one sequence has that meaning |
| `RoleAttributes.PatchRoleAttributes` | internal/ziti/client.go:1086-1116 | equals the specification: first occurrences in current and add, without remove, as a sequence |
| `AgentNames.AgentNameRoundTrip` | internal/ziti/client.go:464 | every name built at creation gives its agent back, whatever the suffix |
| `AgentNames.ParserMeaning` | internal/server/server.go:854-871 | the parser accepts exactly the prefix, a text form of the UUID, and then the end or a hyphen, and returns that UUID |
| `ServiceIdentityCalls.Deployment.RequestServiceIdentity` | internal/server/server.go:459-485 | is a run of the protocol; refuses an unspecified or unknown service type without a call; states success and the exact live identities and rows for every outcome of create, enrollment, INSERT and clean-up |
| `ServiceIdentityCalls.Deployment.ExtendIdentityLease` | internal/server/server.go:487-498 | is a run of the protocol; states which answer each case gets, that only the lease of that row changes, and that NotFound of an issued id is definitive |
| `ServiceIdentityCalls.Deployment.SweepServiceIdentities` | internal/gc/gc.go:29-51 | run alone, a sweep removes exactly the rows expired at the listing whose controller delete worked or found nothing and whose row delete took effect, and exactly the identities of expired rows whose controller delete took effect |
| `LeaseProtocol.InvStep` | internal/server/server.go:470-496 | every step of issuing, extending and sweeping keeps the protocol's invariant: ids are never reused, a request owns its id, the sweep deletes the identity before the row, and an issued id without a row is not live |
| `LeaseProtocol.InvReachable` | internal/gc/gc.go:29-51 | the invariant holds after any number of steps of any run, with any number of requests, extensions and replicas |
| `LeaseProtocol.RowGoesLast` | internal/gc/gc.go:35-47 | a row goes only by a sweep's row delete, of an id on that replica's worklist, and only once its identity is gone from the controller |
| `LeaseProtocol.LossLasts` | internal/server/server.go:487-498 | no step brings a lost identity or its row back |
| `LeaseProtocol.WithinLeaseThroughout` | internal/server/server.go:493-496 | extensions that commit within TTL - d of the previous lease's computation keep the clock within TTL - d of the current lease at every point of the run |
| `LeaseProtocol.SweepReaches` | internal/gc/gc.go:35-47 | whatever is on a worklist can be collected by letting the deletes before it fail |
| `ServiceIdentityCalls.Deployment.CreateAndEnrollIdentity` | internal/ziti/client.go:1462-1473 | is a run of the protocol; succeeds exactly if create and enrollment do; after a failed enrollment the identity stays exactly if the compensating delete failed |
| `ServiceIdentityCalls.Deployment.InsertServiceIdentity` | internal/server/server.go:475-479 | the lease is the server's reading plus the TTL; a failed INSERT takes the identity back unless that delete fails |
| `ServiceIdentityCalls.Deployment.ListExpiredServiceIdentities` | internal/store/store.go:156-175 | lists exactly the rows whose lease ends before now, once each, by expiry |
| `ServiceIdentityCalls.Deployment.SweepListing` | internal/gc/gc.go:35-49 | the loop tries every entry whatever becomes of the others, and changes exactly the identities and rows whose deletes took effect |
| `ServiceIdentityCalls.SweepCovers` | internal/store/store.go:157 | the listing covers the expired rows: what the loop deletes from it is what the table's contents say |
| `ServiceController.RemainingMeaning` | internal/ziti/client.go:576-577 | deleting configs strips exactly those from a service that holds them |
| `ServiceCreation.CreateOrAdoptConfig` | internal/ziti/client.go:706-728 | by the fates of its calls: creates the config, or finds the one of that name, which may be one whose own create lost its reply, and rewrites it; when that succeeds, what it leaves if it does not, and how many calls it takes |
| `ServiceCreation.CleanupConfigs` | internal/ziti/client.go:767-781 | deletes every listed config except exactly those whose own delete failed; something is deleted if and only if a delete is executed before the process dies |
| `ServiceCreation.CleanupRollsBack` | internal/ziti/client.go:576-578 | with definite replies, the configs left are those there before plus exactly the newly created ones whose delete failed; no adopted config is deleted |
| `ServiceCreation.StripKeepsWhole` | internal/ziti/client.go:576-577 | the new service has lost nothing if and only if it had not before and held none of the deleted configs |
| `ServiceCreation.RollBack` | internal/ziti/client.go:606-618 | a failed create answers with an error; with definite replies it has rolled back exactly; in any case nothing that was there is disturbed |
| `ServiceCreation.PlaceIntercept` | internal/ziti/client.go:599-613 | the same for the intercept config after the host config; if it fails, the host config is given back if it was created |
| `ServiceCreation.PlaceConfigs` | internal/ziti/client.go:575-613 | the configs are placed if and only if the fates of their calls say so, in how many calls; they have, in order, the names and data asked for; configs that were there have the data asked for exactly if they got rewritten |
| `ServiceCreation.CallCreateService` | internal/ziti/client.go:615 | the create of the service on its placed configs: when it answers, what it makes, that it may do so without saying so, and that a refusal without a lost reply leaves the state as it was |
| `ServiceCreation.CreatePlaced` | internal/ziti/client.go:615-619 | the service is created, or what was created for it is rolled back; the new service loses configs if and only if its create lost its reply, the name was free, and a delete of a created config is executed before the process dies |
| `ServiceCreation.CreateServiceWithoutConfigs` | internal/ziti/client.go:562-573 | the same for a service without configs |
| `ServiceCreation.ServiceConverges` | internal/ziti/client.go:615-619 | while retrying, creating the service on configs that have the names asked for completes exactly what the request asks for |
| `ServiceCreation.ConvergedIffWhole` | internal/ziti/client.go:570-620 | once the new service is there, a retry has converged if and only if no config of it was lost |
| `ServiceCreation.PlaceHost` | internal/ziti/client.go:579-598 | the host config is put in place exactly if its calls get it created, or found and rewritten; otherwise nothing is remembered as created |
| `ServiceRequests.AdoptService` | internal/server/server.go:243-250 | answers if and only if the name is taken and both calls work, with the service of that name after setting its role attributes and nothing else |
| `ServiceRequests.AdoptedServiceIsOurs` | internal/server/server.go:243-250 | while retrying, the service that is adopted is one an earlier attempt made, and adopting it changes nothing |
| `ServiceRequests.AdoptedServiceCarries` | internal/server/server.go:243-250 | a service that was there carries a config asked for, data included, if and only if it did before, or it held one of that name and the attempt got to rewrite it |
| `ServiceRequests.WorkingAttempt` | internal/server/server.go:238-252 | a request whose calls all work is answered for unless the name is taken and return_existing is not set |
| `ServiceRequests.DefiniteStripsNothing` | internal/ziti/client.go:615-618 | without lost replies no attempt of a run strips the new service |
| `ServiceUpdate.FindServiceConfigByType` | internal/ziti/client.go:1389-1424 | over non-empty pages of any size: the first attached config of the type, or none exactly if there is none, if listings give totals or the first page shows it whatever its size; without a total, exactly what the first page shows |
| `ServiceUpdate.UpsertServiceConfig` | internal/ziti/client.go:1363-1387 | patches the config that the scan finds, with tags only if asked to, or creates one if it finds none; that is the attached config of the type unless one is neither shown by the listing nor of the name asked for |
| `ServiceUpdate.AppendMissing` | internal/ziti/client.go:1426-1433 | adds the id exactly if it is not there |
| `ReEnrollment.World.ListIdentityIdsByExternalId` | internal/ziti/client.go:400-457 | over non-empty pages of any size: the ids of all holders of the external id, once each, in order |
| `ReEnrollment.World.DeleteIdentityByExternalId` | internal/ziti/client.go:387-398 | success leaves exactly the identities of other external ids, in order; failure touches no other |
| `ReEnrollment.World.DeleteListed` | internal/ziti/client.go:392-396 | deletes the listed identities in order up to the first error, and nothing else; not-found is no error |
| `ReEnrollment.World.CreateAndEnrollIdentity` | internal/ziti/client.go:1462-1473 | success adds exactly the new identity; failure adds it only if the reply to the create was lost or the compensating delete failed |
| `ReEnrollment.World.ReplaceIdentity` | internal/ziti/client.go:1501-1525 | success leaves the new identity as the only holder of the external id, and all others as they were |
| `ReEnrollment.World.ReplaceRow` | internal/server/server.go:330-338 | success leaves one row for the id, naming the new identity; failure takes the new identity back unless that delete fails; rows and identities of other ids are unchanged either way |
| `ReEnrollment.World.ReplaceOnBothSides` | internal/server/server.go:321-338 | success leaves exactly one identity and one row for the owner, naming each other, all others unchanged; the exact condition for it, and what an error leaves |
| `ReEnrollment.World.DeleteManagedAndZitiIdentity` | internal/server/server.go:386-406 | succeeds if and only if both deletes work; is `DeleteOnce` with the fates of its two calls, and what each leaves |
| `ReEnrollment.World.DeleteRunnerIdentity` | internal/server/server.go:346-384 | succeeds if and only if there is a row, lookup and both deletes work and, if the request or the row names a service, its delete works; the exact rows, identities and services, the service requested going before the one the row names; is `DeleteOwnerOnce` with the fates of its calls, and the next attempt finds the owner with one row or none |
| `ReEnrollment.World.DeleteAppIdentity` | internal/server/server.go:408-457 | succeeds if and only if a service is named, by the request or the row found, and lookup and all deletes work, those of row and identity only if there is a row; the exact rows, identities and services; is `DeleteOwnerOnce` with the fates of its calls, and the next attempt finds the owner with one row or none |
| `IdentityDeletion.DeleteKeepsAbsent` | internal/server/server.go:391-403 | one attempt: what it leaves absent, and that other rows and identities stay |
| `IdentityDeletion.RetryOutcome` | internal/server/server.go:346-457 | attempts come to nothing until one takes the row; what that one did to the identity stands |
| `IdentityDeletion.AppAnswerMeaning` | internal/server/server.go:414-456 | success for an app means that its identity is gone if and only if the attempt found the row or the identity was gone before |
| `IdentityDeletion.RunnerAnswerMeaning` | internal/server/server.go:352-383 | success for a runner means that row, identity and service are gone |
| `FilteredScan.TakeMatches` | internal/ziti/client.go:852-864 | the loop over one reply stops exactly at the item that fills the page |
| `FilteredScan.TakeTurn` | internal/ziti/client.go:835-871 | one turn finishes the page or goes on behind the data it was given, having lost and repeated nothing |
| `FilteredScan.PageEndMeaning` | internal/ziti/client.go:852-870 | the page holds exactly the matching items between its offset and its end, is full if it stops before the end of the data, and ends at a match |
| `FilteredScan.PaginationMeaning` | internal/ziti/client.go:338-352 | a page size above zero is the limit and any other means 100; no token means the beginning; an offset in decimal is accepted exactly if it fits 64 bits |
| `FilteredScan.AcceptedTokens` | internal/ziti/client.go:343-349 | every accepted token is an offset in decimal, possibly after zeros and a sign |
| `FilteredScan.PageIsUnique` | internal/ziti/client.go:852-870 | there is only one such page |
| `FilteredScan.PageSizes` | internal/ziti/client.go:854-862 | no page of a walk exceeds its limit, and a page with a token is full |
| `FilteredScan.WalkEnds` | internal/ziti/client.go:338-385 | a walk has at most one page more than there are matching items |
| `FilteredScan.NextPageIsAnswered` | internal/ziti/client.go:338-352 | a token that a walk got is accepted with any page size, and its page carries the walk on |
| `OffsetToken.OffsetRoundTrip` | internal/ziti/client.go:338-367 | an offset reads back from its token exactly if it fits 64 bits |
| `OffsetToken.DigitsMeaning` | internal/ziti/client.go:345 | a digit string parses exactly to the number it is in decimal, leading zeros aside |
| `ResourceLists.ListServices` | internal/ziti/client.go:827-884 | the page of the services selected by name that match prefix and role attributes; an error or that page if requests may fail; an error or a prefix of it without pagination metadata |
| `ResourceLists.ListServicePolicies` | internal/ziti/client.go:948-1013 | the page of the policies selected by name that match the other filters; an error or that page if requests may fail; an error or a prefix of it without pagination metadata |
| `ResourceLists.ListIdentitiesByTag` | internal/ziti/client.go:1152-1193 | the page of the identities with all the tags; an error or that page if requests may fail; an error or a prefix of it without pagination metadata |
| `ResourceLists.IdentitiesByTagWalk` | internal/ziti/client.go:1152-1193 | a complete walk by tag returns exactly the identities that have every required tag, a missing one counting as "" |
| `ResourceLists.ListServicesByTag` | internal/ziti/client.go:1195-1236 | the page of the services with all the tags; an error or that page if requests may fail; an error or a prefix of it without pagination metadata |
| `ResourceLists.ServicesByTagWalk` | internal/ziti/client.go:1195-1236 | the same for services |
| `ResourceLists.ListServicePoliciesByTag` | internal/ziti/client.go:1238-1279 | the page of the policies with all the tags; an error or that page if requests may fail; an error or a prefix of it without pagination metadata |
| `ResourceLists.ServicePoliciesByTagWalk` | internal/ziti/client.go:1238-1279 | the same for policies |
| `ResourceLists.FilterTwice` | internal/ziti/client.go:322-336 | filtering locally what the controller has filtered is filtering once with both conditions |
| `ResourceLists.LookupByName` | internal/server/server.go:299-308 | the lookup by name finds a service exactly if there is one of that name, and one of that name |
| `KeysetPages.NormalizePageSize` | internal/store/pagination.go:15-23 | a size from 1 to 100 is kept; none or a negative one is 50, a larger one 100 |
| `KeysetPages.Store.ListManagedIdentities` | internal/store/store.go:82-128 | the least matching rows after the cursor, at most the limit, and a cursor exactly if more are left |
| `KeysetPages.Truncated` | internal/store/store.go:121-127 | cutting off the extra row leaves a page whose cursor has all that is left behind it |
| `KeysetPages.ReturnedIncreasing` | internal/store/store.go:82-128 | with rows inserted and deleted between pages and page sizes varying, the ids returned so far increase strictly, up to the cursor |
| `KeysetPages.SteadyRowAhead` | internal/store/store.go:82-128 | a row that matches throughout is returned already or is ahead of the cursor |
| `KeysetPages.ReturnedMatched` | internal/store/store.go:82-128 | whatever is returned matched in the table of its page |
| `PageToken.Base64RoundTrip` | internal/store/pagination.go:29-54 | unpadded base64url decodes what it encodes (sections 3.2 and 5 of RFC 4648) |
| `PageToken.GroupMeaning` | internal/store/pagination.go:29-36 | three bytes and the four characters that they become are the same 24 bits (section 4 of RFC 4648) |
| `PageToken.SextetOrder` | internal/store/pagination.go:29-36 | the alphabet is the letters, the digits, "-" and "_", in this order (section 5 of RFC 4648) |
| `PageToken.StringRoundTrip` | internal/store/pagination.go:29-54 | a JSON string with escapes reads back as the text it was made from (section 7 of RFC 8259) |
| `PageToken.PageTokensAreDistinct` | internal/store/pagination.go:29-36 | different ids have different tokens |
| `ManagedIdentityListing.ListManagedIdentities` | internal/server/server.go:786-827 | fails on an unknown type, on a token that does not decode, if the query fails, or if a row of the page has a type that does not convert; otherwise the page behind the token's cursor, every row as stored and of the type asked for, and the token of the page's cursor |
| `ManagedIdentityListing.TokensCarryCursors` | internal/server/server.go:795-825 | the token of a page leads back to the cursor it was made from |
| `ManagedIdentityListing.TokenWalkIsWalk` | internal/server/server.go:795-825 | a walk by tokens is a walk by cursors, with the same ids, complete exactly if it is |
| `RoleAttributes.MergeRoleAttributes` | internal/ziti/client.go:270-281 | equals patching base with the additions and removing the empty string, as a sequence |
| `RoleAttributes.PatchIsIdempotent` | internal/ziti/client.go:1086-1116 | patching again with the same lists changes nothing, order included |
| `RoleAttributes.TwoPatches` | internal/ziti/client.go:1061-1084 | two patches leave the set (c + a1 + a2) - (r2 + (r1 - a2)) |
| `AgentNames.ParseMeaning` | internal/server/server.go:866-870 | 36 characters parse to a UUID exactly if they are its text form up to case (section 4 of RFC 9562) |
| `AgentNames.AgentNamesAreDistinct` | internal/ziti/client.go:464 | the name tells both the agent and the suffix |
| `Migrations.Database.ApplyMigrations` | internal/db/migrate.go:14-57 | all or nothing; it succeeds if and only if every file applies and no statement of the transaction fails, the commit included; success is the run over the files in name order |
| `Migrations.SortMeaning` | internal/db/migrate.go:26-32 | the files are taken in name order, each once |
| `Migrations.StatementCount` | internal/db/migrate.go:21-54 | the transaction has one statement for the table, one for each file, two more for each pending file, and the commit |
| `Migrations.DirectoriesSkipped` | internal/db/migrate.go:34-37 | directories change nothing and take no statement |
| `Migrations.RunRecords` | internal/db/migrate.go:32-54 | a run records exactly the files it saw, next to those recorded before |
| `Migrations.SecondRunIsNoOp` | internal/db/migrate.go:36-43 | a second run over the same files changes nothing |
| `Migrations.RunExecutes` | internal/db/migrate.go:32-54 | a run executes exactly the files not yet recorded, in order, and records the rest with them |
| `Migrations.OrderDecides` | internal/db/migrate.go:14-57 | stages that apply the files in the order of one run agree with it, for any contents and any kind of schema |
| `Migrations.LateEarlierFileDiffers` | internal/db/migrate.go:30-43 | a file that sorts before an applied one is run after it, with a different result |
| `Migrations.Database.ApplyFile` | internal/db/migrate.go:36-53 | one turn of the loop: the file is applied and recorded exactly if it applies and none of its statements fails |
| `ServiceCreation.PutInPlace` | internal/ziti/client.go:590-613 | one config of a create is put in place, and remembered as created exactly if the program was told so |
| `ServiceCreation.CleanUpOne` | internal/ziti/client.go:771-776 | one delete of the clean-up: the config is gone, from services too, or its delete failed |
| `ServiceRequests.TryCreate` | internal/server/server.go:238-242 | the create of the request, with the same contract on both of its branches |
| `ServiceRequests.OneAttempt` | internal/server/server.go:238-252 | one attempt: the new service is whole afterwards exactly if no attempt so far stripped it |
| `ServiceCreation.EnsuredKeepsPartial` | internal/ziti/client.go:706-728 | while retrying one request, creating or adopting keeps everything that was there before the first attempt and leaves the config as asked for |
| `ServiceCreation.StripKeepsRetrying` | internal/ziti/client.go:767-781 | deleting new configs takes nothing from what was there before the first attempt, whatever holds them |
| `ServiceUpdate.PageScanned` | internal/ziti/client.go:1408-1422 | a page that continues a fruitless scan settles it with its first match or leaves it fruitless |
| `ServiceCreation.GiveHostBack` | internal/ziti/client.go:604-608 | what was created for the host config is given back; no service changes |
| `ServiceCreation.GiveBackCreated` | internal/ziti/client.go:616-618 | the rollback after that call; with definite replies it is exact |
| `ServiceCreation.AdoptConfig` | internal/ziti/client.go:711-728 | rewrites the config of that name exactly if it is found and the patch is executed |
| `LeaseProtocol.OrphansStep` | internal/ziti/client.go:1462-1473 | one step adds to the orphans at most the id it gives up on: a lost create reply, a failed compensating delete, a crashed request |
| `ServiceUpdate.UpsertUpdates` | internal/ziti/client.go:1281-1320 | one upsert puts its config in force, keeps the earlier ones in force and touches nothing else |

## Left out

- gRPC and protobuf plumbing, status texts, logging and the converters: one branch each.
- Authentication: `withReauth` repeats an operation that was refused as unauthorized, which had no effect, so it is transparent here.
- TLS, certificates, JWT parsing and the enrollment exchange: a step that works or fails.
- Creation of agent, sandbox, device and tunnel identities: a create without compensation; only the agent's name is modelled.
- The endless ticker of `RunServiceIdentityGC`: a sweep may start at any point of a run of `LeaseProtocol`.
- `ResolveIdentity`: a lookup and one fallback through `AgentNames.ParseAgentIdentityName`.
- Owners with more than one row: the link of the deletions to `DeleteOwnerOnce` is stated for an owner with one row or none, which is what re-enrolment leaves.
- The JSON of config data and its optional fields: config data is an opaque string.
- The wire form of requests: which unset or empty fields of a body are sent. The model sends what the program sets, and no tags where `tagsFromMap` gives none.
- Listing entries without an id or a type: an error or a skipped entry.
- Offset scans while the controller's contents change, and offset tokens near 2^63 that the code did not issue.
- `PageToken.PageTokenRoundTrip`: tokens not made by `EncodePageToken` but accepted by the JSON library (white space, further or differently cased keys) are refused by the model's decoder; strings that are not valid Unicode do not exist in it.
- Trimming of white space in request fields: strings come trimmed.
- `append(base, additional...)` may write into the spare capacity of `base`; sequences have none.
- `Migrations.Database.ApplyMigrations`: a commit whose reply is lost counts as not done.
- `ServiceUpdate.UpdateService`: nothing is said of a failed update, which does not roll back and does not adopt an orphan config.
- `ReEnrollment.World.CreateRunnerIdentity`: two racing calls for the same runner are not modelled; the result is claimed for sequential calls.
- `ServiceController` numbers services and configs; the controller's ids are opaque strings.
