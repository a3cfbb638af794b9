# Verified model of the application framework's core

This project models the parts of the framework whose correctness is hardest to see by
reading one function, and proves what they are for:

- **Module graph** (`ModuleGraph`, `ModuleWalk`, `WalkInvariant`, `WalkRecords`,
  `Registration`, `EagerRegistry`). Names, ordinary and forward imports, and the depth-first walk that
  registers them. The walk is one recursive function with a mode, because the eager registry
  and the lazy loader run the same search with different checks; the class `ModuleRegistry`
  updates `registered`, `active`, `pending` and `visiting` in place, method by method as the
  source does, and every method is proved to perform exactly that function.
- **Lazy loading** (`LazyLoading`, `LazyHistory`, `LazyRace`, `LazyLoader`). One load on its
  own; every interleaving of concurrent loads; a concrete interleaving that breaks object
  identity; and the classes with their shared map.
- **Life cycle** (`Lifecycle`, `Application`). Hook schedules, runs that stop at the first
  failing hook, and the managed handle.
- **Routing** (`Paths`, `Prefixes`, `Hosts`, `Versioning`, `Dispatch`, `RouteLookup`,
  `RouteAgreement`). Matching, prefixes, shape keys, specificities, dispatch, allowed methods
  and what they say about calls, and the uniqueness check at build time.
- **Queue and scheduler** (`LeaseStore`, `QueueWorkers`, `QueueBackend`, `QueueTrace`,
  `Scheduler`). Workers over a store that fences calls by lock token, as a step machine; the
  program of one claim, tied to that machine; and the objects that start and stop workers.
- **Codecs** (`Sse`, `Query`, `Cookies`) against decoders and serializers written from the
  standards: section 9.2.6 of the HTML Living Standard, section 5.2 of the URL Standard,
  section 2.1 of RFC 3986 and section 4.2.1 of RFC 6265.
- **Stores** (`CacheStore`, `Transactions`, `Database`). The lazily evicting cache against a
  specification on its history, and in-memory transactions at the granularity of single lock
  sections, with the classes as sequential runs of that machine.

`Results` and `Text` hold the shared result types and the splitting, joining, trimming and
decimal functions.

Time is a natural number and appears as a parameter. Provider containers are identities: a
`Handle` names a module and the pair of containers made for it. What a module does when its
own providers and exports are registered is the flag `setupFails`; whether hooks succeed is an
arbitrary function of how many were called before; and whether a runtime is up, a cron
expression parses, a factory succeeds or a store accepts a call is an argument.

## Findings

- **A forward import decides by where the search starts.** If `a` imports `b` forward and `b`
  imports `a` ordinarily, registering `b` first succeeds and registering `a` first is refused
  as cyclic (`Registration.OutcomeDependsOnRoot`). A graph without module faults registers
  from every list of roots if and only if it has no closed walk that ends with an ordinary
  import (`Registration.EveryRootRegistersIff`); from the module such a walk leads to, it
  never does (`Registration.GenuineCycleIsRejected`).
- **The uniqueness check leaves one ambiguity.** An unrestricted route and a route restricted
  to a host pattern that is a single parameter have equal specificity but different host keys,
  so both pass the build (`Dispatch.AmbiguousHostsDependOnOrder`). In a built application, a
  request whose method the chosen route accepts goes to the same route in every order of the
  table if and only if no such route of the same method, path shape and version matches it
  equally well (`Dispatch.OrderIsIrrelevantIffNoConflict`). A refused method stays refused in
  every order, and which route refuses it depends on the order if and only if there are
  several (`Dispatch.RefusalIgnoresTableOrder`, `Dispatch.OrderIsIrrelevantIff`).
- **The methods reported for a path need not be those that a call accepts**, for three
  reasons. By path alone a wildcard that takes no segment makes a route more specific, and in a
  call less specific: with `GET /a` and `POST /a/{*r}` the path `/a` allows only POST, and a
  POST to it is handed to the GET route and refused (`RouteAgreement.AllowedMethodCanBeRefused`).
  A route restricted to another host is reported, and the call finds nothing
  (`RouteAgreement.ReportedForAnotherHost`). And a version in a header is not seen by the path,
  so a route that only serves versions is not reported and the call is accepted
  (`RouteAgreement.HeaderVersionIsNotReported`). For every table, whatever the methods of its
  routes, reported and accepted methods are the same if and only if path and request choose the
  same routes (`RouteAgreement.MethodsAgreeIff`). With the same version candidates that is the
  case exactly when every most specific route by path accepts the host and none is beaten once
  hosts count (`RouteAgreement.SameChoiceIffReached`); without host restrictions, exactly when
  none continues another match by a parameter or wildcard
  (`RouteAgreement.HostFreeMethodsAgreeIff`). The same condition on the one route found decides
  whether a lookup by path and method agrees with the call
  (`RouteAgreement.LookupAgreesWithCallIff`).
- **A cyclic import can be reported as an invalid route path.** The prefix of a repeated module
  is joined before the cycle is noticed. For valid prefixes without a wildcard the join is
  refused exactly when the prefix above already has a parameter of the module's own
  (`Registration.RepeatedModuleError`).
- **A neutral route overlaps a route with an empty version list** although no request is
  served by both; this is the only way in which `overlaps` and "some version is served by
  both" differ (`Versioning.OverlapsIffCommonVersion`).
- **Overlapping lazy loads lose identity, never closure.** A parent can keep seeing a child
  container that lost the race for the cache (`LazyRace.OverlappingLoadsCanBeIncoherent`),
  exactly when one of the copies it was built against was already cached by the time its batch
  was inserted (`LazyHistory.CoherentIffNoCopyLost`).
- **`remove` of the cache tells whether an expired entry was looked up** since it expired
  (`CacheStore.RemovalLeaksEviction`); `CacheStore.RemoveAgreesWithGetIff` says when it agrees
  with a lookup.
- **An accepted statement can be missing from a committed transaction** when a call checks the
  transaction before it is finished and appends after the copy
  (`Transactions.UnquietFinishCanLose`); a caller that awaits its calls first is safe
  (`Transactions.QuietFinishIsComplete`).
- **A lease shorter than 3 ns expires before the first heartbeat**, which is then 1 ms
  (`LeaseStore.ThreeHeartbeatsPerLease`).
- **A shutdown or removal between the sections of `schedule` leaves a loop behind** in a
  stopped scheduler, or without its job (`Scheduler.InterruptionLeavesLoop`);
  `Scheduler.InterruptedIsConsistentIff` gives the exact condition for every sequence of calls
  in between, for the roll-back too. The roll-back takes out whatever job has the name by then,
  which can be another caller's (`Scheduler.RollBackCanTakeAnother`); only that, a removal or a
  clearing can make a registered job go (`Scheduler.JobSurvivesInterleaving`). A shutdown inside
  `start` leaves loops as well (`Scheduler.ShutdownInsideStartLeavesLoop`).
- **A shutdown and a restart inside the start of a queue double its workers**
  (`QueueBackend.RestartInsideStartDoublesWorkers`);
  `QueueBackend.InterruptedStartIsStaffedIff` says when the full set results.
- **A job id can be used again.** Once a finished job is gone from the store, a job may be
  enqueued under its id and ended once more (`QueueWorkers.FreeIdCanEndAgain`); without such
  an enqueueing no call has any effect on it (`QueueWorkers.JobEndsAtMostOnce`).

## Model

| member | source | states |
|---|---|---|
| ModuleWalk.Visit | src/app/registration.rs:69-126 | every visit of a module, eager or lazy, successful or failing, terminates, leaves the stack of visited modules and the active modules as it found them, and keeps the stack free of repetitions, equal to the active keys and disjoint from the registered ones |
| ModuleWalk.VisitNew | src/app/registration.rs:87-104 | the same for a module that is entered, and left again on every path |
| ModuleWalk.VisitAll | src/app/registration.rs:221-227 | the same for the loops over a module's imports and forward imports |
| ModuleWalk.ModulePrefixSegments | src/app/registration.rs:546-557 | a module without a prefix has its parent's; otherwise the prefix has the parent's segments followed by its own, and fails only for an invalid route path |
| WalkRecords.VisitRecords | src/app/registration.rs:69-126 | whatever a successful visit records has no fault of its own, and in the eager registry the route prefix that the prefixes of the modules above it and its own make up |
| WalkRecords.RoutePrefixesAreJoined | src/app/registration.rs:84-278 | after a successful registration every entry has a path of imports from a root to it along which the own prefixes, joined one after the other, give its route prefix, whose segments are theirs, concatenated in order |
| WalkRecords.SolidPrefixes | src/app/registration.rs:546-557 | the non-empty segments of a module's prefix are those of its parent's prefix and then its own |
| WalkRecords.ImportsAreRecordedInOrder | src/app/registration.rs:221-275 | a root whose imports are leaves is recorded after them, ordinary imports first and then forward imports, each in the order listed |
| Paths.JoinedSegments | src/routing/path.rs:27-47 | a joined path has the segments of the prefix followed by those of the path, slashes between them aside |
| Prefixes.JoinablePathsJoin | src/routing/path.rs:19-47 | valid prefixes without a wildcard and without a shared parameter always join, to such a prefix with the parameters of both |
| Prefixes.JoinablePathsJoinIff | src/routing/path.rs:27-47 | valid prefixes without a wildcard join if and only if they share no parameter |
| WalkInvariant.CycleIsGenuine | src/app/registration.rs:400-412 | when an active module is imported ordinarily, the reported chain is a closed walk of the import graph whose last edge is an ordinary import |
| WalkInvariant.VisitKeeps | src/app/registration.rs:69-126 | a visit keeps the whole invariant: pending lists the registered modules once each, ordinary imports strictly earlier, each entry linked edge by edge to the handles of its imports; what it adds is reachable, and a failure has a cause in the reachable graph |
| WalkInvariant.VisitNewKeeps | src/app/registration.rs:210-278 | the same for entering a module, registering its imports and recording it |
| WalkInvariant.VisitAllKeeps | src/app/registration.rs:221-227 | the same for a list of edges, each resolved to the handle under which its target is registered, active or cached |
| Registration.RegisterAllKeeps | src/app/builder.rs:474-477 | registering a list of roots keeps the invariant, registers all of them and nothing they do not reach |
| Registration.RegistrationIsTopological | src/app/registration.rs:65-126 | when all roots register, pending lists exactly the modules reachable over either kind of import, each once, every ordinary import strictly earlier, and each entry holds the very handles its imports ended up with, even those a forward import saw half built |
| Registration.RegisteredIsClosed | src/app/registration.rs:210-278 | with nothing active, the registered modules are closed under both kinds of import |
| Registration.FailureIsGenuine | src/app/registration.rs:69-126 | every error of a registration has a cause among the reachable modules; a cyclic-import error carries a closed walk ending in an ordinary import |
| Registration.AcyclicGraphNeverCyclic | src/app/registration.rs:400-412 | a graph without closed walks over either kind of import never raises the cyclic-import error |
| Registration.OrdinaryCycleIsRejected | src/app/registration.rs:69-105 | a reachable cycle of ordinary imports is never registered, whatever else the graph holds |
| Registration.SucceedsIffNoCycleReachable | src/app/registration.rs:69-105 | without forward imports and module faults, with parameters in prefixes, registration succeeds if and only if the roots reach no cycle |
| Registration.FaultFreeFailureIsCyclic | src/app/registration.rs:69-126 | without module faults, with any imports and with parameters in prefixes, registration can only fail where the roots reach a genuine cycle |
| Registration.PrefixFailureIsCyclic | src/app/registration.rs:84-85 | without module faults a prefix is refused only where the search has run into a genuine cycle |
| Registration.RepeatedModuleError | src/app/registration.rs:84-85 | an ordinary import of an active module gets the cyclic-import error if and only if the prefix above shares no parameter with the module's own, and else that of an invalid route path |
| Registration.SoleRootIsLast | src/app/registration.rs:253-275 | a single root that registers is recorded last |
| Registration.GenuineCycleIsRejected | src/app/registration.rs:69-126 | whatever the graph, a closed walk that ends with an ordinary import is refused when the search starts at the module that import leads to |
| Registration.EveryRootRegistersIff | src/app/registration.rs:69-126 | a graph without module faults registers from every list of roots if and only if it has no closed walk ending with an ordinary import |
| Registration.OutcomeDependsOnRoot | src/app/registration.rs:107-126 | a two-module graph that registers from one root and is refused from the other |
| EagerRegistry.ModuleRegistry.EnterModule | src/app/registration.rs:400-412 | push the name, or refuse it with the part of the stack from its first occurrence on |
| EagerRegistry.ModuleRegistry.ExitModule | src/app/registration.rs:414-416 | pop the innermost name and touch nothing else |
| EagerRegistry.ModuleRegistry.RegisterModule | src/app/registration.rs:65-67 | in place, exactly the walk's visit of a root |
| EagerRegistry.ModuleRegistry.RegisterModuleWithPrefix | src/app/registration.rs:69-105 | in place, exactly the walk's visit over an ordinary import, errors and restored fields included |
| EagerRegistry.ModuleRegistry.RegisterForwardModuleWithPrefix | src/app/registration.rs:107-126 | in place, exactly the walk's visit over a forward import, which reuses an active module |
| EagerRegistry.ModuleRegistry.RegisterImports | src/app/registration.rs:221-223 | the loop over ordinary imports is the walk over those edges |
| EagerRegistry.ModuleRegistry.RegisterForwardImports | src/app/registration.rs:224-227 | the loop over forward imports is the walk over those edges |
| EagerRegistry.ModuleRegistry.RegisterModuleInner | src/app/registration.rs:210-278 | both loops, then the module's own set-up, then its entry at the end of pending and its registration |
| EagerRegistry.ModuleRegistry.RegisterRoots | src/app/builder.rs:474-477 | the builder's loop over the roots is the walk's registration of all of them |
| LazyLoading.InsertAll | src/app/lazy.rs:331-339 | a batch insertion never changes a cached entry and adds exactly the names of the batch |
| LazyLoading.InsertedEntry | src/app/lazy.rs:331-339 | an entry of a batch is inserted when its name was free |
| LazyLoading.BatchFacts | src/app/lazy.rs:190-210 | a finished private build holds local modules that were not cached when it began, each linked to imports of its own batch or of the cache |
| LazyLoading.LoadAloneIsExact | src/app/lazy.rs:113-127 | a failed load leaves the cache as it was; a successful one adds exactly the uncached modules it reaches, none global, each seeing the containers cached under its imports' names, and finds its result |
| LazyLoading.LoadSucceeds | src/app/lazy.rs:113-127 | a cached name always loads; an uncached one never when validating or initialising fails, and otherwise whenever no uncached reachable module has a blank name, is global or fails to be set up, and there is no genuine cycle of uncached ones; what is then cached has no such fault |
| LazyLoading.BuiltIsSound | src/app/lazy.rs:156-210 | a finished private build holds no blank name, no global module and none that fails to be set up |
| LazyLoading.SeededCacheIsClosed | src/app/builder.rs:495-497 | after a build the seeded cache holds exactly the reachable modules, is closed under both kinds of import, and every module in it sees the cached containers |
| LazyHistory.HistoryIsSound | src/app/lazy.rs:331-339 | in every interleaving of lazy loads, at every moment, the cache has only grown and is closed under imports |
| LazyHistory.CacheIsClosedAndStable | src/app/lazy.rs:322-339 | in every interleaving a cached name keeps its container for ever and its imports are cached whenever it is |
| LazyHistory.SuccessIsCached | src/app/lazy.rs:113-127 | what a successful load returns is the container that stays cached under its name |
| LazyHistory.LoadsAgree | src/app/lazy.rs:113-127 | in every interleaving all successful loads of one name return the same container |
| LazyHistory.LoadedIsAlwaysCached | src/app/lazy.rs:442-446 | the error for a module that was initialized but is not cached is unreachable, in every interleaving |
| LazyHistory.LoadInHistorySucceeds | src/app/lazy.rs:113-127 | the same among other loads, with what the load's first lookup saw as the cache |
| LazyHistory.OwnersInsertedBefore | src/app/lazy.rs:331-339 | every cached container was seeded or was made by a load that inserted its batch before |
| LazyHistory.CoherentIffNoCopyLost | src/app/lazy.rs:156-210 | under concurrency a newly cached module sees the cached containers of its imports, from its insertion on for ever, if and only if none of its own copies of them had lost the race when its batch was inserted |
| LazyRace.OverlappingLoadsCanBeIncoherent | src/app/lazy.rs:113-127 | a concrete valid interleaving in which a parent is left with a child container that is not the cached one |
| LazyLoader.LazyModuleRegistry.SeedModules | src/app/lazy.rs:326-329 | seeding overwrites, in order |
| LazyLoader.LazyModuleRegistry.CacheModules | src/app/lazy.rs:331-339 | in place, exactly the first-writer-wins insertion |
| LazyLoader.LazyModuleLoader.LoadArc | src/app/lazy.rs:113-127 | look up, build privately, validate and initialise, insert, look up again: exactly the load proved above |
| LazyLoader.LazyModuleLoader.RegisterArcInner | src/app/lazy.rs:156-188 | in place on the private graph, exactly the lazy walk's visit |
| LazyLoader.LazyModuleLoader.RegisterNewModule | src/app/lazy.rs:173-187 | enter, register the imports, leave on every path, record |
| LazyLoader.LazyModuleLoader.RegisterEdges | src/app/lazy.rs:190-200 | the loops over imports are the walk over those edges |
| LazyLoader.LazyModuleLoader.RegisterLazyModule | src/app/lazy.rs:190-210 | ordinary imports, then forward imports, then the module's own set-up |
| Lifecycle.RunCallsPrefix | src/app/application.rs:357-412 | a run calls a prefix of its schedule: all of it exactly when no hook fails, otherwise up to and including the first failing one |
| Lifecycle.FinalizeOrder | src/app/registration.rs:357-374 | every module is validated and started before any is initialised, and modules are initialised in the order of pending |
| Lifecycle.BootstrapOrder | src/app/application.rs:357-369 | bootstrap hooks run module by module in registration order |
| Lifecycle.ShutdownOrder | src/app/application.rs:381-412 | each of the three shutdown phases goes through the modules in reverse, and begins after all of them have gone through the one before |
| Lifecycle.FinalizeIs | src/app/registration.rs:357-500 | finalisation is exactly: validate each module, start the singletons of each, and then for each initialise the providers, call the init hook and wire it up |
| Lifecycle.BootstrapIs | src/app/application.rs:357-369 | bootstrap is exactly: for each module in order its provider hooks and then its own hook, and after all of them each gateway |
| Lifecycle.ShutdownIs | src/app/application.rs:381-413 | shutdown is exactly three rounds in reverse, each calling a module's own hook and then its providers': to destroy, before the shutdown, and for it |
| Lifecycle.ImportComesBefore | src/app/registration.rs:210-278 | in a built application an imported module stands before its importer |
| Lifecycle.ImportsOrderHooks | src/app/application.rs:357-412 | end to end, in every complete or failing run: an imported module's init and bootstrap hooks run before its importer's, and in each shutdown phase the importer's run first |
| Lifecycle.NothingInitialisesEarly | src/app/registration.rs:357-374 | no run, complete or failing, initialises a module before all modules are validated and their singletons started |
| Application.BootApplication.Finalize | src/app/registration.rs:357-374 | the three loops call exactly the schedule up to the first failure, and publish a prefix of pending, all of it on success |
| Application.BootApplication.Bootstrap | src/app/application.rs:357-369 | the loops call exactly the bootstrap schedule up to the first failure |
| Application.BootApplication.Shutdown | src/app/application.rs:381-412 | the three reverse loops call exactly the shutdown schedule up to the first failure |
| Application.BootApplicationHandle.Init | src/app/handle.rs:88-100 | bootstrap once; a failing bootstrap is followed by one shutdown attempt and its own error is returned |
| Application.BootApplicationHandle.Close | src/app/handle.rs:110-121 | shut down when initialised; a failed attempt leaves the handle initialised so that it can be closed again |
| Application.BootApplicationHandle.ListenWith | src/app/handle.rs:123-147 | bootstrap, serve, close in any case; a serving error wins over a closing error |
| Application.PerformCalls | src/app/handle.rs:88-147 | after any sequence of calls on a handle, with any hook failures, there is a shutdown attempt between any two bootstraps, and the handle counts as initialised exactly from a successful bootstrap until a successful shutdown |
| Paths.MatchPathShape | src/routing/path.rs:85-107 | the scan over both paths decides the segment-wise match, including a wildcard that takes any number of remaining segments, also none |
| Paths.RouteMatchesIff | src/routing/path.rs:85-107 | a valid route matches exactly the paths with as many segments, or at least as many as stand before a wildcard at the end, that are equal wherever the route has no parameter |
| Paths.FilledPathMatches | src/routing/path.rs:85-107 | filling the parameters of a valid route with any slash-free texts, and its wildcard with any number of them, gives a path that matches |
| Paths.WrittenSegments | src/routing/path.rs:168-184 | a plain name in braces is a parameter, with a star a wildcard, and without braces a literal |
| Paths.RoutePathValidIff | src/routing/path.rs:5-17 | valid are exactly the rooted paths without query and fragment whose segments are brace-free, parameters, or a wildcard at the end, with no name twice |
| Paths.TiedPathsShareShapeKey | src/routing/path.rs:109-157 | two route paths that match the same request with equal specificity have equal shape keys |
| Paths.SameKeyMatchesSamePaths | src/routing/path.rs:109-128 | valid route paths with equal shape keys match exactly the same request paths |
| Paths.WildcardIsLast | src/routing/path.rs:186-210 | in a valid path a wildcard is the last segment |
| Paths.ShapeTextsFromKey | src/routing/path.rs:109-128 | the shape of a valid path can be read back from its key |
| Hosts.TiedHostsShareKey | src/routing/host.rs:45-88 | two host restrictions that accept the same host with equal specificity have equal keys, but for an absent one against a single parameter |
| Hosts.AmbiguousHostsTie | src/routing/route/definition.rs:315-321 | that exception is real for every single-parameter pattern and every one-part host |
| Hosts.SameHostKeyMatchesSameHosts | src/routing/host.rs:45-71 | valid host patterns with equal keys match exactly the same hosts |
| Hosts.HostMatchesIff | src/routing/host.rs:45-57 | a pattern accepts a host, with or without a port, exactly when they have as many labels, equal but for letter case wherever the pattern has no parameter |
| Hosts.WrittenHostParams | src/routing/host.rs:111-117 | a plain name in braces or behind a colon is a parameter, and by itself is not |
| Hosts.HostOfHeader | src/routing/host.rs:90-102 | a port is ignored, and so are the brackets of an address and what follows them |
| Hosts.CaseIsIgnored | src/routing/host.rs:45-57 | ASCII letters are compared without regard to case, everything else as it is |
| Hosts.HostPatternValidIff | src/routing/host.rs:4-18 | valid are exactly the patterns that are not blank, hold no whitespace and no path characters, and whose labels are plain or parameters, with no name twice |
| Versioning.BuildVersions | src/versioning.rs:114-127 | the list holds each non-empty version of the input once, in the order of first occurrences, and nothing else |
| Versioning.OverlapsIffCommonVersion | src/versioning.rs:141-170 | two routes overlap if and only if some request version, possibly none, is served by both, or one is neutral and the other serves nothing; in the latter case no version is served by both |
| Versioning.CommonVersion | src/versioning.rs:158-170 | a version that two overlapping routes both serve |
| Versioning.ServesWhat | src/versioning.rs:141-156 | a neutral route serves every request, an unspecified one those without a version and for the default, one with a list those for a listed version, and those without a version when the default is listed |
| Dispatch.LexTotal | src/app/application.rs:510-533 | the comparison of specificities is a strict total order |
| Dispatch.LexTransitive | src/app/application.rs:510-533 | and transitive |
| Dispatch.BestSpecificity | src/app/application.rs:510-576 | the search finds the first candidate with a match of greatest specificity, or nothing exactly when nothing matches |
| Dispatch.BestIsUnique | src/app/application.rs:510-576 | there is only one such result |
| Dispatch.MatchingRoute | src/app/application.rs:535-550 | the first route of that specificity with a suitable method, or none exactly when there is none |
| Dispatch.Call | src/app/application.rs:249-302 | exact method first, then wildcard, then any; not found exactly when no route matches any candidate, so that the final fallback is unreachable |
| Dispatch.DispatchIsMostSpecific | src/app/application.rs:249-302 | the chosen route matches, no match of any candidate is more specific, and exact methods are preferred to wildcards and wildcards to refusals |
| Dispatch.ValidateUniqueRoutes | src/app/builder.rs:904-942 | the nested loops accept a table exactly when no two routes are duplicates, and otherwise name one that duplicates an earlier one |
| Dispatch.DuplicateIsGenuine | src/app/builder.rs:904-942 | rejected routes accept exactly the same paths and hosts and share a version they serve |
| Dispatch.SpecificitySplits | src/app/application.rs:625-630 | path part and host part can be read back from a combined specificity |
| Dispatch.TiedRoutesAreOne | src/app/builder.rs:904-942 | in a built application two routes for one method that accept a request with equal specificity are the same route or in conflict: same path shape, a common version, and ambiguous hosts |
| Dispatch.OneRoutePerShapeAndVersion | src/app/builder.rs:904-942 | in a built application at most one route of a method, path shape and host shape serves a given version |
| Dispatch.DispatchInBoth | src/app/application.rs:249-302 | in another order of the table a request goes to the same candidate and to a route of the same specificity and suitability |
| Dispatch.RivalGoesFirst | src/app/application.rs:249-302 | with an equally specific and suitable route moved to the front, the request goes there instead |
| Dispatch.ToFrontStaysUnique | src/app/builder.rs:904-942 | moving a route to the front leaves a table that passes the uniqueness check |
| Dispatch.OrderIsIrrelevantIff | src/app/application.rs:249-302 | for every table, request and method, accepted or refused: the request goes to the same route in every order of the table if and only if no other route of that specificity for that candidate is just as suitable |
| Dispatch.OrderIsIrrelevantIffNoConflict | src/app/builder.rs:904-942 | in a built application and for an accepted method, if and only if no route in conflict with the chosen one matches the request equally well |
| Dispatch.DispatchIgnoresTableOrder | src/app/application.rs:249-302 | in a built application without conflicts the route chosen for an accepted method does not depend on the table order |
| Dispatch.RefusalIgnoresTableOrder | src/app/application.rs:249-302 | a request refused in one order of the table is refused in every order, by a route of the same specificity |
| Dispatch.AmbiguousHostsDependOnOrder | src/app/builder.rs:904-942 | for every unrestricted route and single-parameter host the check passes both orders and the first route wins |
| RouteLookup.RouteFor | src/app/application.rs:471-502 | the exact route of greatest specificity for the method, else a wildcard route, else none |
| RouteLookup.AllowedMethods | src/app/application.rs:154-188 | the methods of the routes of greatest specificity, each once, or all standard ones when a wildcard is among them |
| RouteLookup.AllowedIffRouteResolves | src/app/application.rs:154-188 | a standard method is allowed on a path if and only if a route resolves for it |
| RouteAgreement.OrderWithHostPart | src/app/application.rs:625-630 | how the host part of a route without host restriction changes the order of path specificities |
| RouteAgreement.LookupAgreesWithCallIff | src/app/application.rs:471-576 | for every table, the route found by path and method is the one a call with the same candidates is handed to if and only if it accepts the host and no route matching the request is more specific by path and host |
| RouteAgreement.ReachedIsBest | src/app/application.rs:552-576 | such a route settles the best match of the call |
| RouteAgreement.ReportedIs | src/app/application.rs:154-188 | a standard method is in the list of a path exactly when some most specific route by path accepts it |
| RouteAgreement.AcceptedIs | src/app/application.rs:249-302 | a call is handed to a route that accepts its method exactly when some most specific route by path and host does |
| RouteAgreement.MethodsAgreeIff | src/app/application.rs:154-188 | for every table, host and candidates: whatever methods its routes have, those reported are those accepted, if and only if path and request choose the same routes |
| RouteAgreement.OtherChoiceDisagrees | src/app/application.rs:154-188 | with POST for a route that only one of the two chooses and GET for the others, they disagree about POST |
| RouteAgreement.SameChoiceIffReached | src/app/application.rs:510-576 | with the same candidates, path and request choose the same routes if and only if every most specific route by path accepts the host and is beaten by no match once hosts count |
| RouteAgreement.HostFreeReachedIff | src/app/application.rs:510-576 | without host restrictions, that holds exactly when the best match by path does not continue another match by a parameter or wildcard |
| RouteAgreement.HostFreeMethodsAgreeIff | src/app/application.rs:154-188 | there, reported and accepted methods are the same for every choice of methods exactly under that condition |
| RouteAgreement.HostFreeReportIsAccepted | src/app/application.rs:154-302 | and under it a standard method is in the list of the path exactly when a call with it is accepted |
| RouteAgreement.AllowedMethodCanBeRefused | src/app/application.rs:154-188 | a table on which the one allowed method is handed to a route that refuses it |
| RouteAgreement.ReportedForAnotherHost | src/app/application.rs:154-188 | for every route whose path matches and whose host does not, the path reports its methods and the call finds nothing |
| RouteAgreement.HeaderVersionIsNotReported | src/versioning.rs:68-95 | for every unrestricted route that serves a version but no request without one, a version in a header leaves the path's list empty and the call accepted |
| LeaseStore.ThreeHeartbeatsPerLease | src/queue.rs:837-844 | heartbeats are positive, and three of them fit into a lease exactly when it is at least 3 ns long |
| QueueWorkers.StepKeeps | src/queue.rs:712-835 | every step of workers, clock, processors, store and shutdown keeps tokens unique, calls own and final calls final |
| QueueWorkers.EveryClaimIsDisciplined | src/queue.rs:743-835 | in every interleaving a claim calls the store only with its own job and token, at most once to complete, fail or release, and never after that |
| QueueWorkers.RestLastsUntilEnqueued | src/queue/postgres/store.rs:267-530 | a job that is over or not stored stays so, and no call has any effect on it, in every run that does not enqueue its id |
| QueueWorkers.JobEndsAtMostOnce | src/queue/postgres/store.rs:439-530 | after a job was completed or failed for good, kept or deleted, no call has any effect on it until its id is enqueued again |
| QueueWorkers.FreeIdCanEndAgain | src/queue/postgres/store.rs:147-265 | from every state in which an id is not stored, a job can be enqueued under it and ended |
| QueueWorkers.OnlyTheHolderChangesJobs | src/queue/postgres/store.rs:267-530 | a stored job changes or goes away only by a claim while pending, a sweep of its expired lease, a removal once it is over, a clear, or a call of the claim that holds its lease at that moment |
| QueueWorkers.StaleClaimIsFencedOff | src/queue/postgres/store.rs:840-851 | a claim that has lost its lease never regains it, and in every continuation all its further calls are refused |
| QueueWorkers.TimelyHeartbeatsKeepLease | src/queue.rs:781-835 | a worker whose first renewal lands before its lease expires and each later one less than three heartbeats after the clock was read for the last keeps its lease until it ends the job |
| QueueWorkers.ClaimWithTimelyHeartbeatsKeepsLease | src/queue.rs:712-835 | end to end from the claim: a worker whose renewals each land less than three heartbeats after the clock was read for the claim or the renewal before keeps its lease until it ends the job |
| QueueWorkers.ClaimGivesLease | src/queue/postgres/store.rs:344-385 | a claim holds its job under a new token until the lease has run from the time read |
| QueueWorkers.RenewalExtendsLease | src/queue/postgres/store.rs:387-409 | an accepted renewal lets the lease run anew from the time read |
| QueueWorkers.SweptIffOver | src/queue/postgres/store.rs:267-342 | a lease can be swept if and only if it is over at the time read, and the job is then pending or, given up, failed |
| QueueWorkers.AcceptedCallEffect | src/queue/postgres/store.rs:411-530 | an accepted completion, failure or release makes the job completed, pending or failed as retries say, or pending, or deletes it once over |
| QueueBackend.WaitForProcessor | src/queue.rs:846-860 | the loop ends at the first look that finds a processor, a stopped queue or a poisoned lock |
| QueueBackend.RunProcessor | src/queue.rs:764-835 | the loop makes exactly the calls of the specified program for its events: one renewal per tick while the store accepts them, and at most one final call, which the ending event justifies |
| QueueBackend.ProcessClaimedJob | src/queue.rs:743-835 | the calls made for a claim are exactly those of the specified program for its lookups and events: renewals and then at most one final call that the ending event justifies, all with the claim's own token; without a processor, one release at shutdown |
| QueueTrace.RecordsAreProgramCalls | src/queue.rs:712-835 | in every run of the step machine the calls recorded for a claim are, in order, those the program makes for what the claim met, up to a last one that has not reached the store |
| QueueBackend.InProcessQueueBackend.Process | src/queue.rs:507-518 | a trimmed non-empty name gets a processor once, and never another |
| QueueBackend.InProcessQueueBackend.Start | src/queue.rs:570-609 | invalid options and a missing runtime are refused; the first start spawns the full set of workers and a second changes nothing |
| QueueBackend.ZeroOptionsAreInvalid | src/queue.rs:71-88 | options are refused exactly when a number in them is zero |
| QueueBackend.InProcessQueueBackend.Shutdown | src/queue.rs:611-622 | the queue is stopped and has no worker handle left |
| QueueBackend.SectionsMakeUpStart | src/queue.rs:570-609 | run without interruption, the two lock sections of a start make up one call |
| QueueBackend.InterruptedStartIsStaffedIff | src/queue.rs:570-622 | for all sequences of other calls between them, the full set of workers results if and only if there are none and the mark is still the same when they are added |
| QueueBackend.RestartInsideStartDoublesWorkers | src/queue.rs:570-622 | a shutdown and another start in between leave a running queue with twice its workers |
| Scheduler.CommandKeeps | src/schedule.rs:286-408 | every call, also one that fails half-way, keeps one loop per job while running and none while stopped |
| Scheduler.AlwaysConsistent | src/schedule.rs:286-408 | so does every sequence of calls |
| Scheduler.JobIsNeverReplaced | src/schedule.rs:312-334 | a name keeps denoting the job scheduled first until it is removed or everything is cleared |
| Scheduler.StartIsIdempotent | src/schedule.rs:366-395 | starting a started scheduler changes nothing, whatever container it is given |
| Scheduler.ScheduleReplies | src/schedule.rs:312-334 | a job is refused, and nothing changed, exactly when it is invalid, its name is registered, or the scheduler runs without a runtime; otherwise it is registered and, while running, its loop spawned |
| Scheduler.OtherReplies | src/schedule.rs:336-408 | what the other calls answer and do; a removal says whether the job was registered |
| Scheduler.ValidJobs | src/schedule.rs:120-142 | a job needs a name that is not blank and a delay that is not zero or a cron expression that is not blank and parses |
| Scheduler.SectionsMakeUpSchedule | src/schedule.rs:312-334 | run without interruption, the lock sections of schedule, roll-back included, make up one call |
| Scheduler.InterruptedIsConsistentIff | src/schedule.rs:286-408 | for all sequences of other calls between its sections, a schedule leaves the scheduler consistent if and only if it found it stopped, or its last section finds the job with a loop already or still registered and running with the same container, or, rolling back, without a loop |
| Scheduler.InterruptionLeavesLoop | src/schedule.rs:312-350 | a shutdown in the gap leaves a loop in a stopped scheduler, and a removal leaves a loop without its job |
| Scheduler.InterruptedKeepsJobsIff | src/schedule.rs:326-330 | a job registered before the last section of an interrupted schedule stays, unless it has the same name and the section is the roll-back |
| Scheduler.RollBackCanTakeAnother | src/schedule.rs:326-330 | a job that another caller registered under the name in between is taken out, and the scheduler is consistent |
| Scheduler.SectionsMakeUpCalls | src/schedule.rs:336-408 | run without interruption, the lock sections of remove, clear and shutdown make up one call each |
| Scheduler.SectionsMakeUpStart | src/schedule.rs:366-395 | and so do marking and spawning every registered job |
| Scheduler.JobSurvivesInterleaving | src/schedule.rs:286-408 | however the lock sections of all calls interleave, a name keeps denoting its job until a removal, a clearing or a roll-back |
| Scheduler.ShutdownInsideStartLeavesLoop | src/schedule.rs:366-408 | a shutdown between the mark and a spawn of a start leaves a loop in a stopped scheduler |
| Scheduler.InProcessScheduler.SpawnJob | src/schedule.rs:286-304 | at most one handle per name, none without a runtime |
| Scheduler.InProcessScheduler.Schedule | src/schedule.rs:312-334 | validation, duplicate check, insertion, spawn, and roll-back of the insertion when the spawn fails: exactly the specified call |
| Scheduler.InProcessScheduler.Remove | src/schedule.rs:336-342 | exactly the specified call |
| Scheduler.InProcessScheduler.Clear | src/schedule.rs:344-351 | exactly the specified call |
| Scheduler.InProcessScheduler.Start | src/schedule.rs:366-395 | the loop over the registered jobs spawns each that has no handle yet |
| Scheduler.InProcessScheduler.Shutdown | src/schedule.rs:397-408 | exactly the specified call |
| Sse.NormalizeIsOnePass | src/http/sse.rs:111-118 | the two replacements amount to one pass that turns each CRLF and each other CR into one LF and changes nothing else |
| Sse.PushField | src/http/sse.rs:102-109 | one line per line of the value is appended |
| Sse.Encode | src/http/sse.rs:68-91 | comment, id, event, retry and data lines in that order, then the empty line |
| Sse.WrittenOut | src/http/sse.rs:68-109 | the exact text of an event with one-line values |
| Sse.CommentIsWritten | src/http/sse.rs:94-100 | the lines that begin with a colon spell the comment, line by line |
| Sse.SseLinesAreLines | src/http/sse.rs:111-118 | the lines hold no line end and spell the value with CRLF and CR turned into LF |
| Sse.EventIsReceived | src/http/sse.rs:68-118 | at an event boundary, the standard's parser takes the lines of one event for exactly that event |
| Sse.DecodeRecoversEvents | src/http/sse.rs:68-118 | decoding any concatenation of encoded events by the standard gives exactly the events that have data, in order, with data, type, id and reconnection time |
| Sse.StreamIsConcatenation | src/http/sse.rs:68-91 | the stream of several events is the concatenation of their encodings |
| Sse.OneMessagePerDataEvent | src/http/sse.rs:68-91 | one message is dispatched per event with data and none for the others |
| Sse.SingleEventRoundTrip | src/http/sse.rs:68-118 | newline-free names, newline- and NUL-free ids, retry values and any data, line ends normalised, arrive as sent |
| Query.ValidatePercentEncoding | src/percent.rs:12-33 | the index loop decides the validity predicate and fails with a bad-request error |
| Query.ValidIffSpelled | src/percent.rs:12-33 | valid are exactly the strings built from bytes other than the percent sign and percent triples with two hex digits |
| Query.EncodedPart | src/http/query.rs:40-43 | decoding undoes the standard's encoding of any byte string, which holds neither separator |
| Query.ParseUndoesSerialize | src/http/query.rs:25-38 | for every list of names and values, parsing the standard's serialization returns the list in order |
| Query.RefusedIff | src/http/query.rs:25-43 | parsing fails if and only if the name or value of a non-empty piece is not validly percent-encoded UTF-8 |
| Query.Utf8Iff | src/percent.rs:4-10 | well-formed are exactly the encodings of sequences of Unicode scalar values by section 3 of RFC 3629 |
| Query.TripleIsByte | src/percent.rs:4-10 | a percent triple is the byte that its digits name, in upper and lower case alike |
| Query.PlainBytesDecode | src/http/query.rs:40-43 | other bytes stand for themselves, and a plus for a space |
| Query.PieceWithoutValue | src/http/query.rs:34-35 | a piece without an equals sign is a name with an empty value |
| Query.FirstEqualsSeparates | src/http/query.rs:34-35 | only the first equals sign of a piece separates |
| Query.EmptyPieceIsSkipped | src/http/query.rs:32 | empty pieces are skipped, wherever they stand |
| Query.PathWithoutQuery | src/http/query.rs:5-17 | a value without a question mark is a path without a query |
| Query.MalformedQueryIsEmpty | src/http/query.rs:5-23 | a malformed query has no pairs; behind a path its text is kept |
| Query.SplitRecoversQuery | src/http/query.rs:5-17 | a path and a serialized query put together are taken apart again |
| Query.LastValueWins | src/http/query.rs:19-23 | a parsed query maps a name to the value of its last occurrence |
| Cookies.CookieHeader | src/http/cookie.rs:141-167 | succeeds exactly when path and domain are valid, and then gives the pair and one part per enabled attribute, joined by semicolons |
| Cookies.SetCookieHeader | src/http/cookie.rs:130-134 | succeeds exactly when name, value, path and domain are valid, with that header |
| Cookies.DeleteCookieHeader | src/http/cookie.rs:136-139 | the header with an empty value and a maximal age of zero |
| Cookies.HeaderSplitsIntoParts | src/http/cookie.rs:130-238 | splitting a produced header at its semicolons gives name=value first and then exactly one part per enabled attribute |
| Cookies.AttributeTexts | src/http/cookie.rs:141-167 | which text stands for which attribute |
| Cookies.AttributesInOrder | src/http/cookie.rs:141-167 | with all of them, their order |
| Cookies.NameCharsAreToken | src/http/cookie.rs:213-234 | the characters of a name are visible ASCII other than separators |
| Cookies.ValueChars | src/http/cookie.rs:236-238 | the characters of a value are visible ASCII other than quote, comma, semicolon and backslash |
| Cookies.AttributeValues | src/http/cookie.rs:196-211 | paths and domains are non-empty ASCII from space to tilde without semicolons |
| Cookies.ParseCookieHeaderValues | src/http/header.rs:147-174 | the nested loops parse the pieces of all header values in order, the first malformed one failing the whole |
| Cookies.SecondValue | src/http/header.rs:147-174 | a second header value continues the list |
| Cookies.BlankPieceIsSkipped | src/http/header.rs:151-154 | a blank piece is skipped, wherever it stands |
| Cookies.MalformedPieceFails | src/http/header.rs:156-166 | a piece without an equals sign, or with nothing before it, fails the whole, wherever it stands |
| Cookies.SpacesAreTrimmed | src/http/header.rs:161-171 | spaces around the equals sign do not belong to name or value |
| Cookies.QuotesAreRemoved | src/http/header.rs:207-212 | a value in double quotes is received without them |
| Cookies.ParseUndoesPrint | src/http/header.rs:147-174 | for every list of cookies that the validators accept, parsing the printed Cookie header returns the list in order |
| CacheStore.HoldsIff | src/cache.rs:176-206 | the store holds an entry exactly when it is the latest one set and no lookup has found it expired |
| CacheStore.GetIsExact | src/cache.rs:177-189 | a lookup returns a value exactly when it is the one last set, not since removed or cleared, with no or an unelapsed time to live |
| CacheStore.SetThenGet | src/cache.rs:176-196 | a value set with a time to live is found at exactly the times before the clock reading plus that time, and one without at all times |
| CacheStore.RemoveIsExact | src/cache.rs:198-200 | a removal answers yes exactly when the latest entry has not been found expired |
| CacheStore.RemoveAgreesWithGetIff | src/cache.rs:198-200 | removal and lookup agree at a moment if and only if the latest entry, if expired by then, has been looked up since |
| CacheStore.RemovalLeaksEviction | src/cache.rs:198-200 | two histories that no lookup tells apart on which a removal answers differently |
| CacheStore.InMemoryCacheStore.Get | src/cache.rs:177-189 | in place, with eviction: the answer is the history's, and the history gains the lookup |
| CacheStore.InMemoryCacheStore.Set | src/cache.rs:191-196 | afterwards the latest entry is this one, expiring its time to live after the clock was read |
| CacheStore.InMemoryCacheStore.Remove | src/cache.rs:198-200 | afterwards the key has no latest entry; the answer is the exact one |
| CacheStore.InMemoryCacheStore.Clear | src/cache.rs:202-205 | afterwards no key has a latest entry |
| CacheStore.InMemoryCacheStore.GetOrInsert | src/cache.rs:135-153 | a live value is returned untouched; otherwise the factory's outcome is returned and, if it succeeded, stored after whatever other callers did meanwhile; a failure stores nothing |
| Transactions.StepKeeps | src/database.rs:330-480 | every lock section, of any call on any transaction, keeps the invariant that ties pending statements, stages and log to the run so far |
| Transactions.IdsAreFresh | src/database.rs:330-339 | the id that is handed out next occurs in no step and no entry before |
| Transactions.OneEntryPerTransaction | src/database.rs:453-480 | in every interleaving a transaction has at most one entry, has it exactly when a finishing call has returned, and it is either committed or rolled back, as the first such call asked |
| Transactions.LogOnlyGrows | src/database.rs:453-480 | entries are never changed or dropped |
| Transactions.EntryIsCompleteIff | src/database.rs:444-480 | an entry lists an initial part of the accepted statements in order, and all of them if and only if none was appended after the copy |
| Transactions.QuietFinishIsComplete | src/database.rs:444-480 | when no call is under way as the transaction is finished, its entry has that outcome and lists exactly the statements accepted, for ever |
| Transactions.UnquietFinishCanLose | src/database.rs:444-480 | when a call is under way then, there is a continuation in which its statement is accepted and missing from the entry |
| Transactions.AcceptedStatementCanBeLost | src/database.rs:444-480 | a concrete run in which a committed transaction misses its only statement |
| Transactions.FinishDecides | src/database.rs:210-226 | once the call that ends a transaction has returned there is exactly one entry, with that call's outcome if it found the transaction open and else with the earlier one's |
| Database.InMemoryDatabase.BeginTransaction | src/database.rs:330-339 | a fresh open transaction under a new id; the log is untouched |
| Database.InMemoryTransaction.PushPending | src/database.rs:444-451 | refused once finished, otherwise appended; as a run, a check and a push |
| Database.InMemoryTransaction.Finish | src/database.rs:453-480 | refused once finished, otherwise one entry with the pending statements; as a run, its three lock sections |
| Database.RunTransaction | src/database.rs:210-226 | whatever the callback does, exactly one entry is written, listing its statements in order up to where it ended the transaction itself; an Ok result means that it is committed and lists all of them |

## Left out

- Module overrides: the name of a module stands for the module that the override table gives for it; an override whose replacement has another overridden name is applied twice on forward imports, which is not modelled.
- Provider resolution, singleton start-up and exports: only whether they fail, and which containers a module sees.
- Lazy loads: interleavings are modelled on values, with each lookup and each batch insertion atomic; the classes are one load at a time. Loads made while the application is still being built are not covered.
- Registration.SucceedsIffNoCycleReachable: excludes forward imports, because with them success depends on where the search starts; Registration.EveryRootRegistersIff has the condition for all starts. Both count as module faults a prefix that ends with a wildcard and a parameter name that two modules' prefixes share, which are refused or not depending on which module is above which.
- The async twins of registration and lazy loading, which follow the same algorithm.
- Version extraction from a URI, header or media type, and the normalisation of version strings: a request is its list of path and version candidates.
- Path and host parameter values; the guards, pipes, interceptors and filters that run after dispatch; the routes added for CORS and OpenAPI.
- Lane queue backend: stands behind the same fencing contract as the Postgres store, whose rules for tokens, leases and recovery are the modelled ones; retries, delays and promotion of due jobs are one choice between pending and failed, deletion of finished jobs by option or retention is free, and deduplication is left out.
- Queue shutdown: that every worker ends is not claimed, since a wake-up can be missed while a worker awaits a renewal.
- QueueBackend.ProcessClaimedJob: takes lookups, events and the store's answers as given; QueueTrace ties them to the runs of the step machine.
- Scheduler: the exact condition for consistency is about one call interrupted by whole other calls; for arbitrary interleavings of lock sections only what happens to registered jobs is stated. Ticks, cron times, run counts and recorded errors are not modelled.
- Query strings are bytes and cookies and events are characters; the UTF-8 coding between the two and the 64-bit bound on retry values and ages are not modelled.
- Error texts: an error is its kind, with the data that a property needs.
- Lock poisoning, the wrap-around of 64-bit counters, and the serialization of cached values to JSON.
- Direct statements and canned query results of the in-memory database.
- Applications with signals, microservices and real servers; macros; the service client; WebSocket and transport adapters.
