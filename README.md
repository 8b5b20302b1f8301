# crnk `ModuleRegistry`, modelled in Dafny

This project models the module registry of the crnk JSON:API framework
(`io.crnk.core.module.ModuleRegistry`). Modules register contributions through a
`ModuleContext`: information builders, repositories, decorator factories, exception mapper
lookups, security providers, filters and more. The registry aggregates them in one
`SimpleModule` of ordered lists. A one-way `initialized` flag freezes the aggregation, and
`init` then builds the resource registry.

`init` runs `mapRepositoryRegistrations` and then `applyRepositoryRegistrationForClass`:
- Every raw repository that is not itself a decorator is classified by the combined
  repository information builder.
- Each repository is listed under its resource class (a resource repository) or under its
  source resource class (a relationship repository).
- Every class then becomes exactly one `RegistryEntry`. The entry holds its repository
  information, the resource entry of the last resource repository of the group, and one
  relationship entry per relationship repository, in group order. Each repository is
  decorated by the contributed decorator factories, in registration order.

The modules follow the program's structure:

- `Wrappers`: `Option`, `Result` and `Outcome`. `Fail(e)` stands for a thrown exception.
- `FirstMatch`: the "first element in list order that passes the test" search. The combined
  builders and `getModule` all use it.
- `Repositories`: the data model.
  - A raw repository is reduced to the tags the Java code tests with `instanceof` and
    annotation lookups.
  - The repository information, resource and relationship entries, and `RegistryEntry` are
    datatypes.
  - `ResourceRegistry` is a class whose `AddEntry` appends to its list of entries.
  - The exceptions the registry throws form the datatype `RegistryError`.
- `InformationBuilders`: `CombinedResourceInformationBuilder` and
  `CombinedRepositoryInformationBuilder`. They are functions over the sequence of
  contributed builders, where each builder is a datatype of functions.
- `Decoration`: the decorator chain that `decorateRepository` builds.
- `ExceptionMappers`: `CombinedExceptionMapperLookup`.
- `Contributions`: the aggregated `SimpleModule`, one constructor per `ModuleContextImpl.add*`
  call, and the guard that refuses all but two of those calls after initialisation.
- `RegistryBuilding`: the specification functions for what `init` registers, and the
  properties proved about them.
- `ModuleRegistries`: the class `ModuleRegistry` with its fields and its imperative methods.
  Each method is proved against the specification functions above.

Two behaviours of the code are worth naming:
- Several resource repositories for one class are not a configuration error. Each one
  overwrites the previous one, so the last one in contribution order provides the entry
  (`LastResourceRepositoryWins`).
- Relationship repositories are not checked against each other or against the resource's
  fields. Every relationship repository of the group becomes a relationship entry
  (`EntryKeepsEveryRelationship`).

## Model

| member | source | states |
|---|---|---|
| FirstMatch.FirstIndex | crnk-core/src/main/java/io/crnk/core/module/ModuleRegistry.java:419-426 | the index found is the first one, in list order, whose element passes the test; none is found exactly when no element passes |
| FirstMatch.FirstIndexAppend | crnk-core/src/main/java/io/crnk/core/module/ModuleRegistry.java:466-474 | elements after a match never change which element matches first; without a match in the front, the first match of the back is found at its shifted index |
| Repositories.IsDecorator | crnk-core/src/main/java/io/crnk/core/module/ModuleRegistry.java:293-294 | no contract: the two `instanceof` decorator tests; its meaning for the registry is stated by RegistryBuilding.UndecoratedMembers and BindingsSucceedIffSupported |
| Repositories.ClassKey | crnk-core/src/main/java/io/crnk/core/module/ModuleRegistry.java:296-305 | no contract: the class a repository is listed under (the resource class, or the source resource class of a relationship repository); see RegistryBuilding.KeysOf and GroupOfMembers |
| Repositories.ResourceRegistry.AddEntry | crnk-core/src/main/java/io/crnk/core/module/ModuleRegistry.java:272 | `addEntry` appends the pair of class and entry to the registry's entries and changes nothing else |
| InformationBuilders.FirstAcceptingResourceBuilder | crnk-core/src/main/java/io/crnk/core/module/ModuleRegistry.java:457-462 | the builder found is the first that accepts the class; none is found exactly when no builder accepts it |
| InformationBuilders.ResourceAccept | crnk-core/src/main/java/io/crnk/core/module/ModuleRegistry.java:455-463 | no contract; see ResourceAcceptMeans |
| InformationBuilders.ResourceAcceptMeans | crnk-core/src/main/java/io/crnk/core/module/ModuleRegistry.java:455-463 | `accept(Class)` holds exactly when some contributed builder accepts the class |
| InformationBuilders.ResourceBuild | crnk-core/src/main/java/io/crnk/core/module/ModuleRegistry.java:465-474 | `build` fails exactly when no builder accepts, and then with UnsupportedOperationException naming the class |
| InformationBuilders.ResourceBuildUsesFirst | crnk-core/src/main/java/io/crnk/core/module/ModuleRegistry.java:467-471 | `build` returns what the first accepting builder builds |
| InformationBuilders.ResourceTypeOf | crnk-core/src/main/java/io/crnk/core/module/ModuleRegistry.java:476-484 | `getResourceType` is null exactly when no builder accepts, and otherwise the first accepting builder's answer |
| InformationBuilders.InitResourceBuilders | crnk-core/src/main/java/io/crnk/core/module/ModuleRegistry.java:486-491 | `init` hands the context to every builder, in order, whether or not it accepts anything |
| InformationBuilders.InitKeepsResourceDispatch | crnk-core/src/main/java/io/crnk/core/module/ModuleRegistry.java:140-147 | initialising the builders changes neither `build` nor `getResourceType` for any class |
| InformationBuilders.EarlierResourceBuilderWins | crnk-core/src/main/java/io/crnk/core/module/ModuleRegistry.java:466-474 | a builder registered later answers for a class only when no earlier builder accepts it |
| InformationBuilders.FirstAcceptingRepositoryBuilder | crnk-core/src/main/java/io/crnk/core/module/ModuleRegistry.java:517-522 | no contract; see FirstAcceptingRepositoryBuilderIsFirst and RepositoryBuildUsesFirst |
| InformationBuilders.FirstAcceptingRepositoryBuilderIsFirst | crnk-core/src/main/java/io/crnk/core/module/ModuleRegistry.java:517-522 | the builder found is the first that accepts the repository; none is found exactly when no builder accepts it |
| InformationBuilders.RepositoryAccept | crnk-core/src/main/java/io/crnk/core/module/ModuleRegistry.java:506-514 | no contract; see RepositoryAcceptMeans |
| InformationBuilders.RepositoryAcceptMeans | crnk-core/src/main/java/io/crnk/core/module/ModuleRegistry.java:506-514 | `accept(Object)` holds exactly when some contributed builder accepts the repository |
| InformationBuilders.RepositoryBuild | crnk-core/src/main/java/io/crnk/core/module/ModuleRegistry.java:516-525 | `build(Object, context)` fails exactly when no builder accepts, and then with UnsupportedOperationException naming the repository's class |
| InformationBuilders.RepositoryBuildUsesFirst | crnk-core/src/main/java/io/crnk/core/module/ModuleRegistry.java:517-522 | `build(Object, context)` returns what the first accepting builder builds |
| InformationBuilders.FirstAcceptingRepositoryClassBuilder | crnk-core/src/main/java/io/crnk/core/module/ModuleRegistry.java:529-534 | the builder found is the first that accepts the repository class; none is found exactly when no builder accepts it |
| InformationBuilders.RepositoryClassAccept | crnk-core/src/main/java/io/crnk/core/module/ModuleRegistry.java:527-535 | `accept(Class)` holds exactly when some builder accepts the repository class |
| InformationBuilders.RepositoryClassBuild | crnk-core/src/main/java/io/crnk/core/module/ModuleRegistry.java:537-546 | `build(Class, context)` fails exactly when no builder accepts, naming the class, and otherwise returns the first accepting builder's answer |
| InformationBuilders.EarlierRepositoryBuilderWins | crnk-core/src/main/java/io/crnk/core/module/ModuleRegistry.java:516-525 | a repository information builder registered later answers only when no earlier one accepts the repository |
| Decoration.Offer | crnk-core/src/main/java/io/crnk/core/module/ModuleRegistry.java:336-342 | an object that is a relationship repository goes to the relationship overload of the factory, even when it is also a resource repository; a resource repository that is not a relationship repository goes to the resource overload; no other object is offered, so it is never decorated |
| Decoration.Wrap | crnk-core/src/main/java/io/crnk/core/module/ModuleRegistry.java:343-345 | no contract; `setDecoratedObject` as stated by Step |
| Decoration.Step | crnk-core/src/main/java/io/crnk/core/module/ModuleRegistry.java:336-346 | a factory that returns no decorator leaves the current object unchanged; a returned decorator becomes the new current object, keeping its own class, tags and registry, and records the previous current object as the one it decorates |
| Decoration.InjectRegistry | crnk-core/src/main/java/io/crnk/core/module/ModuleRegistry.java:348-350 | only a registry-aware object receives the resource registry, and nothing else about it changes |
| Decoration.Chain | crnk-core/src/main/java/io/crnk/core/module/ModuleRegistry.java:335-347 | no contract; see ChainAppend, DecliningFactoryIsNoOp, ChainKeepsInnermost, DeclineDoesNotBind and ModuleRegistries.ModuleRegistry.DecorateRepository |
| Decoration.Decorate | crnk-core/src/main/java/io/crnk/core/module/ModuleRegistry.java:332-352 | no contract; see InjectRegistry and ModuleRegistries.ModuleRegistry.DecorateRepository |
| Decoration.ChainAppend | crnk-core/src/main/java/io/crnk/core/module/ModuleRegistry.java:335-347 | the factories are folded in registration order: applying `fs + gs` is applying `fs` and then `gs` |
| Decoration.DecliningFactoryIsNoOp | crnk-core/src/main/java/io/crnk/core/module/ModuleRegistry.java:336-346 | a factory that always returns null leaves the chain as if it had never been registered, wherever it stands |
| Decoration.ChainKeepsInnermost | crnk-core/src/main/java/io/crnk/core/module/ModuleRegistry.java:343-346 | unwrapping the chain leads back to the raw repository, and each factory adds at most one decorator |
| Decoration.DeclineDoesNotBind | crnk-core/src/main/java/io/crnk/core/module/ModuleRegistry.java:335-347 | with factories A, B and C where B declines, the result is C's decorator around A's decorator around the raw repository |
| ExceptionMappers.UnionOf | crnk-core/src/main/java/io/crnk/core/module/ModuleRegistry.java:563-569 | a mapper is in the combined set exactly when some lookup supplies it |
| ExceptionMappers.CombinedExceptionMappers | crnk-core/src/main/java/io/crnk/core/module/ModuleRegistry.java:563-569 | the loop filling the hash set computes the union of all the lookups' mappers |
| ExceptionMappers.UnionIgnoresOrderAndDuplicates | crnk-core/src/main/java/io/crnk/core/module/ModuleRegistry.java:564-568 | the combined set does not depend on the order or multiplicity of the contributed lookups |
| Contributions.Guarded | crnk-core/src/main/java/io/crnk/core/module/ModuleRegistry.java:574-680 | no contract: every `add*` call except `addHttpRequestProcessor` and `addRepository(Object)` starts with `checkNotInitialized()`; see FrozenSetupWithoutGuardedCalls, FrozenSetupStopsAtGuardedCall and ModuleRegistries.ModuleRegistry.Contribute |
| Contributions.Apply | crnk-core/src/main/java/io/crnk/core/module/ModuleRegistry.java:574-680 | an accepted `add*` call extends the aggregated module's lists by exactly one element in total and removes or reorders nothing |
| Contributions.ApplyAppendsArgument | crnk-core/src/main/java/io/crnk/core/module/ModuleRegistry.java:574-680 | for each of the twelve lists: the list of the call's kind grows by the call's argument at its end (all three `addRepository` overloads grow the repositories), and every other list is unchanged |
| Contributions.ApplyAll | crnk-core/src/main/java/io/crnk/core/module/ModuleRegistry.java:97-98 | accepted calls only extend the aggregated lists, by one element per call |
| Contributions.ContributionOrderKept | crnk-core/src/main/java/io/crnk/core/module/ModuleRegistry.java:627-680 | the aggregated repositories and decorator factories are the contributed ones, in contribution order |
| Contributions.Receive | crnk-core/src/main/java/io/crnk/core/module/ModuleRegistry.java:574-680 | no contract; see ModuleRegistries.ModuleRegistry.Contribute |
| Contributions.ReceiveAll | crnk-core/src/main/java/io/crnk/core/module/ModuleRegistry.java:97-98 | no contract; see OpenSetupAppliesAll, FrozenSetupWithoutGuardedCalls, FailureEndsSetup, FrozenSetupStopsAtGuardedCall and ModuleRegistries.ModuleRegistry.AddModule |
| Contributions.OpenSetupAppliesAll | crnk-core/src/main/java/io/crnk/core/module/ModuleRegistry.java:574-680 | before initialisation every call of a module's setup is accepted and applied |
| Contributions.FrozenSetupWithoutGuardedCalls | crnk-core/src/main/java/io/crnk/core/module/ModuleRegistry.java:650-680 | after initialisation, `addHttpRequestProcessor` and `addRepository(Object)` still append |
| Contributions.FailureEndsSetup | crnk-core/src/main/java/io/crnk/core/module/ModuleRegistry.java:97-100 | once a call of the setup throws, the calls after it have no effect |
| Contributions.FrozenSetupStopsAtGuardedCall | crnk-core/src/main/java/io/crnk/core/module/ModuleRegistry.java:128-132 | after initialisation a setup throws IllegalStateException at its first guarded call; the unguarded calls before it are applied, and nothing from that call on |
| RegistryBuilding.Undecorated | crnk-core/src/main/java/io/crnk/core/module/ModuleRegistry.java:292-294 | no contract; see UndecoratedMembers, UndecoratedAppend and UndecoratedSingle |
| RegistryBuilding.UndecoratedMembers | crnk-core/src/main/java/io/crnk/core/module/ModuleRegistry.java:292-294 | the repositories considered are exactly the contributed ones that are neither resource nor relationship decorators |
| RegistryBuilding.UndecoratedAppend | crnk-core/src/main/java/io/crnk/core/module/ModuleRegistry.java:292-294 | the selection works repository by repository: the selection of `a + b` is the selection of `a` followed by that of `b`, so order and multiplicity are kept |
| RegistryBuilding.UndecoratedSingle | crnk-core/src/main/java/io/crnk/core/module/ModuleRegistry.java:292-294 | a single repository is kept exactly when it is not a decorator |
| RegistryBuilding.Bindings | crnk-core/src/main/java/io/crnk/core/module/ModuleRegistry.java:292-307 | no contract; see BindingsSucceedIffSupported, BindingsClassifyUndecorated, BindingsNameFirstUnsupported and UnsupportedEndsMapping |
| RegistryBuilding.BindingsSucceedIffSupported | crnk-core/src/main/java/io/crnk/core/module/ModuleRegistry.java:292-307 | the mapping succeeds exactly when every repository is a decorator or is accepted by some repository information builder |
| RegistryBuilding.BindingsClassifyUndecorated | crnk-core/src/main/java/io/crnk/core/module/ModuleRegistry.java:292-307 | the bindings are the non-decorator repositories in contribution order, each paired with what the combined builder builds for it |
| RegistryBuilding.BindingsNameFirstUnsupported | crnk-core/src/main/java/io/crnk/core/module/ModuleRegistry.java:292-295 | a failing mapping throws for the first non-decorator repository that no builder accepts, naming its class |
| RegistryBuilding.UnsupportedEndsMapping | crnk-core/src/main/java/io/crnk/core/module/ModuleRegistry.java:292-307 | the repositories after an unsupported one do not affect the outcome |
| RegistryBuilding.KeysOf | crnk-core/src/main/java/io/crnk/core/module/ModuleRegistry.java:296-305 | the class keys are exactly the classes the bindings are keyed by, each listed once |
| RegistryBuilding.KeysOfAppend | crnk-core/src/main/java/io/crnk/core/module/ModuleRegistry.java:299-304 | `classMap.add` adds a key only for a class that is not a key yet, and adds it last |
| RegistryBuilding.GroupOf | crnk-core/src/main/java/io/crnk/core/module/ModuleRegistry.java:296-305 | no contract: the list `classMap.getList(k)` returns after the mapping loop; see GroupOfCounts, GroupOfMembers, GroupOfAppend and GroupingPartitions |
| RegistryBuilding.GroupOfAppend | crnk-core/src/main/java/io/crnk/core/module/ModuleRegistry.java:299-304 | `classMap.add` appends the binding to the list of its own class, at the end, and leaves the list of every other class unchanged |
| RegistryBuilding.GroupOfCounts | crnk-core/src/main/java/io/crnk/core/module/ModuleRegistry.java:299-304 | a class's list holds each binding of that class as often as it was added, and nothing else |
| RegistryBuilding.GroupOfMembers | crnk-core/src/main/java/io/crnk/core/module/ModuleRegistry.java:296-305 | a binding is listed under a class exactly when it is keyed by that class |
| RegistryBuilding.GroupOfUnkeyed | crnk-core/src/main/java/io/crnk/core/module/ModuleRegistry.java:299-304 | helper of the model: a class that no binding was added under has an empty list, so the first `classMap.add` for a class starts a one-element list (ModuleRegistries.AddNewKey) |
| RegistryBuilding.GroupingPartitions | crnk-core/src/main/java/io/crnk/core/module/ModuleRegistry.java:296-305 | the lists of all keys together hold every binding exactly once |
| RegistryBuilding.ResourceEntryFor | crnk-core/src/main/java/io/crnk/core/module/ModuleRegistry.java:311-329 | no contract; see ModuleRegistries.ModuleRegistry.SetupResourceRepository and LastResourceRepositoryWins |
| RegistryBuilding.RelationshipEntryFor | crnk-core/src/main/java/io/crnk/core/module/ModuleRegistry.java:354-385 | no contract; see ModuleRegistries.ModuleRegistry.SetupRelationship and RelationshipEntries |
| RegistryBuilding.LastResourceIndex | crnk-core/src/main/java/io/crnk/core/module/ModuleRegistry.java:249-254 | it finds the last resource repository of a group, after which only relationship repositories follow; it finds none exactly when the group has only relationship repositories |
| RegistryBuilding.RelationshipBindings | crnk-core/src/main/java/io/crnk/core/module/ModuleRegistry.java:255-260 | exactly the relationship repositories of the group are selected |
| RegistryBuilding.RelationshipBindingsAppend | crnk-core/src/main/java/io/crnk/core/module/ModuleRegistry.java:255-260 | the selection works binding by binding: the selection of `g + h` is the selection of `g` followed by that of `h`, so group order and multiplicity are kept |
| RegistryBuilding.RelationshipBindingsSingle | crnk-core/src/main/java/io/crnk/core/module/ModuleRegistry.java:255-260 | a single binding is selected exactly when it describes a relationship repository |
| RegistryBuilding.RelationshipEntries | crnk-core/src/main/java/io/crnk/core/module/ModuleRegistry.java:255-260 | there is one relationship entry per relationship repository, in group order, with no choice between entries for one field |
| RegistryBuilding.EntryFor | crnk-core/src/main/java/io/crnk/core/module/ModuleRegistry.java:242-271 | building an entry fails exactly when the group has no resource repository and no resource information builder accepts the class, and then with UnsupportedOperationException naming the class |
| RegistryBuilding.EntryKeepsEveryRelationship | crnk-core/src/main/java/io/crnk/core/module/ModuleRegistry.java:255-260 | a built entry carries one relationship entry per relationship repository, in group order, and has a resource entry exactly when the group has a resource repository |
| RegistryBuilding.LastResourceRepositoryWins | crnk-core/src/main/java/io/crnk/core/module/ModuleRegistry.java:249-254 | several resource repositories for one class are no error; the last one provides the repository information and the resource entry |
| RegistryBuilding.RelationshipOnlyClass | crnk-core/src/main/java/io/crnk/core/module/ModuleRegistry.java:263-269 | a class reached only through relationship repositories gets repository information synthesised by the resource information builders, and no resource entry |
| RegistryBuilding.ClassStep | crnk-core/src/main/java/io/crnk/core/module/ModuleRegistry.java:263-272 | no contract; see ClassStepOutcome and ModuleRegistries.ModuleRegistry.ApplyRepositoryRegistrationForClass |
| RegistryBuilding.ClassStepOutcome | crnk-core/src/main/java/io/crnk/core/module/ModuleRegistry.java:263-272 | a class is registered exactly when its entry can be built and the resource registry is there; otherwise nothing is added and the matching exception is thrown |
| RegistryBuilding.Registration | crnk-core/src/main/java/io/crnk/core/module/ModuleRegistry.java:237-239 | at most one entry is added per key; the registration passes exactly when every key got its entry; a missing resource registry adds nothing |
| RegistryBuilding.RegistrationEntry | crnk-core/src/main/java/io/crnk/core/module/ModuleRegistry.java:237-239 | the i-th entry added is for the i-th key, and it is the entry built from that key's list |
| RegistryBuilding.FailureEndsRegistration | crnk-core/src/main/java/io/crnk/core/module/ModuleRegistry.java:237-239 | once a class throws, the later classes add nothing |
| RegistryBuilding.RegistrationOncePerClass | crnk-core/src/main/java/io/crnk/core/module/ModuleRegistry.java:237-239 | no two added entries are for the same class |
| RegistryBuilding.RegisteredKeys | crnk-core/src/main/java/io/crnk/core/module/ModuleRegistry.java:237-239 | entries are added only for keys, and for every key when the registration passes |
| RegistryBuilding.KeyIsContributed | crnk-core/src/main/java/io/crnk/core/module/ModuleRegistry.java:292-305 | every key is the class of some contributed non-decorator repository |
| RegistryBuilding.ContributedIsKey | crnk-core/src/main/java/io/crnk/core/module/ModuleRegistry.java:292-305 | the class of every classified repository is a key |
| RegistryBuilding.OneEntryPerResourceClass | crnk-core/src/main/java/io/crnk/core/module/ModuleRegistry.java:229-240 | a passing registration adds an entry for a class exactly when some contributed non-decorator repository is classified under it |
| RegistryBuilding.EntryDescribesItsClass | crnk-core/src/main/java/io/crnk/core/module/ModuleRegistry.java:249-253 | an entry with a resource entry is described by repository information classified under the entry's own class |
| ModuleRegistries.AddToExistingKey | crnk-core/src/main/java/io/crnk/core/module/ModuleRegistry.java:299-304 | adding to a class that is already a key appends to that class's list and keeps the map in step with the bindings |
| ModuleRegistries.AddNewKey | crnk-core/src/main/java/io/crnk/core/module/ModuleRegistry.java:299-304 | adding to a new class makes it the last key with a one-element list |
| ModuleRegistries.ModuleRegistry.constructor | crnk-core/src/main/java/io/crnk/core/module/ModuleRegistry.java:84-90 | a new registry is not initialised and holds no modules, no contributions, no object mapper, no resource registry and no exception mapper registry |
| ModuleRegistries.ModuleRegistry.SetResourceRegistry | crnk-core/src/main/java/io/crnk/core/module/ModuleRegistry.java:109-111 | sets the resource registry and nothing else |
| ModuleRegistries.ModuleRegistry.CheckNotInitialized | crnk-core/src/main/java/io/crnk/core/module/ModuleRegistry.java:128-132 | throws IllegalStateException exactly when the registry is initialised |
| ModuleRegistries.ModuleRegistry.Contribute | crnk-core/src/main/java/io/crnk/core/module/ModuleRegistry.java:574-680 | a guarded `add*` call on an initialised registry throws and changes nothing; every other call appends its contribution; `addJacksonModule` never finds an object mapper |
| ModuleRegistries.ModuleRegistry.AddModule | crnk-core/src/main/java/io/crnk/core/module/ModuleRegistry.java:97-100 | the setup's calls are made in order until one throws; what came before stays aggregated; the module is recorded only when its setup passes |
| ModuleRegistries.ModuleRegistry.GetSecurityProvider | crnk-core/src/main/java/io/crnk/core/module/ModuleRegistry.java:179-184 | succeeds exactly when one security provider was contributed, and returns it; otherwise it fails with the number found |
| ModuleRegistries.ModuleRegistry.GetModule | crnk-core/src/main/java/io/crnk/core/module/ModuleRegistry.java:419-426 | returns the first recorded module that is an instance of the class, and nothing exactly when none is |
| ModuleRegistries.ModuleRegistry.GetResourceInformationBuilder | crnk-core/src/main/java/io/crnk/core/module/ModuleRegistry.java:140-147 | every contributed builder is initialised with the default context, and the combined builder answers every class as the uninitialised builders do |
| ModuleRegistries.ModuleRegistry.DecorateRepository | crnk-core/src/main/java/io/crnk/core/module/ModuleRegistry.java:331-352 | the loop computes the ordered decorator chain, then injects the registry into a registry-aware result |
| ModuleRegistries.ModuleRegistry.SetupResourceRepository | crnk-core/src/main/java/io/crnk/core/module/ModuleRegistry.java:311-329 | the entry wraps the decorated repository, and it is an annotated entry exactly when the decorated object carries the resource repository annotation |
| ModuleRegistries.ModuleRegistry.SetupRelationship | crnk-core/src/main/java/io/crnk/core/module/ModuleRegistry.java:354-385 | appends one entry for the decorated repository; it is annotated exactly when the raw repository carries the annotation, and otherwise targets the repository's resource class |
| ModuleRegistries.ModuleRegistry.MapRepositoryRegistrations | crnk-core/src/main/java/io/crnk/core/module/ModuleRegistry.java:275-309 | the loop fails exactly as the mapping does, and otherwise fills a multi-valued map whose keys and lists are those of the bindings |
| ModuleRegistries.ModuleRegistry.ApplyRepositoryRegistrationForClass | crnk-core/src/main/java/io/crnk/core/module/ModuleRegistry.java:242-273 | the loop over a group builds the specified entry and adds it to the resource registry, or throws and adds nothing |
| ModuleRegistries.ModuleRegistry.RegisterClasses | crnk-core/src/main/java/io/crnk/core/module/ModuleRegistry.java:237-239 | the loop over the keys adds exactly the specified registration's entries, and stops at the first class that throws |
| ModuleRegistries.ModuleRegistry.ApplyRepositoryRegistration | crnk-core/src/main/java/io/crnk/core/module/ModuleRegistry.java:229-240 | a failing mapping adds nothing; otherwise the entries of every key are added in key order |
| ModuleRegistries.ModuleRegistry.Init | crnk-core/src/main/java/io/crnk/core/module/ModuleRegistry.java:208-226 | a later call changes nothing; the first call sets the flag and the object mapper; it adds nothing to the resource registry when the mapping of repositories fails, and otherwise exactly the entries of the specified registration; when that passes, it builds the exception mapper registry from the union of the lookups |

## Left out

- Jackson: `objectMapper.registerModules` in `init` and `registerModule` in `addJacksonModule` are foreign calls and are not modelled. The object mapper is a plain value, so the NullPointerException of `init(null)` is not modelled either.
- `InitializingModule.init` callbacks in `init` call module code that is not part of this model.
- `ExceptionMapperRegistryBuilder.build` is not part of this model. The exception mapper registry is modelled as the set of mappers it is built from.
- `RepositoryInformationBuilderContext`, `TypeParser` and `RequestDispatcher`: the contexts handed to the builders have no effect in the model, because each builder's answer is a function of the repository or class alone.
- Repositories, decorators and builders are values. `setDecoratedObject`, `setResourceRegistry` and builder `init` mutate the shared Java objects in place. The model returns new values instead, so aliasing is not captured: the same object decorated for two entries, or a builder observed by another holder.
- `MultivaluedMap` key order: the keys are taken in order of first insertion. The real order belongs to a map implementation that is not part of this model.
- `resourceMapping` is a `HashMap` keyed by repository information. The model pairs each piece of information with its repository (a `Binding`). Two repositories whose information is equal would share one map slot in Java, and that collision is not captured.
- The `RepositoryInstanceBuilder` wrappers and the registry reference inside annotated entries: entries hold the decorated repository directly.
- `ResourceRegistry.addEntry` is not part of this model. It is modelled as appending the pair of class and entry to a list.
- The `volatile` modifier on `initialized` and all concurrency: the model is sequential.
- Plain getters and setters are not modelled as members: `getResourceRegistry`, `setRequestDispatcher`, `getJacksonModules`, `getRepositoryInformationBuilder`, `getResourceLookup`, `getHttpRequestProcessors`, `getServiceDiscovery`, `setServiceDiscovery`, `getFilters`, `getRepositoryFilters`, `getRepositoryDecoratorFactories`, `getExceptionMapperLookup`, `getModules`, `getTypeParser`, `getContext`, `getExceptionMapperRegistry`, and the getters of `ModuleContextImpl`. They read a field, wrap the aggregated lists in a new combined object, return a context object, or throw when the field is null.
- Contributions.Module, ModuleRegistries.ModuleRegistry.AddModule, Contributions.FailureEndsSetup, Contributions.FrozenSetupStopsAtGuardedCall: `module.setupModule(context)` (ModuleRegistry.java:98) is module code. The model takes it as a straight sequence of `add*` calls that neither catches the registry's IllegalStateException nor depends on what the context returns (`isServer()`, `getResourceRegistry()` and the other getters). A Java module that catches the exception goes on with its later calls and is recorded when `setupModule` returns normally; the model instead ends the setup at the first refused call and does not record the module.
- `MultiResourceLookup`, `ServiceDiscovery` and the internals of `SimpleModule` are not part of this model. `SimpleModule` is modelled as ordered lists that grow at the end.
- `RegistryEntry.java` is not part of this model: the entry keeps only the three values `applyRepositoryRegistrationForClass` passes to it.
- `addExceptionMapper` (ModuleRegistry.java:622-625) appends to the aggregated `exceptionMappers` list. The model keeps that list apart from the exception mapper registry that `Init` builds from the lookups, because how `SimpleModule` combines the two is not part of this model.
