/** The module registry itself: the one-way `initialized` flag, the aggregated contributions of
    the modules set up so far, and the registration of the contributed repositories into the
    resource registry when it is initialised. Each method is proved against the specification
    functions of the modules it imports. */
module ModuleRegistries {
  import opened Wrappers
  import opened FirstMatch
  import opened Repositories
  import opened InformationBuilders
  import opened Decoration
  import opened ExceptionMappers
  import opened Contributions
  import opened RegistryBuilding

  /** The Jackson object mapper handed to `init`, by identity. */
  type ObjectMapper = nat

  /** The `classMap` multi-valued map of `mapRepositoryRegistrations`: its keys in order of
      first insertion and the list stored under each. */
  datatype ClassMap = ClassMap(keys: seq<ClassId>, groups: map<ClassId, seq<Binding>>)

  /** `keys` and `groups` are the multi-valued map built from the bindings `bs`. */
  ghost predicate Represents(keys: seq<ClassId>, groups: map<ClassId, seq<Binding>>, bs: seq<Binding>)
  {
    && keys == KeysOf(bs)
    && (forall k :: k in groups <==> k in keys)
    && (forall k :: k in groups ==> groups[k] == GroupOf(bs, k))
  }

  /** `MultivaluedMap.add` for a class that is already a key: its list grows at the end. */
  lemma AddToExistingKey(keys: seq<ClassId>, groups: map<ClassId, seq<Binding>>, bs: seq<Binding>, b: Binding)
    requires Represents(keys, groups, bs) && ClassKey(b.info) in groups
    ensures Represents(keys, groups[ClassKey(b.info) := groups[ClassKey(b.info)] + [b]], bs + [b])
  {
    var k := ClassKey(b.info);
    var groups' := groups[k := groups[k] + [b]];
    KeysOfAppend(bs, b);
    forall k' | k' in groups' ensures groups'[k'] == GroupOf(bs + [b], k') {
      GroupOfAppend(bs, b, k');
    }
  }

  /** `MultivaluedMap.add` for a new class: it becomes the last key, with a one-element list. */
  lemma AddNewKey(keys: seq<ClassId>, groups: map<ClassId, seq<Binding>>, bs: seq<Binding>, b: Binding)
    requires Represents(keys, groups, bs) && ClassKey(b.info) !in groups
    ensures Represents(keys + [ClassKey(b.info)], groups[ClassKey(b.info) := [b]], bs + [b])
  {
    var k := ClassKey(b.info);
    var groups' := groups[k := [b]];
    KeysOfAppend(bs, b);
    GroupOfUnkeyed(bs, k);
    forall k' | k' in groups' ensures groups'[k'] == GroupOf(bs + [b], k') {
      GroupOfAppend(bs, b, k');
    }
  }

  class ModuleRegistry {
    const isServer: bool
    var initialized: bool
    var modules: seq<Module>
    var aggregated: SimpleModule
    var objectMapper: Option<ObjectMapper>
    var resourceRegistry: ResourceRegistry?
    var exceptionMapperRegistry: Option<set<ExceptionMapper>>

    /** The object mapper and the exception mapper registry only exist after `init`. */
    ghost predicate Valid()
      reads this
    {
      && (objectMapper.Some? ==> initialized)
      && (exceptionMapperRegistry.Some? ==> initialized)
    }

    constructor (isServer: bool)
      ensures Valid()
      ensures this.isServer == isServer && !initialized && modules == [] && aggregated == EmptyModule
      ensures objectMapper == None && resourceRegistry == null && exceptionMapperRegistry == None
    {
      this.isServer := isServer;
      initialized := false;
      modules := [];
      aggregated := EmptyModule;
      objectMapper := None;
      resourceRegistry := null;
      exceptionMapperRegistry := None;
    }

    method SetResourceRegistry(registry: ResourceRegistry?)
      modifies this
      ensures resourceRegistry == registry
      ensures initialized == old(initialized) && modules == old(modules) && aggregated == old(aggregated)
      ensures objectMapper == old(objectMapper) && exceptionMapperRegistry == old(exceptionMapperRegistry)
    {
      resourceRegistry := registry;
    }

    // -------------------------------------------------------------------------------------
    // Lifecycle

    /** `checkNotInitialized`: throws once the registry is initialised. */
    function CheckNotInitialized(): (r: Outcome<RegistryError>)
      reads this
      ensures r.Fail? <==> initialized
      ensures r.Fail? ==> r.error == AlreadyInitialized
    {
      if initialized then Fail(AlreadyInitialized) else Pass
    }

    /** One `ModuleContextImpl.add*` call. A guarded call on an initialised registry throws and
        leaves the aggregated module as it was; every other call appends its contribution.
        The object mapper is never present when `addJacksonModule` gets past its guard, so its
        registration there never happens. */
    method Contribute(x: Contribution) returns (o: Outcome<RegistryError>)
      requires Valid()
      modifies this
      ensures Valid()
      ensures (aggregated, o) == Receive(initialized, old(aggregated), x)
      ensures o.Fail? <==> initialized && Guarded(x)
      ensures x.AddJacksonModule? && o.Pass? ==> objectMapper == None
      ensures initialized == old(initialized) && modules == old(modules) && resourceRegistry == old(resourceRegistry)
      ensures objectMapper == old(objectMapper) && exceptionMapperRegistry == old(exceptionMapperRegistry)
    {
      if Guarded(x) {
        o := CheckNotInitialized();
        if o.Fail? {
          return;
        }
      }
      aggregated := Apply(aggregated, x);
      o := Pass;
    }

    /** `addModule`: the module's setup makes its calls in order; the first one that throws ends
        the setup (what it contributed before stays) and the module is not recorded. */
    method AddModule(m: Module) returns (o: Outcome<RegistryError>)
      requires Valid()
      modifies this
      ensures Valid()
      ensures (aggregated, o) == ReceiveAll(initialized, old(aggregated), m.setup)
      ensures modules == if o.Pass? then old(modules) + [m] else old(modules)
      ensures initialized == old(initialized) && resourceRegistry == old(resourceRegistry)
      ensures objectMapper == old(objectMapper) && exceptionMapperRegistry == old(exceptionMapperRegistry)
    {
      var xs, frozen := m.setup, initialized;
      ghost var start := aggregated;
      o := Pass;
      for i := 0 to |xs|
        invariant Valid()
        invariant ReceiveAll(frozen, start, xs[..i]) == (aggregated, Pass)
        invariant o.Pass?
        invariant initialized == frozen && modules == old(modules) && resourceRegistry == old(resourceRegistry)
        invariant objectMapper == old(objectMapper) && exceptionMapperRegistry == old(exceptionMapperRegistry)
      {
        ReceiveAllStep(frozen, start, xs, i);
        o := Contribute(xs[i]);
        if o.Fail? {
          FailureEndsSetup(frozen, start, xs, i + 1);
          return;
        }
      }
      assert xs[..|xs|] == xs;
      modules := modules + [m];
    }

    // -------------------------------------------------------------------------------------
    // Small aggregations

    /** `getSecurityProvider`: exactly one security provider must have been contributed. */
    function GetSecurityProvider(): (r: Result<SecurityProvider, RegistryError>)
      reads this
      ensures r.Success? <==> exists p :: aggregated.securityProviders == [p]
      ensures r.Success? ==> aggregated.securityProviders == [r.value]
      ensures r.Failure? ==> r.error == SecurityProviderCount(|aggregated.securityProviders|)
    {
      var providers := aggregated.securityProviders;
      if |providers| == 1 then
        assert providers == [providers[0]];
        Success(providers[0])
      else Failure(SecurityProviderCount(|providers|))
    }

    /** `getModule`: the first recorded module that is an instance of class `c`. */
    function GetModule(c: ClassId): (r: Option<Module>)
      reads this
      ensures r.Some? ==> exists i :: 0 <= i < |modules| && modules[i] == r.value && c in r.value.classes
                                      && forall j :: 0 <= j < i ==> c !in modules[j].classes
      ensures r.None? <==> forall i :: 0 <= i < |modules| ==> c !in modules[i].classes
    {
      match FirstIndex(modules, (m: Module) => c in m.classes)
      case Some(i) => Some(modules[i])
      case None => None
    }

    /** `getResourceInformationBuilder`: the combined builder over the contributed resource
        information builders, each initialised with the default context; it answers every
        class exactly as the uninitialised builders do. */
    method GetResourceInformationBuilder() returns (builders: seq<ResourceInformationBuilder>)
      ensures |builders| == |aggregated.resourceInformationBuilders|
      ensures forall i :: 0 <= i < |builders| ==>
        builders[i] == aggregated.resourceInformationBuilders[i].(context := Some(DefaultResourceInformationBuilderContext))
      ensures forall c :: ResourceBuild(builders, c) == ResourceBuild(aggregated.resourceInformationBuilders, c)
    {
      builders := InitResourceBuilders(aggregated.resourceInformationBuilders, DefaultResourceInformationBuilderContext);
      forall c | true
        ensures ResourceBuild(builders, c) == ResourceBuild(aggregated.resourceInformationBuilders, c)
      {
        InitKeepsResourceDispatch(aggregated.resourceInformationBuilders, builders, DefaultResourceInformationBuilderContext, c);
      }
    }

    // -------------------------------------------------------------------------------------
    // Decoration and entry building

    /** `decorateRepository`: the contributed decorator factories applied in order, then the
        resource registry injected into a registry-aware result. */
    method DecorateRepository(repository: Repo) returns (decorated: Repo)
      ensures decorated == Decorate(repository, aggregated.decoratorFactories, resourceRegistry)
    {
      var factories := aggregated.decoratorFactories;
      decorated := repository;
      for i := 0 to |factories|
        invariant decorated == Chain(repository, factories[..i])
      {
        assert factories[..i + 1][..i] == factories[..i];
        var f := factories[i];
        var decorator: Option<Repo> := None;
        if decorated.shape.relationshipRepository {
          decorator := f.decorateRelationshipRepository(decorated);
        } else if decorated.shape.resourceRepository {
          decorator := f.decorateResourceRepository(decorated);
        }
        if decorator.Some? {
          decorated := Wrap(decorator.value, decorated);
        }
      }
      assert factories[..|factories|] == factories;
      if decorated.shape.registryAware {
        decorated := decorated.(registry := resourceRegistry);
      }
    }

    /** `setupResourceRepository`. */
    method SetupResourceRepository(b: Binding) returns (entry: ResourceEntry)
      ensures entry == ResourceEntryFor(b, aggregated.decoratorFactories, resourceRegistry)
      ensures entry.repository.className != b.repository.className ==> entry.repository.decorated.Some?
    {
      var decorated := DecorateRepository(b.repository);
      ChainKeepsInnermost(b.repository, aggregated.decoratorFactories);
      if decorated.shape.resourceAnnotated {
        entry := AnnotatedResourceEntry(decorated);
      } else {
        entry := DirectResponseResourceEntry(decorated);
      }
    }

    /** `setupRelationship`: appends the entry for one relationship repository. */
    method SetupRelationship(entries: seq<RelationshipEntry>, b: Binding) returns (entries': seq<RelationshipEntry>)
      requires b.info.RelationshipRepositoryInformation?
      ensures entries' == entries + [RelationshipEntryFor(b, aggregated.decoratorFactories, resourceRegistry)]
    {
      var decorated := DecorateRepository(b.repository);
      if b.repository.shape.relationshipAnnotated {
        entries' := entries + [AnnotatedRelationshipEntry(decorated)];
      } else {
        entries' := entries + [DirectResponseRelationshipEntry(decorated, b.info.resourceInformation.resourceClass)];
      }
    }

    /** `mapRepositoryRegistrations`: classifies every non-decorator repository and lists it
        under its resource class; fails at the first repository no builder accepts. */
    method MapRepositoryRegistrations(repos: seq<Repo>) returns (r: Result<ClassMap, RegistryError>)
      ensures var expected := Bindings(repos, aggregated.repositoryInformationBuilders);
        && (r.Success? <==> expected.Success?)
        && (r.Failure? ==> r.error == expected.error)
        && (r.Success? ==>
              && r.value.keys == KeysOf(expected.value)
              && (forall k :: k in r.value.groups <==> k in r.value.keys)
              && (forall k :: k in r.value.groups ==> r.value.groups[k] == GroupOf(expected.value, k)))
    {
      var builders := aggregated.repositoryInformationBuilders;
      ghost var bs: seq<Binding> := [];
      var keys: seq<ClassId> := [];
      var groups: map<ClassId, seq<Binding>> := map[];
      for i := 0 to |repos|
        invariant Bindings(repos[..i], builders) == Success(bs)
        invariant Represents(keys, groups, bs)
      {
        BindingsStep(repos, builders, i);
        var repository := repos[i];
        if !IsDecorator(repository) {
          var info := RepositoryBuild(builders, repository);
          if info.Failure? {
            UnsupportedEndsMapping(repos, builders, i + 1);
            return Failure(info.error);
          }
          var b := Binding(info.value, repository);
          var k := ClassKey(info.value);
          if k in groups {
            AddToExistingKey(keys, groups, bs, b);
            groups := groups[k := groups[k] + [b]];
          } else {
            AddNewKey(keys, groups, bs, b);
            keys := keys + [k];
            groups := groups[k := [b]];
          }
          bs := bs + [b];
        }
      }
      assert repos[..|repos|] == repos;
      return Success(ClassMap(keys, groups));
    }

    /** `applyRepositoryRegistrationForClass`: builds the entry for class `k` from its group and
        adds it to the resource registry. */
    method ApplyRepositoryRegistrationForClass(k: ClassId, group: seq<Binding>) returns (o: Outcome<RegistryError>)
      modifies resourceRegistry
      ensures var step := ClassStep(k, group, aggregated.resourceInformationBuilders, aggregated.decoratorFactories,
                                    resourceRegistry);
        o == step.1 && (resourceRegistry != null ==> resourceRegistry.entries == old(resourceRegistry.entries) + step.0)
    {
      var factories, registry := aggregated.decoratorFactories, resourceRegistry;
      var resourceInfo: Option<RepositoryInformation> := None;
      var resourceEntry: Option<ResourceEntry> := None;
      var relationshipEntries: seq<RelationshipEntry> := [];
      for i := 0 to |group|
        invariant LastResourceIndex(group[..i]).None? ==> resourceInfo == None && resourceEntry == None
        invariant LastResourceIndex(group[..i]).Some? ==>
          var j := LastResourceIndex(group[..i]).value;
          resourceInfo == Some(group[j].info) && resourceEntry == Some(ResourceEntryFor(group[j], factories, registry))
        invariant relationshipEntries == RelationshipEntries(group[..i], factories, registry)
        invariant registry != null ==> registry.entries == old(registry.entries)
      {
        GroupStep(group, i, factories, registry);
        var b := group[i];
        if b.info.ResourceRepositoryInformation? {
          resourceInfo := Some(b.info);
          var entry := SetupResourceRepository(b);
          resourceEntry := Some(entry);
        } else {
          relationshipEntries := SetupRelationship(relationshipEntries, b);
        }
      }
      assert group[..|group|] == group;
      if resourceInfo == None {
        var builders := GetResourceInformationBuilder();
        var built := ResourceBuild(builders, k);
        assert built == ResourceBuild(aggregated.resourceInformationBuilders, k);
        if built.Failure? {
          return Fail(built.error);
        }
        resourceInfo := Some(ResourceRepositoryInformation(k, built.value.resourceType, built.value));
      }
      var registryEntry := RegistryEntry(resourceInfo.value, resourceEntry, relationshipEntries);
      assert EntryFor(k, group, aggregated.resourceInformationBuilders, factories, registry) == Success(registryEntry);
      if resourceRegistry == null {
        return Fail(ResourceRegistryMissing);
      }
      resourceRegistry.AddEntry(k, registryEntry);
      o := Pass;
    }

    /** `applyRepositoryRegistration`: maps the contributed repositories, then registers one
        entry per class key in key order; the first exception ends it. */
    method ApplyRepositoryRegistration() returns (o: Outcome<RegistryError>)
      modifies resourceRegistry
      ensures var mapped := Bindings(aggregated.repositories, aggregated.repositoryInformationBuilders);
        && (mapped.Failure? ==>
              o == Fail(mapped.error) && (resourceRegistry != null ==> resourceRegistry.entries == old(resourceRegistry.entries)))
        && (mapped.Success? ==>
              var reg := Registration(KeysOf(mapped.value), mapped.value, aggregated.resourceInformationBuilders,
                                      aggregated.decoratorFactories, resourceRegistry);
              o == reg.1 && (resourceRegistry != null ==> resourceRegistry.entries == old(resourceRegistry.entries) + reg.0))
    {
      var mapped := MapRepositoryRegistrations(aggregated.repositories);
      if mapped.Failure? {
        return Fail(mapped.error);
      }
      o := RegisterClasses(mapped.value, Bindings(aggregated.repositories, aggregated.repositoryInformationBuilders).value);
    }

    /** The loop of `applyRepositoryRegistration` over the keys of the class map built from `bs`. */
    method RegisterClasses(classMap: ClassMap, ghost bs: seq<Binding>) returns (o: Outcome<RegistryError>)
      requires forall k :: k in classMap.keys ==> k in classMap.groups && classMap.groups[k] == GroupOf(bs, k)
      modifies resourceRegistry
      ensures var reg := Registration(classMap.keys, bs, aggregated.resourceInformationBuilders,
                                      aggregated.decoratorFactories, resourceRegistry);
        o == reg.1 && (resourceRegistry != null ==> resourceRegistry.entries == old(resourceRegistry.entries) + reg.0)
    {
      var keys, groups := classMap.keys, classMap.groups;
      ghost var rb, fs := aggregated.resourceInformationBuilders, aggregated.decoratorFactories;
      var registry := resourceRegistry;
      ghost var base: seq<(ClassId, RegistryEntry)> := if registry != null then registry.entries else [];
      o := Pass;
      for i := 0 to |keys|
        invariant Registration(keys[..i], bs, rb, fs, registry).1.Pass?
        invariant registry != null ==> registry.entries == base + Registration(keys[..i], bs, rb, fs, registry).0
        invariant o.Pass?
      {
        var k := keys[i];
        assert k in groups && groups[k] == GroupOf(bs, k);
        ghost var step := ClassStep(k, GroupOf(bs, k), rb, fs, registry);
        ghost var done := base + Registration(keys[..i], bs, rb, fs, registry).0;
        o := ApplyRepositoryRegistrationForClass(k, groups[k]);
        assert o == step.1;
        ghost var after := if registry != null then registry.entries else done + step.0;
        assert after == done + step.0;
        RegistrationAdvance(keys, bs, rb, fs, registry, i, base, o, after);
        if o.Fail? {
          return;
        }
      }
      assert keys[..|keys|] == keys;
    }

    /** `init`: the first call sets the flag and the object mapper, registers the repositories
        and, when that passes, builds the exception mapper registry from the union of the
        contributed lookups; a later call changes nothing. */
    method Init(mapper: ObjectMapper) returns (o: Outcome<RegistryError>)
      requires Valid()
      modifies this, resourceRegistry
      ensures Valid()
      ensures old(initialized) ==>
        o == Pass && unchanged(this) && (resourceRegistry != null ==> unchanged(resourceRegistry))
      ensures !old(initialized) ==>
        var mapped := Bindings(aggregated.repositories, aggregated.repositoryInformationBuilders);
        && initialized && objectMapper == Some(mapper)
        && modules == old(modules) && aggregated == old(aggregated) && resourceRegistry == old(resourceRegistry)
        && (mapped.Failure? ==> o == Fail(mapped.error))
        && (mapped.Success? ==> o == Registration(KeysOf(mapped.value), mapped.value, aggregated.resourceInformationBuilders,
                                                  aggregated.decoratorFactories, resourceRegistry).1)
        && exceptionMapperRegistry == if o.Pass? then Some(UnionOf(aggregated.exceptionMapperLookups)) else None
      ensures !old(initialized) && resourceRegistry != null ==>
        var mapped := Bindings(aggregated.repositories, aggregated.repositoryInformationBuilders);
        && (mapped.Failure? ==> resourceRegistry.entries == old(resourceRegistry.entries))
        && (mapped.Success? ==>
              resourceRegistry.entries == old(resourceRegistry.entries)
                + Registration(KeysOf(mapped.value), mapped.value, aggregated.resourceInformationBuilders,
                               aggregated.decoratorFactories, resourceRegistry).0)
    {
      if initialized {
        return Pass;
      }
      initialized := true;
      objectMapper := Some(mapper);
      o := ApplyRepositoryRegistration();
      if o.Fail? {
        return;
      }
      var mappers := CombinedExceptionMappers(aggregated.exceptionMapperLookups);
      exceptionMapperRegistry := Some(mappers);
    }
  }
}
