/** What modules contribute while the registry is being set up: the aggregated `SimpleModule`
    of ordered lists, the `ModuleContextImpl.add*` calls that append to it, and the rule that
    all but two of those calls are refused once the registry is initialised. */
module Contributions {
  import opened Wrappers
  import opened Repositories
  import opened InformationBuilders
  import opened Decoration
  import opened ExceptionMappers

  // Contributions the registry only stores and hands out, by identity.
  type ResourceLookup = nat
  type JacksonModule = nat
  type DocumentFilter = nat
  type SecurityProvider = nat
  type HttpRequestProcessor = nat
  type RepositoryFilter = nat

  /** The aggregated module: one list per kind of contribution, in contribution order. */
  datatype SimpleModule = SimpleModule(
    resourceInformationBuilders: seq<ResourceInformationBuilder>,
    repositoryInformationBuilders: seq<RepositoryInformationBuilder>,
    resourceLookups: seq<ResourceLookup>,
    jacksonModules: seq<JacksonModule>,
    filters: seq<DocumentFilter>,
    exceptionMapperLookups: seq<ExceptionMapperLookup>,
    exceptionMappers: seq<ExceptionMapper>,
    repositories: seq<Repo>,
    securityProviders: seq<SecurityProvider>,
    httpRequestProcessors: seq<HttpRequestProcessor>,
    repositoryFilters: seq<RepositoryFilter>,
    decoratorFactories: seq<DecoratorFactory>)

  const EmptyModule := SimpleModule([], [], [], [], [], [], [], [], [], [], [], [])

  /** One call a module makes on its `ModuleContext`. */
  datatype Contribution =
    | AddResourceInformationBuilder(resourceInformationBuilder: ResourceInformationBuilder)
    | AddRepositoryInformationBuilder(repositoryInformationBuilder: RepositoryInformationBuilder)
    | AddResourceLookup(resourceLookup: ResourceLookup)
    | AddJacksonModule(jacksonModule: JacksonModule)
    | AddFilter(filter: DocumentFilter)
    | AddExceptionMapperLookup(exceptionMapperLookup: ExceptionMapperLookup)
    | AddExceptionMapper(exceptionMapper: ExceptionMapper)
    | AddResourceRepository(resourceType: ClassId, repository: Repo)                          // addRepository(Class, Object)
    | AddRelationshipRepository(sourceType: ClassId, targetType: ClassId, repository: Repo)   // addRepository(Class, Class, Object)
    | AddSecurityProvider(securityProvider: SecurityProvider)
    | AddHttpRequestProcessor(processor: HttpRequestProcessor)
    | AddRepositoryFilter(repositoryFilter: RepositoryFilter)
    | AddRepositoryDecoratorFactory(decoratorFactory: DecoratorFactory)
    | AddRepository(repository: Repo)                                                          // addRepository(Object)

  /** A module: the classes it is an instance of, and the calls its `setupModule` makes. */
  datatype Module = Module(name: string, classes: set<ClassId>, setup: seq<Contribution>)

  /** Every `add*` call except `addHttpRequestProcessor` and `addRepository(Object)` first
      checks that the registry is not yet initialised. */
  predicate Guarded(x: Contribution)
  {
    !(x.AddHttpRequestProcessor? || x.AddRepository?)
  }

  /** Total number of contributions held. */
  function Size(m: SimpleModule): nat
  {
    |m.resourceInformationBuilders| + |m.repositoryInformationBuilders| + |m.resourceLookups|
    + |m.jacksonModules| + |m.filters| + |m.exceptionMapperLookups| + |m.exceptionMappers|
    + |m.repositories| + |m.securityProviders| + |m.httpRequestProcessors| + |m.repositoryFilters|
    + |m.decoratorFactories|
  }

  /** Every list of `m` is a prefix of the corresponding list of `m'`: nothing was removed,
      replaced or reordered. */
  ghost predicate Extends(m: SimpleModule, m': SimpleModule)
  {
    && m.resourceInformationBuilders <= m'.resourceInformationBuilders
    && m.repositoryInformationBuilders <= m'.repositoryInformationBuilders
    && m.resourceLookups <= m'.resourceLookups
    && m.jacksonModules <= m'.jacksonModules
    && m.filters <= m'.filters
    && m.exceptionMapperLookups <= m'.exceptionMapperLookups
    && m.exceptionMappers <= m'.exceptionMappers
    && m.repositories <= m'.repositories
    && m.securityProviders <= m'.securityProviders
    && m.httpRequestProcessors <= m'.httpRequestProcessors
    && m.repositoryFilters <= m'.repositoryFilters
    && m.decoratorFactories <= m'.decoratorFactories
  }

  /** The repository an `addRepository` call carries, whichever of its three overloads. */
  function RepositoryOf(x: Contribution): seq<Repo>
  {
    if x.AddResourceRepository? || x.AddRelationshipRepository? || x.AddRepository? then [x.repository] else []
  }

  function DecoratorFactoryOf(x: Contribution): seq<DecoratorFactory>
  {
    if x.AddRepositoryDecoratorFactory? then [x.decoratorFactory] else []
  }

  /** The aggregated module after the `add*` call `x` got past its guard: nothing is removed
      or reordered, and exactly one element is added. */
  function Apply(m: SimpleModule, x: Contribution): (r: SimpleModule)
    ensures Extends(m, r) && Size(r) == Size(m) + 1
  {
    match x
    case AddResourceInformationBuilder(b) => m.(resourceInformationBuilders := m.resourceInformationBuilders + [b])
    case AddRepositoryInformationBuilder(b) => m.(repositoryInformationBuilders := m.repositoryInformationBuilders + [b])
    case AddResourceLookup(l) => m.(resourceLookups := m.resourceLookups + [l])
    case AddJacksonModule(j) => m.(jacksonModules := m.jacksonModules + [j])
    case AddFilter(f) => m.(filters := m.filters + [f])
    case AddExceptionMapperLookup(l) => m.(exceptionMapperLookups := m.exceptionMapperLookups + [l])
    case AddExceptionMapper(e) => m.(exceptionMappers := m.exceptionMappers + [e])
    case AddResourceRepository(_, repo) => m.(repositories := m.repositories + [repo])
    case AddRelationshipRepository(_, _, repo) => m.(repositories := m.repositories + [repo])
    case AddSecurityProvider(p) => m.(securityProviders := m.securityProviders + [p])
    case AddHttpRequestProcessor(p) => m.(httpRequestProcessors := m.httpRequestProcessors + [p])
    case AddRepositoryFilter(f) => m.(repositoryFilters := m.repositoryFilters + [f])
    case AddRepositoryDecoratorFactory(f) => m.(decoratorFactories := m.decoratorFactories + [f])
    case AddRepository(repo) => m.(repositories := m.repositories + [repo])
  }

  /** Which list an accepted call grows and with what: the list of the call's kind grows by
      the call's argument at its end, and every other list is unchanged. The two
      `addRepository` overloads with class arguments store only the repository. */
  lemma ApplyAppendsArgument(m: SimpleModule, x: Contribution)
    ensures Apply(m, x).resourceInformationBuilders == m.resourceInformationBuilders
      + (if x.AddResourceInformationBuilder? then [x.resourceInformationBuilder] else [])
    ensures Apply(m, x).repositoryInformationBuilders == m.repositoryInformationBuilders
      + (if x.AddRepositoryInformationBuilder? then [x.repositoryInformationBuilder] else [])
    ensures Apply(m, x).resourceLookups == m.resourceLookups + (if x.AddResourceLookup? then [x.resourceLookup] else [])
    ensures Apply(m, x).jacksonModules == m.jacksonModules + (if x.AddJacksonModule? then [x.jacksonModule] else [])
    ensures Apply(m, x).filters == m.filters + (if x.AddFilter? then [x.filter] else [])
    ensures Apply(m, x).exceptionMapperLookups == m.exceptionMapperLookups
      + (if x.AddExceptionMapperLookup? then [x.exceptionMapperLookup] else [])
    ensures Apply(m, x).exceptionMappers == m.exceptionMappers + (if x.AddExceptionMapper? then [x.exceptionMapper] else [])
    ensures Apply(m, x).repositories == m.repositories + RepositoryOf(x)
    ensures Apply(m, x).securityProviders == m.securityProviders + (if x.AddSecurityProvider? then [x.securityProvider] else [])
    ensures Apply(m, x).httpRequestProcessors == m.httpRequestProcessors
      + (if x.AddHttpRequestProcessor? then [x.processor] else [])
    ensures Apply(m, x).repositoryFilters == m.repositoryFilters + (if x.AddRepositoryFilter? then [x.repositoryFilter] else [])
    ensures Apply(m, x).decoratorFactories == m.decoratorFactories + DecoratorFactoryOf(x)
  {
  }

  /** One `add*` call on a registry whose initialised flag is `frozen`: the new aggregated
      module and whether the call threw IllegalStateException. */
  function Receive(frozen: bool, m: SimpleModule, x: Contribution): (SimpleModule, Outcome<RegistryError>)
  {
    if frozen && Guarded(x) then (m, Fail(AlreadyInitialized)) else (Apply(m, x), Pass)
  }

  /** `setupModule` making the calls `xs` in order; the first exception ends it. */
  function ReceiveAll(frozen: bool, m: SimpleModule, xs: seq<Contribution>): (SimpleModule, Outcome<RegistryError>)
    decreases |xs|
  {
    if xs == [] then (m, Pass)
    else
      var before := ReceiveAll(frozen, m, xs[..|xs| - 1]);
      if before.1.Fail? then before else Receive(frozen, before.0, xs[|xs| - 1])
  }

  /** The calls `xs` all getting past their guard. */
  function ApplyAll(m: SimpleModule, xs: seq<Contribution>): (r: SimpleModule)
    ensures Extends(m, r) && Size(r) == Size(m) + |xs|
    decreases |xs|
  {
    if xs == [] then m else Apply(ApplyAll(m, xs[..|xs| - 1]), xs[|xs| - 1])
  }

  /** The repositories carried by the calls `xs`, in call order. */
  function RepositoriesIn(xs: seq<Contribution>): seq<Repo>
    decreases |xs|
  {
    if xs == [] then []
    else
      RepositoriesIn(xs[..|xs| - 1]) + RepositoryOf(xs[|xs| - 1])
  }

  /** The decorator factories carried by the calls `xs`, in call order. */
  function DecoratorFactoriesIn(xs: seq<Contribution>): seq<DecoratorFactory>
    decreases |xs|
  {
    if xs == [] then []
    else
      DecoratorFactoriesIn(xs[..|xs| - 1]) + DecoratorFactoryOf(xs[|xs| - 1])
  }

  /** The aggregated repositories and decorator factories are the contributed ones in the
      order they were contributed, which is the order the registry builder and the decorator
      chain later use. */
  lemma {:induction false} ContributionOrderKept(m: SimpleModule, xs: seq<Contribution>)
    ensures ApplyAll(m, xs).repositories == m.repositories + RepositoriesIn(xs)
    ensures ApplyAll(m, xs).decoratorFactories == m.decoratorFactories + DecoratorFactoriesIn(xs)
    decreases |xs|
  {
    if xs != [] {
      var front, x := xs[..|xs| - 1], xs[|xs| - 1];
      ContributionOrderKept(m, front);
      var before := ApplyAll(m, front);
      assert ApplyAll(m, xs) == Apply(before, x);
      ApplyAppendsArgument(before, x);
      assert RepositoriesIn(xs) == RepositoriesIn(front) + RepositoryOf(x);
      assert DecoratorFactoriesIn(xs) == DecoratorFactoriesIn(front) + DecoratorFactoryOf(x);
    }
  }

  /** Before initialisation every call of a module's setup is accepted. */
  lemma {:induction false} OpenSetupAppliesAll(m: SimpleModule, xs: seq<Contribution>)
    ensures ReceiveAll(false, m, xs) == (ApplyAll(m, xs), Pass)
    decreases |xs|
  {
    if xs != [] {
      OpenSetupAppliesAll(m, xs[..|xs| - 1]);
    }
  }

  /** After initialisation, a setup made only of the two unguarded calls still appends. */
  lemma {:induction false} FrozenSetupWithoutGuardedCalls(m: SimpleModule, xs: seq<Contribution>)
    requires forall j :: 0 <= j < |xs| ==> !Guarded(xs[j])
    ensures ReceiveAll(true, m, xs) == (ApplyAll(m, xs), Pass)
    decreases |xs|
  {
    if xs != [] {
      FrozenSetupWithoutGuardedCalls(m, xs[..|xs| - 1]);
    }
  }

  /** One more call of the setup, after the calls before it all got through. */
  lemma ReceiveAllStep(frozen: bool, m: SimpleModule, xs: seq<Contribution>, i: nat)
    requires i < |xs| && ReceiveAll(frozen, m, xs[..i]).1.Pass?
    ensures ReceiveAll(frozen, m, xs[..i + 1]) == Receive(frozen, ReceiveAll(frozen, m, xs[..i]).0, xs[i])
  {
    assert xs[..i + 1][..i] == xs[..i];
  }

  /** Once a call of the setup has thrown, the calls after it are never made. */
  lemma {:induction false} FailureEndsSetup(frozen: bool, m: SimpleModule, xs: seq<Contribution>, k: nat)
    requires k <= |xs|
    requires ReceiveAll(frozen, m, xs[..k]).1.Fail?
    ensures ReceiveAll(frozen, m, xs) == ReceiveAll(frozen, m, xs[..k])
    decreases |xs| - k
  {
    if k < |xs| {
      assert xs[..k + 1][..k] == xs[..k];
      assert ReceiveAll(frozen, m, xs[..k + 1]) == ReceiveAll(frozen, m, xs[..k]);
      FailureEndsSetup(frozen, m, xs, k + 1);
    } else {
      assert xs[..k] == xs;
    }
  }

  /** After initialisation, a setup fails at its first guarded call: the unguarded calls
      before it have been applied, nothing from it onwards. */
  lemma FrozenSetupStopsAtGuardedCall(m: SimpleModule, xs: seq<Contribution>, i: nat)
    requires i < |xs| && Guarded(xs[i])
    requires forall j :: 0 <= j < i ==> !Guarded(xs[j])
    ensures ReceiveAll(true, m, xs) == (ApplyAll(m, xs[..i]), Fail(AlreadyInitialized))
  {
    FrozenSetupWithoutGuardedCalls(m, xs[..i]);
    assert xs[..i + 1][..i] == xs[..i];
    FailureEndsSetup(true, m, xs, i + 1);
  }
}
