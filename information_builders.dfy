/** `CombinedResourceInformationBuilder` and `CombinedRepositoryInformationBuilder`: the
    builders contributed by all modules, consulted in registration order; the first one that
    accepts a candidate answers for it. */
module InformationBuilders {
  import opened Wrappers
  import opened FirstMatch
  import opened Repositories

  /** The context a resource information builder is initialised with. */
  datatype BuilderContext = DefaultResourceInformationBuilderContext

  /** A contributed `ResourceInformationBuilder`; `context` is the last context passed to its `init`. */
  datatype ResourceInformationBuilder = ResourceInformationBuilder(
    accepts: ClassId -> bool,
    build: ClassId -> ResourceInformation,
    resourceType: ClassId -> string,
    context: Option<BuilderContext>)

  /** A contributed `RepositoryInformationBuilder`, with its two overloads: by repository
      object and by repository class. */
  datatype RepositoryInformationBuilder = RepositoryInformationBuilder(
    acceptsRepository: Repo -> bool,
    buildRepository: Repo -> RepositoryInformation,
    acceptsClass: ClassId -> bool,
    buildClass: ClassId -> RepositoryInformation)

  // ---------------------------------------------------------------------------------------
  // CombinedResourceInformationBuilder

  ghost predicate FirstResourceBuilder(builders: seq<ResourceInformationBuilder>, c: ClassId, i: int)
  {
    0 <= i < |builders| && builders[i].accepts(c) && forall j :: 0 <= j < i ==> !builders[j].accepts(c)
  }

  function FirstAcceptingResourceBuilder(builders: seq<ResourceInformationBuilder>, c: ClassId): (r: Option<nat>)
    ensures r.Some? ==> FirstResourceBuilder(builders, c, r.value)
    ensures r.None? <==> forall i :: 0 <= i < |builders| ==> !builders[i].accepts(c)
    ensures forall i :: FirstResourceBuilder(builders, c, i) ==> r == Some(i)
  {
    var p := (b: ResourceInformationBuilder) => b.accepts(c);
    var r := FirstIndex(builders, p);
    assert forall i :: 0 <= i < |builders| ==> p(builders[i]) == builders[i].accepts(c);
    r
  }

  /** `accept`: some builder accepts the class. */
  function ResourceAccept(builders: seq<ResourceInformationBuilder>, c: ClassId): bool
  {
    FirstAcceptingResourceBuilder(builders, c).Some?
  }

  /** A class is accepted exactly when some builder accepts it. */
  lemma ResourceAcceptMeans(builders: seq<ResourceInformationBuilder>, c: ClassId)
    ensures ResourceAccept(builders, c) <==> exists i :: 0 <= i < |builders| && builders[i].accepts(c)
  {
  }

  /** `build`: the first accepting builder's information, or UnsupportedOperationException. */
  function ResourceBuild(builders: seq<ResourceInformationBuilder>, c: ClassId): (r: Result<ResourceInformation, RegistryError>)
    ensures r.Failure? <==> !ResourceAccept(builders, c)
    ensures r.Failure? ==> r.error == NoResourceInformationBuilder(c)
  {
    match FirstAcceptingResourceBuilder(builders, c)
    case None => Failure(NoResourceInformationBuilder(c))
    case Some(i) => Success(builders[i].build(c))
  }

  /** The information comes from the first builder that accepts the class. */
  lemma ResourceBuildUsesFirst(builders: seq<ResourceInformationBuilder>, c: ClassId, i: int)
    requires FirstResourceBuilder(builders, c, i)
    ensures ResourceBuild(builders, c) == Success(builders[i].build(c))
  {
  }

  /** `getResourceType`: the first accepting builder's answer, or null. */
  function ResourceTypeOf(builders: seq<ResourceInformationBuilder>, c: ClassId): (r: Option<string>)
    ensures r.None? <==> !ResourceAccept(builders, c)
    ensures forall i :: FirstResourceBuilder(builders, c, i) ==> r == Some(builders[i].resourceType(c))
  {
    match FirstAcceptingResourceBuilder(builders, c)
    case None => None
    case Some(i) => Some(builders[i].resourceType(c))
  }

  /** `init`: every builder is initialised with the context, whether or not it accepts anything. */
  method InitResourceBuilders(builders: seq<ResourceInformationBuilder>, ctx: BuilderContext)
    returns (inited: seq<ResourceInformationBuilder>)
    ensures |inited| == |builders|
    ensures forall i :: 0 <= i < |builders| ==> inited[i] == builders[i].(context := Some(ctx))
  {
    inited := [];
    for k := 0 to |builders|
      invariant |inited| == k
      invariant forall i :: 0 <= i < k ==> inited[i] == builders[i].(context := Some(ctx))
    {
      inited := inited + [builders[k].(context := Some(ctx))];
    }
  }

  /** Initialising the builders does not change which builder answers for a class. */
  lemma InitKeepsResourceDispatch(builders: seq<ResourceInformationBuilder>, inited: seq<ResourceInformationBuilder>,
                                  ctx: BuilderContext, c: ClassId)
    requires |inited| == |builders|
    requires forall i :: 0 <= i < |builders| ==> inited[i] == builders[i].(context := Some(ctx))
    ensures ResourceBuild(inited, c) == ResourceBuild(builders, c)
    ensures ResourceTypeOf(inited, c) == ResourceTypeOf(builders, c)
  {
    match FirstAcceptingResourceBuilder(builders, c)
    case None =>
    case Some(i) => assert FirstResourceBuilder(inited, c, i);
  }

  /** Builders registered later never override an earlier builder that accepts the class;
      they are consulted only when no earlier builder accepts it. */
  lemma EarlierResourceBuilderWins(builders: seq<ResourceInformationBuilder>, later: seq<ResourceInformationBuilder>, c: ClassId)
    ensures ResourceAccept(builders, c) ==> ResourceBuild(builders + later, c) == ResourceBuild(builders, c)
    ensures !ResourceAccept(builders, c) ==> ResourceBuild(builders + later, c) == ResourceBuild(later, c)
  {
    FirstIndexAppend(builders, later, (b: ResourceInformationBuilder) => b.accepts(c));
    var all := builders + later;
    match FirstAcceptingResourceBuilder(later, c)
    case None =>
    case Some(k) =>
      if !ResourceAccept(builders, c) {
        assert all[|builders| + k] == later[k];
      }
  }

  // ---------------------------------------------------------------------------------------
  // CombinedRepositoryInformationBuilder

  ghost predicate FirstRepositoryBuilder(builders: seq<RepositoryInformationBuilder>, repository: Repo, i: int)
  {
    0 <= i < |builders| && builders[i].acceptsRepository(repository)
    && forall j :: 0 <= j < i ==> !builders[j].acceptsRepository(repository)
  }

  ghost predicate FirstRepositoryClassBuilder(builders: seq<RepositoryInformationBuilder>, c: ClassId, i: int)
  {
    0 <= i < |builders| && builders[i].acceptsClass(c) && forall j :: 0 <= j < i ==> !builders[j].acceptsClass(c)
  }

  function FirstAcceptingRepositoryBuilder(builders: seq<RepositoryInformationBuilder>, repository: Repo): Option<nat>
  {
    FirstIndex(builders, (b: RepositoryInformationBuilder) => b.acceptsRepository(repository))
  }

  /** The builder found is the first that accepts the repository; none is found when no
      builder accepts it. */
  lemma FirstAcceptingRepositoryBuilderIsFirst(builders: seq<RepositoryInformationBuilder>, repository: Repo)
    ensures var r := FirstAcceptingRepositoryBuilder(builders, repository);
      && (r.Some? ==> FirstRepositoryBuilder(builders, repository, r.value))
      && (r.None? <==> forall i :: 0 <= i < |builders| ==> !builders[i].acceptsRepository(repository))
      && (forall i :: FirstRepositoryBuilder(builders, repository, i) ==> r == Some(i))
  {
    var p := (b: RepositoryInformationBuilder) => b.acceptsRepository(repository);
    assert forall i :: 0 <= i < |builders| ==> p(builders[i]) == builders[i].acceptsRepository(repository);
  }

  function FirstAcceptingRepositoryClassBuilder(builders: seq<RepositoryInformationBuilder>, c: ClassId): (r: Option<nat>)
    ensures r.Some? ==> FirstRepositoryClassBuilder(builders, c, r.value)
    ensures r.None? <==> forall i :: 0 <= i < |builders| ==> !builders[i].acceptsClass(c)
    ensures forall i :: FirstRepositoryClassBuilder(builders, c, i) ==> r == Some(i)
  {
    var p := (b: RepositoryInformationBuilder) => b.acceptsClass(c);
    var r := FirstIndex(builders, p);
    assert forall i :: 0 <= i < |builders| ==> p(builders[i]) == builders[i].acceptsClass(c);
    r
  }

  /** `accept(Object)`: some builder accepts the repository. */
  function RepositoryAccept(builders: seq<RepositoryInformationBuilder>, repository: Repo): bool
  {
    FirstAcceptingRepositoryBuilder(builders, repository).Some?
  }

  /** A repository is accepted exactly when some builder accepts it. */
  lemma RepositoryAcceptMeans(builders: seq<RepositoryInformationBuilder>, repository: Repo)
    ensures RepositoryAccept(builders, repository)
        <==> exists i :: 0 <= i < |builders| && builders[i].acceptsRepository(repository)
  {
    FirstAcceptingRepositoryBuilderIsFirst(builders, repository);
  }

  /** `build(Object, context)`: the first accepting builder's information, or
      UnsupportedOperationException naming the repository's class. */
  function RepositoryBuild(builders: seq<RepositoryInformationBuilder>, repository: Repo)
    : (r: Result<RepositoryInformation, RegistryError>)
    ensures r.Failure? <==> !RepositoryAccept(builders, repository)
    ensures r.Failure? ==> r.error == NoRepositoryInformationBuilder(repository.className)
  {
    match FirstAcceptingRepositoryBuilder(builders, repository)
    case None => Failure(NoRepositoryInformationBuilder(repository.className))
    case Some(i) => Success(builders[i].buildRepository(repository))
  }

  /** The information comes from the first builder that accepts the repository. */
  lemma RepositoryBuildUsesFirst(builders: seq<RepositoryInformationBuilder>, repository: Repo, i: int)
    requires FirstRepositoryBuilder(builders, repository, i)
    ensures RepositoryBuild(builders, repository) == Success(builders[i].buildRepository(repository))
  {
    FirstAcceptingRepositoryBuilderIsFirst(builders, repository);
  }

  /** `accept(Class)`: some builder accepts the repository class. */
  function RepositoryClassAccept(builders: seq<RepositoryInformationBuilder>, c: ClassId): (r: bool)
    ensures r <==> exists i :: 0 <= i < |builders| && builders[i].acceptsClass(c)
  {
    FirstAcceptingRepositoryClassBuilder(builders, c).Some?
  }

  /** `build(Class, context)`: the first accepting builder's information, or
      UnsupportedOperationException naming the class. */
  function RepositoryClassBuild(builders: seq<RepositoryInformationBuilder>, c: ClassId)
    : (r: Result<RepositoryInformation, RegistryError>)
    ensures r.Failure? <==> !RepositoryClassAccept(builders, c)
    ensures r.Failure? ==> r.error == NoRepositoryInformationBuilder(c)
    ensures forall i :: FirstRepositoryClassBuilder(builders, c, i) ==> r == Success(builders[i].buildClass(c))
  {
    match FirstAcceptingRepositoryClassBuilder(builders, c)
    case None => Failure(NoRepositoryInformationBuilder(c))
    case Some(i) => Success(builders[i].buildClass(c))
  }

  /** Registration order decides: a later repository information builder answers for a
      repository only when no earlier one accepts it. */
  lemma EarlierRepositoryBuilderWins(builders: seq<RepositoryInformationBuilder>, later: seq<RepositoryInformationBuilder>,
                                     repository: Repo)
    ensures RepositoryAccept(builders, repository) ==>
      RepositoryBuild(builders + later, repository) == RepositoryBuild(builders, repository)
    ensures !RepositoryAccept(builders, repository) ==>
      RepositoryBuild(builders + later, repository) == RepositoryBuild(later, repository)
  {
    FirstIndexAppend(builders, later, (b: RepositoryInformationBuilder) => b.acceptsRepository(repository));
    var all := builders + later;
    match FirstAcceptingRepositoryBuilder(later, repository)
    case None =>
    case Some(k) =>
      if !RepositoryAccept(builders, repository) {
        assert all[|builders| + k] == later[k];
      }
  }
}
