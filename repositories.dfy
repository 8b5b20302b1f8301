/** The entities the registry builder works on: raw repositories reduced to the capability
    tags the Java code tests with `instanceof` and annotation lookups, the information the
    builders derive from them, and the registry entries that result. */
module Repositories {
  import opened Wrappers

  /** A Java class, by its fully qualified name. */
  type ClassId = string

  /** What reflection reveals about a repository object. */
  datatype Shape = Shape(
    resourceRepository: bool,      // instanceof ResourceRepositoryV2
    relationshipRepository: bool,  // instanceof RelationshipRepositoryV2
    resourceDecorator: bool,       // instanceof ResourceRepositoryDecorator
    relationshipDecorator: bool,   // instanceof RelationshipRepositoryDecorator
    registryAware: bool,           // instanceof ResourceRegistryAware
    resourceAnnotated: bool,       // class carries @JsonApiResourceRepository
    relationshipAnnotated: bool)   // class carries @JsonApiRelationshipRepository

  /** A repository object. A decorator records the object it wraps in `decorated`
      (`Decorator.setDecoratedObject`); `registry` is what `setResourceRegistry` injected. */
  datatype Repo = Repo(className: ClassId, shape: Shape, decorated: Option<Repo>, registry: ResourceRegistry?)

  /** A repository that is itself a decorator; the registry builder skips these. */
  predicate IsDecorator(r: Repo)
  {
    r.shape.resourceDecorator || r.shape.relationshipDecorator
  }

  datatype ResourceInformation = ResourceInformation(resourceClass: ClassId, resourceType: string)

  /** What a repository information builder makes of a repository. */
  datatype RepositoryInformation =
    | ResourceRepositoryInformation(
        repositoryClass: ClassId, resourceType: string, resourceInformation: ResourceInformation)
    | RelationshipRepositoryInformation(
        repositoryClass: ClassId, sourceResourceInformation: ResourceInformation,
        resourceInformation: ResourceInformation)

  /** The resource class a repository is grouped under: the resource class of a resource
      repository, the source resource class of a relationship repository. */
  function ClassKey(info: RepositoryInformation): ClassId
  {
    match info
    case ResourceRepositoryInformation(_, _, ri) => ri.resourceClass
    case RelationshipRepositoryInformation(_, source, _) => source.resourceClass
  }

  /** A classified repository together with the raw object it was built from
      (one pair of the `resourceMapping` map). */
  datatype Binding = Binding(info: RepositoryInformation, repository: Repo)

  datatype ResourceEntry =
    | AnnotatedResourceEntry(repository: Repo)
    | DirectResponseResourceEntry(repository: Repo)

  datatype RelationshipEntry =
    | AnnotatedRelationshipEntry(repository: Repo)
    | DirectResponseRelationshipEntry(repository: Repo, targetAffiliation: ClassId)

  /** One resource class's entry: its repository information, its resource entry (absent for
      a class reached only through relationship repositories) and its relationship entries. */
  datatype RegistryEntry = RegistryEntry(
    repositoryInformation: RepositoryInformation,
    resourceEntry: Option<ResourceEntry>,
    relationshipEntries: seq<RelationshipEntry>)

  /** The resource registry the module registry fills; it records the entries in the order
      they are added. */
  class ResourceRegistry {
    var entries: seq<(ClassId, RegistryEntry)>

    constructor ()
      ensures entries == []
    {
      entries := [];
    }

    method AddEntry(resourceClass: ClassId, entry: RegistryEntry)
      modifies this
      ensures entries == old(entries) + [(resourceClass, entry)]
    {
      entries := entries + [(resourceClass, entry)];
    }
  }

  /** The exceptions the module registry throws. */
  datatype RegistryError =
    | AlreadyInitialized                                  // IllegalStateException from checkNotInitialized
    | NoRepositoryInformationBuilder(className: ClassId)  // UnsupportedOperationException
    | NoResourceInformationBuilder(className: ClassId)    // UnsupportedOperationException
    | SecurityProviderCount(count: nat)                   // "exactly one security provide must be installed"
    | ResourceRegistryMissing                             // NullPointerException on resourceRegistry.addEntry
}
