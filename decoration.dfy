/** The decorator chain `decorateRepository` builds around a raw repository: every
    contributed factory, in registration order, is offered the current object; a factory that
    returns a decorator wraps it, one that returns null leaves it as it is. */
module Decoration {
  import opened Wrappers
  import opened Repositories

  /** A contributed `RepositoryDecoratorFactory` with its two overloads. */
  datatype DecoratorFactory = DecoratorFactory(
    decorateResourceRepository: Repo -> Option<Repo>,
    decorateRelationshipRepository: Repo -> Option<Repo>)

  /** What the factory returns for the current object: a relationship-shaped object goes to the
      relationship overload even when it is also resource-shaped; an object of neither shape
      is not offered at all. */
  function Offer(f: DecoratorFactory, current: Repo): (r: Option<Repo>)
    ensures r.Some? ==> current.shape.relationshipRepository || current.shape.resourceRepository
    ensures current.shape.relationshipRepository ==> r == f.decorateRelationshipRepository(current)
    ensures !current.shape.relationshipRepository && current.shape.resourceRepository ==>
      r == f.decorateResourceRepository(current)
  {
    if current.shape.relationshipRepository then f.decorateRelationshipRepository(current)
    else if current.shape.resourceRepository then f.decorateResourceRepository(current)
    else None
  }

  /** `decorator.setDecoratedObject(current)`. */
  function Wrap(decorator: Repo, current: Repo): Repo
  {
    decorator.(decorated := Some(current))
  }

  /** One iteration of the loop: the current object after offering it to `f`. */
  function Step(current: Repo, f: DecoratorFactory): (r: Repo)
    ensures Offer(f, current).None? ==> r == current
    ensures Offer(f, current).Some? ==> r.decorated == Some(current)
    ensures Offer(f, current).Some? ==>
      var decorator := Offer(f, current).value;
      r.className == decorator.className && r.shape == decorator.shape && r.registry == decorator.registry
  {
    match Offer(f, current)
    case None => current
    case Some(decorator) => Wrap(decorator, current)
  }

  /** The object after offering `repository` to every factory of `factories` in order. */
  function Chain(repository: Repo, factories: seq<DecoratorFactory>): Repo
    decreases |factories|
  {
    if factories == [] then repository
    else Step(Chain(repository, factories[..|factories| - 1]), factories[|factories| - 1])
  }

  /** The registry is injected into the final object only if it is registry-aware. */
  function InjectRegistry(r: Repo, registry: ResourceRegistry?): (injected: Repo)
    ensures injected.(registry := r.registry) == r
    ensures injected.registry == if r.shape.registryAware then registry else r.registry
  {
    if r.shape.registryAware then r.(registry := registry) else r
  }

  /** `decorateRepository(repository)` of a registry whose factories are `factories` and whose
      resource registry is `registry`. */
  function Decorate(repository: Repo, factories: seq<DecoratorFactory>, registry: ResourceRegistry?): Repo
  {
    InjectRegistry(Chain(repository, factories), registry)
  }

  /** Follows the decorated-object links to the object the chain was built around. */
  function Innermost(r: Repo): Repo
  {
    match r.decorated
    case None => r
    case Some(inner) => Innermost(inner)
  }

  /** Number of decorators around the innermost object. */
  function Depth(r: Repo): nat
  {
    match r.decorated
    case None => 0
    case Some(inner) => 1 + Depth(inner)
  }

  /** Applying the factories of `fs + gs` is applying those of `fs`, then those of `gs`. */
  lemma {:induction false} ChainAppend(repository: Repo, fs: seq<DecoratorFactory>, gs: seq<DecoratorFactory>)
    ensures Chain(repository, fs + gs) == Chain(Chain(repository, fs), gs)
    decreases |gs|
  {
    if gs == [] {
      assert fs + gs == fs;
    } else {
      var last := |gs| - 1;
      assert (fs + gs)[..|fs + gs| - 1] == fs + gs[..last];
      ChainAppend(repository, fs, gs[..last]);
    }
  }

  /** A factory that declines leaves the chain as if it had never been registered, wherever it
      stands in the registration order. */
  lemma DecliningFactoryIsNoOp(repository: Repo, fs: seq<DecoratorFactory>, k: nat, f: DecoratorFactory)
    requires k <= |fs|
    requires forall r :: f.decorateResourceRepository(r).None? && f.decorateRelationshipRepository(r).None?
    ensures Chain(repository, fs[..k] + [f] + fs[k..]) == Chain(repository, fs)
  {
    var front := Chain(repository, fs[..k]);
    assert Offer(f, front).None?;
    assert [f][..0] == [];
    calc {
      Chain(repository, fs[..k] + [f] + fs[k..]);
      { ChainAppend(repository, fs[..k] + [f], fs[k..]); }
      Chain(Chain(repository, fs[..k] + [f]), fs[k..]);
      { ChainAppend(repository, fs[..k], [f]); }
      Chain(Chain(front, [f]), fs[k..]);
      Chain(front, fs[k..]);
      { ChainAppend(repository, fs[..k], fs[k..]); }
      Chain(repository, fs[..k] + fs[k..]);
      { assert fs[..k] + fs[k..] == fs; }
      Chain(repository, fs);
    }
  }

  /** Unwrapping the chain returns the object it was built around: every decorator records
      the object it decorates. */
  lemma {:induction false} ChainKeepsInnermost(repository: Repo, fs: seq<DecoratorFactory>)
    ensures Innermost(Chain(repository, fs)) == Innermost(repository)
    ensures Depth(repository) <= Depth(Chain(repository, fs)) <= Depth(repository) + |fs|
    decreases |fs|
  {
    if fs != [] {
      ChainKeepsInnermost(repository, fs[..|fs| - 1]);
    }
  }

  /** Three factories A, B, C where A and C return decorators for a resource repository and B
      declines: the result is C's decorator around A's decorator around the raw repository. */
  lemma DeclineDoesNotBind(raw: Repo, a: DecoratorFactory, b: DecoratorFactory, c: DecoratorFactory,
                           decoratorA: Repo, decoratorC: Repo)
    requires raw.shape.resourceRepository && !raw.shape.relationshipRepository
    requires decoratorA.shape.resourceRepository && !decoratorA.shape.relationshipRepository
    requires a.decorateResourceRepository(raw) == Some(decoratorA)
    requires forall r :: b.decorateResourceRepository(r).None? && b.decorateRelationshipRepository(r).None?
    requires c.decorateResourceRepository(Wrap(decoratorA, raw)) == Some(decoratorC)
    ensures Chain(raw, [a, b, c]) == Wrap(decoratorC, Wrap(decoratorA, raw))
  {
    assert [a, b, c][..2] == [a, b];
    assert [a, b][..1] == [a];
    assert [a][..0] == [];
    var wrappedA := Wrap(decoratorA, raw);
    assert Chain(raw, [a]) == wrappedA;
    assert b.decorateResourceRepository(wrappedA).None?;
    assert Chain(raw, [a, b]) == wrappedA;
  }
}
