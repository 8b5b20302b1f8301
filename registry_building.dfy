/** What `init` builds from the contributed repositories: each raw repository classified by
    the combined repository information builder (`mapRepositoryRegistrations`), grouped under
    its resource class, and each group turned into one registry entry
    (`applyRepositoryRegistrationForClass`). These functions are the specification the
    registry's methods are proved against. */
module RegistryBuilding {
  import opened Wrappers
  import opened Repositories
  import opened InformationBuilders
  import opened Decoration

  ghost predicate Distinct<T>(s: seq<T>)
  {
    forall i, j :: 0 <= i < j < |s| ==> s[i] != s[j]
  }

  // ---------------------------------------------------------------------------------------
  // mapRepositoryRegistrations

  /** The repositories that are not themselves decorators, in contribution order. */
  function Undecorated(repos: seq<Repo>): seq<Repo>
    decreases |repos|
  {
    if repos == [] then []
    else
      var last := repos[|repos| - 1];
      Undecorated(repos[..|repos| - 1]) + (if IsDecorator(last) then [] else [last])
  }

  /** The repositories considered are exactly the contributed ones that are not decorators. */
  lemma {:induction false} UndecoratedMembers(repos: seq<Repo>)
    ensures forall x :: x in Undecorated(repos) ==> x in repos && !IsDecorator(x)
    ensures forall x :: x in repos && !IsDecorator(x) ==> x in Undecorated(repos)
    ensures |Undecorated(repos)| <= |repos|
    decreases |repos|
  {
    if repos != [] {
      var front, last := repos[..|repos| - 1], repos[|repos| - 1];
      UndecoratedMembers(front);
      assert forall x :: x in repos ==> x in front || x == last;
    }
  }

  /** The filter keeps order and multiplicity: it works element by element, keeping exactly
      the repositories that are not decorators. */
  lemma {:induction false} UndecoratedAppend(a: seq<Repo>, b: seq<Repo>)
    ensures Undecorated(a + b) == Undecorated(a) + Undecorated(b)
    decreases |b|
  {
    if b == [] {
      assert a + b == a;
    } else {
      var front, last := b[..|b| - 1], b[|b| - 1];
      var kept := if IsDecorator(last) then [] else [last];
      assert Undecorated(a + b) == Undecorated(a + front) + kept by {
        assert (a + b)[..|a + b| - 1] == a + front;
        assert (a + b)[|a + b| - 1] == last;
      }
      assert Undecorated(b) == Undecorated(front) + kept;
      UndecoratedAppend(a, front);
      assert Undecorated(a) + Undecorated(front) + kept == Undecorated(a) + (Undecorated(front) + kept);
    }
  }

  /** A single repository is kept exactly when it is not a decorator. */
  lemma UndecoratedSingle(x: Repo)
    ensures Undecorated([x]) == if IsDecorator(x) then [] else [x]
  {
    assert [x][..0] == [];
  }

  /** `i` is the first non-decorator repository that no builder accepts. */
  ghost predicate FirstUnsupported(repos: seq<Repo>, builders: seq<RepositoryInformationBuilder>, i: int)
  {
    && 0 <= i < |repos| && !IsDecorator(repos[i]) && !RepositoryAccept(builders, repos[i])
    && forall j :: 0 <= j < i && !IsDecorator(repos[j]) ==> RepositoryAccept(builders, repos[j])
  }

  /** A repository the mapping can handle: a decorator (skipped) or one some builder accepts. */
  predicate Supported(builders: seq<RepositoryInformationBuilder>, repository: Repo)
  {
    IsDecorator(repository) || RepositoryAccept(builders, repository)
  }

  /** Every non-decorator repository classified, in contribution order; the first one that no
      builder accepts makes the whole registration fail. */
  function Bindings(repos: seq<Repo>, builders: seq<RepositoryInformationBuilder>)
    : Result<seq<Binding>, RegistryError>
    decreases |repos|
  {
    if repos == [] then Success([])
    else
      var front, last := repos[..|repos| - 1], repos[|repos| - 1];
      var before := Bindings(front, builders);
      if before.Failure? then before
      else if IsDecorator(last) then before
      else
        var info := RepositoryBuild(builders, last);
        if info.Failure? then Failure(info.error)
        else Success(before.value + [Binding(info.value, last)])
  }

  /** The mapping succeeds exactly when every repository is a decorator or accepted by a builder. */
  lemma {:induction false} BindingsSucceedIffSupported(repos: seq<Repo>, builders: seq<RepositoryInformationBuilder>)
    ensures Bindings(repos, builders).Success? <==> forall i :: 0 <= i < |repos| ==> Supported(builders, repos[i])
    decreases |repos|
  {
    if repos != [] {
      var front := repos[..|repos| - 1];
      assert forall i :: 0 <= i < |front| ==> front[i] == repos[i];
      BindingsSucceedIffSupported(front, builders);
    }
  }

  /** The bindings are the non-decorator repositories, in contribution order, each with the
      information the first accepting builder gives it. */
  lemma {:induction false} BindingsClassifyUndecorated(repos: seq<Repo>, builders: seq<RepositoryInformationBuilder>)
    requires Bindings(repos, builders).Success?
    ensures var bs := Bindings(repos, builders).value;
      && |bs| == |Undecorated(repos)|
      && forall j :: 0 <= j < |bs| ==>
           bs[j].repository == Undecorated(repos)[j] && RepositoryBuild(builders, bs[j].repository) == Success(bs[j].info)
    decreases |repos|
  {
    if repos != [] {
      var front, last := repos[..|repos| - 1], repos[|repos| - 1];
      BindingsClassifyUndecorated(front, builders);
      var bs, before := Bindings(repos, builders).value, Bindings(front, builders).value;
      assert Undecorated(repos) == Undecorated(front) + (if IsDecorator(last) then [] else [last]);
      if !IsDecorator(last) {
        assert bs == before + [Binding(RepositoryBuild(builders, last).value, last)];
      }
    }
  }

  /** A failing registration names the first non-decorator repository no builder accepts. */
  lemma {:induction false} BindingsNameFirstUnsupported(repos: seq<Repo>, builders: seq<RepositoryInformationBuilder>)
    requires Bindings(repos, builders).Failure?
    ensures exists i :: (FirstUnsupported(repos, builders, i)
      && Bindings(repos, builders).error == NoRepositoryInformationBuilder(repos[i].className))
    decreases |repos|
  {
    var front := repos[..|repos| - 1];
    assert forall i :: 0 <= i < |front| ==> front[i] == repos[i];
    if Bindings(front, builders).Failure? {
      BindingsNameFirstUnsupported(front, builders);
      var i :| FirstUnsupported(front, builders, i)
        && Bindings(front, builders).error == NoRepositoryInformationBuilder(front[i].className);
      assert FirstUnsupported(repos, builders, i);
    } else {
      BindingsSucceedIffSupported(front, builders);
      assert FirstUnsupported(repos, builders, |repos| - 1);
    }
  }

  /** Once a repository is unsupported, the repositories after it do not matter. */
  lemma {:induction false} UnsupportedEndsMapping(repos: seq<Repo>, builders: seq<RepositoryInformationBuilder>, k: nat)
    requires k <= |repos|
    requires Bindings(repos[..k], builders).Failure?
    ensures Bindings(repos, builders) == Bindings(repos[..k], builders)
    decreases |repos| - k
  {
    if k < |repos| {
      assert repos[..k + 1][..k] == repos[..k];
      assert Bindings(repos[..k + 1], builders) == Bindings(repos[..k], builders);
      UnsupportedEndsMapping(repos, builders, k + 1);
    } else {
      assert repos[..k] == repos;
    }
  }

  /** One more repository of the list: skipped when it is a decorator, otherwise classified
      and appended, or the mapping fails. */
  lemma BindingsStep(repos: seq<Repo>, builders: seq<RepositoryInformationBuilder>, i: nat)
    requires i < |repos| && Bindings(repos[..i], builders).Success?
    ensures var bs := Bindings(repos[..i], builders).value;
      Bindings(repos[..i + 1], builders)
      == if IsDecorator(repos[i]) then Success(bs)
         else if RepositoryBuild(builders, repos[i]).Failure? then Failure(RepositoryBuild(builders, repos[i]).error)
         else Success(bs + [Binding(RepositoryBuild(builders, repos[i]).value, repos[i])])
  {
    assert repos[..i + 1][..i] == repos[..i];
  }

  /** The resource classes of the bindings, each once, in order of first appearance
      (the key set of the `classMap` multi-valued map). */
  function KeysOf(bs: seq<Binding>): (keys: seq<ClassId>)
    ensures forall k :: k in keys <==> exists b :: b in bs && ClassKey(b.info) == k
    ensures Distinct(keys)
    decreases |bs|
  {
    if bs == [] then []
    else
      var front, k := KeysOf(bs[..|bs| - 1]), ClassKey(bs[|bs| - 1].info);
      assert forall b :: b in bs ==> b in bs[..|bs| - 1] || b == bs[|bs| - 1];
      if k in front then front else front + [k]
  }

  /** Adding a binding to the map adds its class as a new key only when it is not a key yet. */
  lemma KeysOfAppend(bs: seq<Binding>, b: Binding)
    ensures KeysOf(bs + [b]) == if ClassKey(b.info) in KeysOf(bs) then KeysOf(bs) else KeysOf(bs) + [ClassKey(b.info)]
  {
    assert (bs + [b])[..|bs|] == bs;
  }

  /** The bindings listed under class `k` in `classMap`, in contribution order. */
  function GroupOf(bs: seq<Binding>, k: ClassId): seq<Binding>
    decreases |bs|
  {
    if bs == [] then []
    else
      var front, last := bs[..|bs| - 1], bs[|bs| - 1];
      GroupOf(front, k) + (if ClassKey(last.info) == k then [last] else [])
  }

  /** A group holds each binding of its class as often as the bindings do, and nothing else. */
  lemma {:induction false} GroupOfCounts(bs: seq<Binding>, k: ClassId)
    ensures forall b :: multiset(GroupOf(bs, k))[b] == if ClassKey(b.info) == k then multiset(bs)[b] else 0
    decreases |bs|
  {
    if bs != [] {
      var front, last := bs[..|bs| - 1], bs[|bs| - 1];
      assert bs == front + [last];
      GroupOfCounts(front, k);
    }
  }

  /** The members of a group are exactly the bindings of its class. */
  lemma GroupOfMembers(bs: seq<Binding>, k: ClassId)
    ensures forall b :: b in GroupOf(bs, k) <==> b in bs && ClassKey(b.info) == k
  {
    GroupOfCounts(bs, k);
    forall b ensures b in GroupOf(bs, k) <==> b in bs && ClassKey(b.info) == k {
      assert b in GroupOf(bs, k) <==> multiset(GroupOf(bs, k))[b] > 0;
      assert b in bs <==> multiset(bs)[b] > 0;
    }
  }

  /** A class with no binding has an empty group. */
  lemma {:induction false} GroupOfUnkeyed(bs: seq<Binding>, k: ClassId)
    requires k !in KeysOf(bs)
    ensures GroupOf(bs, k) == []
    decreases |bs|
  {
    if bs != [] {
      var front, last := bs[..|bs| - 1], bs[|bs| - 1];
      assert last in bs;
      assert forall b :: b in front ==> b in bs;
      GroupOfUnkeyed(front, k);
    }
  }

  /** Sum of the sizes of the groups of `keys`. */
  function TotalGrouped(bs: seq<Binding>, keys: seq<ClassId>): nat
    decreases |keys|
  {
    if keys == [] then 0 else TotalGrouped(bs, keys[..|keys| - 1]) + |GroupOf(bs, keys[|keys| - 1])|
  }

  lemma GroupOfAppend(bs: seq<Binding>, b: Binding, k: ClassId)
    ensures GroupOf(bs + [b], k) == GroupOf(bs, k) + (if ClassKey(b.info) == k then [b] else [])
  {
    assert (bs + [b])[..|bs + [b]| - 1] == bs;
  }

  lemma {:induction false} TotalGroupedAppend(bs: seq<Binding>, b: Binding, keys: seq<ClassId>)
    requires Distinct(keys)
    ensures TotalGrouped(bs + [b], keys) == TotalGrouped(bs, keys) + (if ClassKey(b.info) in keys then 1 else 0)
    decreases |keys|
  {
    if keys != [] {
      var front, k := keys[..|keys| - 1], keys[|keys| - 1];
      assert keys == front + [k];
      assert Distinct(front);
      assert k !in front;
      TotalGroupedAppend(bs, b, front);
      GroupOfAppend(bs, b, k);
      assert TotalGrouped(bs + [b], keys) == TotalGrouped(bs + [b], front) + |GroupOf(bs + [b], k)|;
    }
  }

  /** The groups of the contributed classes together hold every binding once: with
      `GroupOfMembers`, each binding is listed under exactly one class, the one it was keyed by. */
  lemma {:induction false} GroupingPartitions(bs: seq<Binding>)
    ensures TotalGrouped(bs, KeysOf(bs)) == |bs|
    decreases |bs|
  {
    if bs != [] {
      var front, b := bs[..|bs| - 1], bs[|bs| - 1];
      assert bs == front + [b];
      GroupingPartitions(front);
      var keys := KeysOf(front);
      TotalGroupedAppend(front, b, keys);
      if ClassKey(b.info) !in keys {
        GroupOfUnkeyed(front, ClassKey(b.info));
        assert KeysOf(bs) == keys + [ClassKey(b.info)];
        assert (keys + [ClassKey(b.info)])[..|keys|] == keys;
      }
    }
  }

  // ---------------------------------------------------------------------------------------
  // applyRepositoryRegistrationForClass

  /** Index of the last resource repository of a group: it overwrites every earlier one. */
  function LastResourceIndex(g: seq<Binding>): (r: Option<nat>)
    ensures r.Some? ==> r.value < |g| && g[r.value].info.ResourceRepositoryInformation?
    ensures r.Some? ==> forall j :: r.value < j < |g| ==> g[j].info.RelationshipRepositoryInformation?
    ensures r.None? <==> forall j :: 0 <= j < |g| ==> g[j].info.RelationshipRepositoryInformation?
    decreases |g|
  {
    if g == [] then None
    else if g[|g| - 1].info.ResourceRepositoryInformation? then Some(|g| - 1)
    else
      assert forall j :: 0 <= j < |g| - 1 ==> g[..|g| - 1][j] == g[j];
      LastResourceIndex(g[..|g| - 1])
  }

  /** `setupResourceRepository`: the repository is decorated, and the entry is an annotated
      one when the DECORATED object's class carries the resource repository annotation. */
  function ResourceEntryFor(b: Binding, factories: seq<DecoratorFactory>, registry: ResourceRegistry?): ResourceEntry
  {
    var decorated := Decorate(b.repository, factories, registry);
    if decorated.shape.resourceAnnotated then AnnotatedResourceEntry(decorated)
    else DirectResponseResourceEntry(decorated)
  }

  /** `setupRelationship`: the repository is decorated; the entry is an annotated one when the
      RAW repository's class carries the relationship repository annotation, otherwise a
      direct entry whose target affiliation is the repository's (target) resource class. */
  function RelationshipEntryFor(b: Binding, factories: seq<DecoratorFactory>, registry: ResourceRegistry?): RelationshipEntry
    requires b.info.RelationshipRepositoryInformation?
  {
    var decorated := Decorate(b.repository, factories, registry);
    if b.repository.shape.relationshipAnnotated then AnnotatedRelationshipEntry(decorated)
    else DirectResponseRelationshipEntry(decorated, b.info.resourceInformation.resourceClass)
  }

  /** One more binding of a group seen by the loop of `applyRepositoryRegistrationForClass`:
      a resource repository becomes the last one, a relationship repository adds an entry. */
  lemma GroupStep(g: seq<Binding>, i: nat, factories: seq<DecoratorFactory>, registry: ResourceRegistry?)
    requires i < |g|
    ensures LastResourceIndex(g[..i + 1])
         == if g[i].info.ResourceRepositoryInformation? then Some(i) else LastResourceIndex(g[..i])
    ensures RelationshipEntries(g[..i + 1], factories, registry)
         == RelationshipEntries(g[..i], factories, registry)
            + (if g[i].info.RelationshipRepositoryInformation? then [RelationshipEntryFor(g[i], factories, registry)] else [])
  {
    assert g[..i + 1][..i] == g[..i];
  }

  /** The relationship repositories of a group, in group order. */
  function RelationshipBindings(g: seq<Binding>): (r: seq<Binding>)
    ensures forall b :: b in r ==> b.info.RelationshipRepositoryInformation?
    ensures forall b :: b in r ==> b in g
    ensures forall b :: b in g && b.info.RelationshipRepositoryInformation? ==> b in r
    decreases |g|
  {
    if g == [] then []
    else
      var last := g[|g| - 1];
      assert forall b :: b in g ==> b in g[..|g| - 1] || b == last;
      RelationshipBindings(g[..|g| - 1]) + (if last.info.RelationshipRepositoryInformation? then [last] else [])
  }

  /** The selection keeps group order and multiplicity: it works element by element, keeping
      exactly the relationship repositories. */
  lemma {:induction false} RelationshipBindingsAppend(g: seq<Binding>, h: seq<Binding>)
    ensures RelationshipBindings(g + h) == RelationshipBindings(g) + RelationshipBindings(h)
    decreases |h|
  {
    if h == [] {
      assert g + h == g;
    } else {
      var front, last := h[..|h| - 1], h[|h| - 1];
      var kept := if last.info.RelationshipRepositoryInformation? then [last] else [];
      assert RelationshipBindings(g + h) == RelationshipBindings(g + front) + kept by {
        assert (g + h)[..|g + h| - 1] == g + front;
        assert (g + h)[|g + h| - 1] == last;
      }
      assert RelationshipBindings(h) == RelationshipBindings(front) + kept;
      RelationshipBindingsAppend(g, front);
      assert RelationshipBindings(g) + RelationshipBindings(front) + kept
        == RelationshipBindings(g) + (RelationshipBindings(front) + kept);
    }
  }

  /** A single binding is selected exactly when it describes a relationship repository. */
  lemma RelationshipBindingsSingle(x: Binding)
    ensures RelationshipBindings([x]) == if x.info.RelationshipRepositoryInformation? then [x] else []
  {
    assert [x][..0] == [];
  }

  /** The `relationshipEntries` list after the loop over a group: one entry per relationship
      repository, in group order, with no choice between entries for the same field. */
  function RelationshipEntries(g: seq<Binding>, factories: seq<DecoratorFactory>, registry: ResourceRegistry?)
    : (r: seq<RelationshipEntry>)
    ensures |r| == |RelationshipBindings(g)|
    ensures forall j :: 0 <= j < |r| ==> r[j] == RelationshipEntryFor(RelationshipBindings(g)[j], factories, registry)
    decreases |g|
  {
    if g == [] then []
    else
      var last := g[|g| - 1];
      RelationshipEntries(g[..|g| - 1], factories, registry)
      + (if last.info.RelationshipRepositoryInformation? then [RelationshipEntryFor(last, factories, registry)] else [])
  }

  /** The registry entry for class `k` built from its group `g`. With no resource repository
      in the group, the resource information builders describe the class and the entry has no
      resource entry. */
  function EntryFor(k: ClassId, g: seq<Binding>, resourceBuilders: seq<ResourceInformationBuilder>,
                    factories: seq<DecoratorFactory>, registry: ResourceRegistry?)
    : (r: Result<RegistryEntry, RegistryError>)
    ensures r.Failure? <==> LastResourceIndex(g).None? && !ResourceAccept(resourceBuilders, k)
    ensures r.Failure? ==> r.error == NoResourceInformationBuilder(k)
  {
    var relationships := RelationshipEntries(g, factories, registry);
    match LastResourceIndex(g)
    case Some(i) =>
      Success(RegistryEntry(g[i].info, Some(ResourceEntryFor(g[i], factories, registry)), relationships))
    case None =>
      match ResourceBuild(resourceBuilders, k)
      case Failure(e) => Failure(e)
      case Success(ri) =>
        Success(RegistryEntry(ResourceRepositoryInformation(k, ri.resourceType, ri), None, relationships))
  }

  /** A built entry carries one relationship entry per relationship repository of the group,
      in group order, and has a resource entry exactly when the group has a resource repository. */
  lemma EntryKeepsEveryRelationship(k: ClassId, g: seq<Binding>, resourceBuilders: seq<ResourceInformationBuilder>,
                                    factories: seq<DecoratorFactory>, registry: ResourceRegistry?)
    requires EntryFor(k, g, resourceBuilders, factories, registry).Success?
    ensures var e := EntryFor(k, g, resourceBuilders, factories, registry).value;
      && |e.relationshipEntries| == |RelationshipBindings(g)|
      && (forall j :: 0 <= j < |e.relationshipEntries| ==>
            e.relationshipEntries[j] == RelationshipEntryFor(RelationshipBindings(g)[j], factories, registry))
      && (e.resourceEntry.Some? <==> exists j :: 0 <= j < |g| && g[j].info.ResourceRepositoryInformation?)
  {
    var e := EntryFor(k, g, resourceBuilders, factories, registry).value;
    assert e.relationshipEntries == RelationshipEntries(g, factories, registry);
  }

  /** Several resource repositories for one class are not an error: the last one in the group
      provides the entry's repository information and resource entry. */
  lemma LastResourceRepositoryWins(k: ClassId, front: seq<Binding>, b: Binding, back: seq<Binding>,
                                   resourceBuilders: seq<ResourceInformationBuilder>,
                                   factories: seq<DecoratorFactory>, registry: ResourceRegistry?)
    requires b.info.ResourceRepositoryInformation?
    requires forall j :: 0 <= j < |back| ==> back[j].info.RelationshipRepositoryInformation?
    ensures EntryFor(k, front + [b] + back, resourceBuilders, factories, registry).Success?
    ensures var e := EntryFor(k, front + [b] + back, resourceBuilders, factories, registry).value;
      e.repositoryInformation == b.info && e.resourceEntry == Some(ResourceEntryFor(b, factories, registry))
  {
    var g := front + [b] + back;
    assert g[|front|] == b;
    assert forall j :: |front| < j < |g| ==> g[j] == back[j - |front| - 1];
  }

  /** A class reached only through relationship repositories gets an entry whose repository
      information the resource information builders synthesise and which has no resource entry. */
  lemma RelationshipOnlyClass(k: ClassId, g: seq<Binding>, resourceBuilders: seq<ResourceInformationBuilder>,
                              factories: seq<DecoratorFactory>, registry: ResourceRegistry?)
    requires forall j :: 0 <= j < |g| ==> g[j].info.RelationshipRepositoryInformation?
    requires ResourceAccept(resourceBuilders, k)
    ensures var ri := ResourceBuild(resourceBuilders, k).value;
      EntryFor(k, g, resourceBuilders, factories, registry)
      == Success(RegistryEntry(ResourceRepositoryInformation(k, ri.resourceType, ri), None,
                               RelationshipEntries(g, factories, registry)))
  {
  }

  // ---------------------------------------------------------------------------------------
  // applyRepositoryRegistration

  /** What one `applyRepositoryRegistrationForClass` call adds to the resource registry and
      how it ends: nothing and the entry's exception, nothing and the null pointer of a missing
      resource registry, or the class's entry. */
  function ClassStep(k: ClassId, g: seq<Binding>, resourceBuilders: seq<ResourceInformationBuilder>,
                     factories: seq<DecoratorFactory>, registry: ResourceRegistry?)
    : (seq<(ClassId, RegistryEntry)>, Outcome<RegistryError>)
  {
    var e := EntryFor(k, g, resourceBuilders, factories, registry);
    if e.Failure? then ([], Fail(e.error))
    else if registry == null then ([], Fail(ResourceRegistryMissing))
    else ([(k, e.value)], Pass)
  }

  /** A class passes exactly when its group has a resource repository or a resource information
      builder accepts it, and the resource registry is there; the builders are asked first. */
  lemma ClassStepOutcome(k: ClassId, g: seq<Binding>, resourceBuilders: seq<ResourceInformationBuilder>,
                         factories: seq<DecoratorFactory>, registry: ResourceRegistry?)
    ensures var step := ClassStep(k, g, resourceBuilders, factories, registry);
      && (step.1.Pass? <==> (LastResourceIndex(g).Some? || ResourceAccept(resourceBuilders, k)) && registry != null)
      && (step.1.Pass? ==> step.0 == [(k, EntryFor(k, g, resourceBuilders, factories, registry).value)])
      && (step.1.Fail? ==> step.0 == [])
      && (LastResourceIndex(g).None? && !ResourceAccept(resourceBuilders, k) ==> step.1 == Fail(NoResourceInformationBuilder(k)))
      && ((LastResourceIndex(g).Some? || ResourceAccept(resourceBuilders, k)) && registry == null ==>
            step.1 == Fail(ResourceRegistryMissing))
  {
  }

  /** The entries `applyRepositoryRegistration` adds to the resource registry for the classes
      `keys`, and whether it threw; it stops at the first class whose entry cannot be built,
      and a missing resource registry fails at the first `addEntry`. */
  function Registration(keys: seq<ClassId>, bs: seq<Binding>, resourceBuilders: seq<ResourceInformationBuilder>,
                        factories: seq<DecoratorFactory>, registry: ResourceRegistry?)
    : (r: (seq<(ClassId, RegistryEntry)>, Outcome<RegistryError>))
    ensures |r.0| <= |keys|
    ensures r.1.Pass? <==> |r.0| == |keys|
    ensures registry == null ==> r.0 == []
    decreases |keys|
  {
    if keys == [] then ([], Pass)
    else
      var front, k := keys[..|keys| - 1], keys[|keys| - 1];
      var before := Registration(front, bs, resourceBuilders, factories, registry);
      if before.1.Fail? then before
      else
        var step := ClassStep(k, GroupOf(bs, k), resourceBuilders, factories, registry);
        (before.0 + step.0, step.1)
  }

  /** The `i`-th entry added is the entry built for the `i`-th key from that key's group. */
  lemma {:induction false} RegistrationEntry(keys: seq<ClassId>, bs: seq<Binding>,
                                             resourceBuilders: seq<ResourceInformationBuilder>,
                                             factories: seq<DecoratorFactory>, registry: ResourceRegistry?, i: nat)
    requires i < |Registration(keys, bs, resourceBuilders, factories, registry).0|
    ensures var added := Registration(keys, bs, resourceBuilders, factories, registry).0;
      && added[i].0 == keys[i]
      && EntryFor(keys[i], GroupOf(bs, keys[i]), resourceBuilders, factories, registry) == Success(added[i].1)
    decreases |keys|
  {
    var front, k := keys[..|keys| - 1], keys[|keys| - 1];
    assert keys == front + [k];
    var before := Registration(front, bs, resourceBuilders, factories, registry);
    if i < |before.0| {
      RegistrationEntry(front, bs, resourceBuilders, factories, registry, i);
      assert front[i] == keys[i];
    } else {
      assert i == |front|;
    }
  }

  /** Once a class fails, the classes after it add nothing. */
  lemma {:induction false} FailureEndsRegistration(keys: seq<ClassId>, bs: seq<Binding>,
                                                   resourceBuilders: seq<ResourceInformationBuilder>,
                                                   factories: seq<DecoratorFactory>, registry: ResourceRegistry?, n: nat)
    requires n <= |keys|
    requires Registration(keys[..n], bs, resourceBuilders, factories, registry).1.Fail?
    ensures Registration(keys, bs, resourceBuilders, factories, registry)
         == Registration(keys[..n], bs, resourceBuilders, factories, registry)
    decreases |keys| - n
  {
    if n < |keys| {
      assert keys[..n + 1][..n] == keys[..n];
      assert Registration(keys[..n + 1], bs, resourceBuilders, factories, registry)
          == Registration(keys[..n], bs, resourceBuilders, factories, registry);
      FailureEndsRegistration(keys, bs, resourceBuilders, factories, registry, n + 1);
    } else {
      assert keys[..n] == keys;
    }
  }

  /** One more class of the key list, after the classes before it all passed. */
  lemma RegistrationStep(keys: seq<ClassId>, bs: seq<Binding>, resourceBuilders: seq<ResourceInformationBuilder>,
                         factories: seq<DecoratorFactory>, registry: ResourceRegistry?, n: nat)
    requires n < |keys|
    requires Registration(keys[..n], bs, resourceBuilders, factories, registry).1.Pass?
    ensures var before := Registration(keys[..n], bs, resourceBuilders, factories, registry).0;
      var step := ClassStep(keys[n], GroupOf(bs, keys[n]), resourceBuilders, factories, registry);
      Registration(keys[..n + 1], bs, resourceBuilders, factories, registry) == (before + step.0, step.1)
  {
    assert keys[..n + 1][..n] == keys[..n];
  }

  /** The loop of `applyRepositoryRegistration` after one more class: `after` is the registry's
      entries once that class's entry is added to the `base` entries and the classes before it. */
  lemma RegistrationAdvance(keys: seq<ClassId>, bs: seq<Binding>, resourceBuilders: seq<ResourceInformationBuilder>,
                            factories: seq<DecoratorFactory>, registry: ResourceRegistry?, n: nat,
                            base: seq<(ClassId, RegistryEntry)>, o: Outcome<RegistryError>,
                            after: seq<(ClassId, RegistryEntry)>)
    requires n < |keys|
    requires Registration(keys[..n], bs, resourceBuilders, factories, registry).1.Pass?
    requires var step := ClassStep(keys[n], GroupOf(bs, keys[n]), resourceBuilders, factories, registry);
      o == step.1 && after == base + Registration(keys[..n], bs, resourceBuilders, factories, registry).0 + step.0
    ensures o.Pass? ==> Registration(keys[..n + 1], bs, resourceBuilders, factories, registry).1.Pass?
    ensures o.Pass? ==> after == base + Registration(keys[..n + 1], bs, resourceBuilders, factories, registry).0
    ensures o.Fail? ==> o == Registration(keys, bs, resourceBuilders, factories, registry).1
    ensures o.Fail? ==> after == base + Registration(keys, bs, resourceBuilders, factories, registry).0
  {
    RegistrationStep(keys, bs, resourceBuilders, factories, registry, n);
    var before := Registration(keys[..n], bs, resourceBuilders, factories, registry).0;
    var step := ClassStep(keys[n], GroupOf(bs, keys[n]), resourceBuilders, factories, registry);
    assert base + before + step.0 == base + (before + step.0);
    if o.Fail? {
      FailureEndsRegistration(keys, bs, resourceBuilders, factories, registry, n + 1);
    }
  }

  /** Some entry of `added` is for class `k`. */
  ghost predicate Registered(added: seq<(ClassId, RegistryEntry)>, k: ClassId)
  {
    exists i :: 0 <= i < |added| && added[i].0 == k
  }

  /** Some non-decorator repository of `repos` is classified under class `k`. */
  ghost predicate Contributed(repos: seq<Repo>, builders: seq<RepositoryInformationBuilder>, k: ClassId)
  {
    exists i :: 0 <= i < |repos| && !IsDecorator(repos[i])
      && RepositoryBuild(builders, repos[i]).Success? && ClassKey(RepositoryBuild(builders, repos[i]).value) == k
  }

  /** A registration over the keys of `bs` never adds two entries for one class. */
  lemma RegistrationOncePerClass(bs: seq<Binding>, resourceBuilders: seq<ResourceInformationBuilder>,
                                 factories: seq<DecoratorFactory>, registry: ResourceRegistry?)
    ensures var added := Registration(KeysOf(bs), bs, resourceBuilders, factories, registry).0;
      forall i, j :: 0 <= i < j < |added| ==> added[i].0 != added[j].0
  {
    var keys := KeysOf(bs);
    var added := Registration(keys, bs, resourceBuilders, factories, registry).0;
    forall i, j | 0 <= i < j < |added| ensures added[i].0 != added[j].0 {
      RegistrationEntry(keys, bs, resourceBuilders, factories, registry, i);
      RegistrationEntry(keys, bs, resourceBuilders, factories, registry, j);
    }
  }

  /** Registration adds entries only for keys, and for every key when it passes. */
  lemma RegisteredKeys(keys: seq<ClassId>, bs: seq<Binding>, resourceBuilders: seq<ResourceInformationBuilder>,
                       factories: seq<DecoratorFactory>, registry: ResourceRegistry?, k: ClassId)
    ensures var r := Registration(keys, bs, resourceBuilders, factories, registry);
      && (Registered(r.0, k) ==> k in keys)
      && (r.1.Pass? && k in keys ==> Registered(r.0, k))
  {
    var r := Registration(keys, bs, resourceBuilders, factories, registry);
    if Registered(r.0, k) {
      var i :| 0 <= i < |r.0| && r.0[i].0 == k;
      RegistrationEntry(keys, bs, resourceBuilders, factories, registry, i);
    }
    if r.1.Pass? && k in keys {
      var i :| 0 <= i < |keys| && keys[i] == k;
      RegistrationEntry(keys, bs, resourceBuilders, factories, registry, i);
    }
  }

  /** Each grouping class is the class of some classified repository. */
  lemma KeyIsContributed(repos: seq<Repo>, builders: seq<RepositoryInformationBuilder>, k: ClassId)
    requires Bindings(repos, builders).Success?
    requires k in KeysOf(Bindings(repos, builders).value)
    ensures Contributed(repos, builders, k)
  {
    var bs := Bindings(repos, builders).value;
    var und := Undecorated(repos);
    BindingsClassifyUndecorated(repos, builders);
    UndecoratedMembers(repos);
    var b :| b in bs && ClassKey(b.info) == k;
    var j :| 0 <= j < |bs| && bs[j] == b;
    var x := und[j];
    assert x in und;
    assert x in repos && !IsDecorator(x);
    var n :| 0 <= n < |repos| && repos[n] == x;
    assert RepositoryBuild(builders, repos[n]) == Success(b.info);
  }

  /** The class of every binding is a grouping class. */
  lemma KeyOfMember(bs: seq<Binding>, b: Binding)
    requires b in bs
    ensures ClassKey(b.info) in KeysOf(bs)
  {
  }

  /** The class of each classified repository is a grouping class of any classification of
      the non-decorator repositories. */
  lemma ClassifiedIsKey(repos: seq<Repo>, builders: seq<RepositoryInformationBuilder>, bs: seq<Binding>, k: ClassId)
    requires |bs| == |Undecorated(repos)|
    requires forall j :: 0 <= j < |bs| ==>
      bs[j].repository == Undecorated(repos)[j] && RepositoryBuild(builders, bs[j].repository) == Success(bs[j].info)
    requires Contributed(repos, builders, k)
    ensures k in KeysOf(bs)
  {
    var und := Undecorated(repos);
    UndecoratedMembers(repos);
    var n :| 0 <= n < |repos| && !IsDecorator(repos[n])
      && RepositoryBuild(builders, repos[n]).Success? && ClassKey(RepositoryBuild(builders, repos[n]).value) == k;
    var x := repos[n];
    assert x in und by { assert x in repos; }
    var j :| 0 <= j < |und| && und[j] == x;
    var b := bs[j];
    assert b in bs && b.info == RepositoryBuild(builders, x).value;
    KeyOfMember(bs, b);
  }

  /** The class of each classified repository is a grouping class. */
  lemma ContributedIsKey(repos: seq<Repo>, builders: seq<RepositoryInformationBuilder>, k: ClassId)
    requires Bindings(repos, builders).Success?
    requires Contributed(repos, builders, k)
    ensures k in KeysOf(Bindings(repos, builders).value)
  {
    BindingsClassifyUndecorated(repos, builders);
    ClassifiedIsKey(repos, builders, Bindings(repos, builders).value, k);
  }

  /** A successful registration adds an entry for the class of every classified repository,
      and for no other class. */
  lemma OneEntryPerResourceClass(repos: seq<Repo>, builders: seq<RepositoryInformationBuilder>,
                                 resourceBuilders: seq<ResourceInformationBuilder>,
                                 factories: seq<DecoratorFactory>, registry: ResourceRegistry?, k: ClassId)
    requires Bindings(repos, builders).Success?
    requires Registration(KeysOf(Bindings(repos, builders).value), Bindings(repos, builders).value,
                          resourceBuilders, factories, registry).1.Pass?
    ensures Registered(Registration(KeysOf(Bindings(repos, builders).value), Bindings(repos, builders).value,
                                    resourceBuilders, factories, registry).0, k)
        <==> Contributed(repos, builders, k)
  {
    var bs := Bindings(repos, builders).value;
    RegisteredKeys(KeysOf(bs), bs, resourceBuilders, factories, registry, k);
    if k in KeysOf(bs) {
      KeyIsContributed(repos, builders, k);
    }
    if Contributed(repos, builders, k) {
      ContributedIsKey(repos, builders, k);
    }
  }

  /** In a successful registration, an entry with a resource entry is described by repository
      information classified under the entry's own class. */
  lemma EntryDescribesItsClass(bs: seq<Binding>, resourceBuilders: seq<ResourceInformationBuilder>,
                               factories: seq<DecoratorFactory>, registry: ResourceRegistry?, i: nat)
    requires var added := Registration(KeysOf(bs), bs, resourceBuilders, factories, registry).0;
      i < |added| && added[i].1.resourceEntry.Some?
    ensures var added := Registration(KeysOf(bs), bs, resourceBuilders, factories, registry).0;
      ClassKey(added[i].1.repositoryInformation) == added[i].0
  {
    var added := Registration(KeysOf(bs), bs, resourceBuilders, factories, registry).0;
    RegistrationEntry(KeysOf(bs), bs, resourceBuilders, factories, registry, i);
    var k := added[i].0;
    var g := GroupOf(bs, k);
    var idx := LastResourceIndex(g).value;
    assert g[idx] in g;
    GroupOfMembers(bs, k);
  }
}
