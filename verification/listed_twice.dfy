/** A registry in which one package lists a name twice, at ranges that resolve differently. */
module ListedTwice {
  import opened Wrappers
  import opened PkgVerPeers
  import opened DependencyPaths
  import opened Graphs
  import opened Registries
  import opened Lockfiles
  import opened DependencyContexts
  import opened GeneratedLockfiles
  import opened PackageIndexes
  import opened Fetch
  import opened FetchGenerated
  import opened SmallRegistries

  function Leaf(version: string): PackageVersion {
    Package("b", version, map[], map[])
  }

  /** Needs `b` at version `v`, and lists it again at version `w` among its optional dependencies. */
  function Lister(v: string, w: string): PackageVersion {
    Package("a", v, map["b" := v], map["b" := w])
  }

  /** The manifest asks for the listing package. */
  function Example(semver: Semver, v: string, w: string): Inputs {
    var metadata := map["a" := map[v := Lister(v, w)], "b" := map[v := Leaf(v), w := Leaf(w)]];
    Inputs(ContextOf(semver, metadata), Manifest(map["a" := v], map[], map[], map[]), [Prod])
  }

  lemma VersionsOf(semver: Semver, v: string, w: string)
    requires v != w
    ensures Versions(Example(semver, v, w).ctx.registry) == {Lister(v, w), Leaf(v), Leaf(w)}
  {
    var metadata := Example(semver, v, w).ctx.registry.metadata;
    assert "a" in metadata && v in metadata["a"] && "b" in metadata && v in metadata["b"] && w in metadata["b"];
    assert metadata["a"][v] == Lister(v, w) && metadata["b"][v] == Leaf(v) && metadata["b"][w] == Leaf(w);
  }

  lemma ResolutionsOf(semver: Semver, v: string, w: string)
    requires v != w
    ensures var registry := Example(semver, v, w).ctx.registry;
      && Resolve(registry, ("a", v)) == Some(Lister(v, w))
      && Resolve(registry, ("b", v)) == Some(Leaf(v))
      && Resolve(registry, ("b", w)) == Some(Leaf(w))
  {
  }

  lemma RequestsOf(v: string, w: string)
    ensures Requests(Lister(v, w), false) == {("b", v), ("b", w)}
    ensures Requests(Leaf(v), false) == {} && Requests(Leaf(w), false) == {}
  {
    ItemOf("b", v);
    ItemOf("b", w);
  }

  lemma RootsOf(semver: Semver, v: string, w: string)
    requires v != w
    ensures var inputs := Example(semver, v, w);
      && inputs.Requested(Prod) == {("a", v)} && inputs.Requested(Optional) == inputs.Requested(Dev) == {}
      && inputs.Roots(Prod) == {Lister(v, w)} && inputs.Roots(Optional) == inputs.Roots(Dev) == {}
  {
    ResolutionsOf(semver, v, w);
    ItemOf("a", v);
  }

  lemma IsExampleRegistry(semver: Semver, v: string, w: string)
    requires SemverLibrary(semver) && IsCanonical(semver, v) && IsCanonical(semver, w)
    ensures Example(semver, v, w).ctx.Valid()
  {
    assert IsSoundOn(semver, v) && IsSoundOn(semver, w);
  }

  lemma NeedsAreMet(semver: Semver, v: string, w: string, p: PackageVersion)
    requires v != w && p in {Lister(v, w), Leaf(v), Leaf(w)}
    ensures AllResolve(Example(semver, v, w).ctx.registry, Example(semver, v, w).ctx.Needs(p))
  {
    ResolutionsOf(semver, v, w);
    RequestsOf(v, w);
    hide Resolve;
    hide Requests;
  }

  lemma RequestedAreMet(semver: Semver, v: string, w: string, group: DependencyGroup)
    requires v != w && group != Peer
    ensures AllResolve(Example(semver, v, w).ctx.registry, Example(semver, v, w).Requested(group))
  {
    ResolutionsOf(semver, v, w);
    RootsOf(semver, v, w);
    hide Resolve;
    hide Inputs.Requested;
    hide Inputs.Roots;
  }

  lemma RootIsPublished(semver: Semver, v: string, w: string)
    requires v != w
    ensures Example(semver, v, w).AllRoots() <= Versions(Example(semver, v, w).ctx.registry)
  {
    VersionsOf(semver, v, w);
    RootsOf(semver, v, w);
    hide Versions;
    hide Inputs.Roots;
  }

  /** It is a registry, and a lockfile can be generated from it. */
  lemma CanBeGenerated(semver: Semver, v: string, w: string)
    requires SemverLibrary(semver) && IsCanonical(semver, v) && IsCanonical(semver, w) && v != w
    ensures Example(semver, v, w).ctx.Valid() && CanGenerate(Example(semver, v, w))
  {
    hide *;
    var inputs := Example(semver, v, w);
    IsExampleRegistry(semver, v, w);
    VersionsOf(semver, v, w);
    RootIsPublished(semver, v, w);
    forall p | p in Versions(inputs.ctx.registry)
      ensures AllResolve(inputs.ctx.registry, inputs.ctx.Needs(p))
    {
      NeedsAreMet(semver, v, w, p);
    }
    forall group: DependencyGroup | group != Peer
      ensures AllResolve(inputs.ctx.registry, inputs.Requested(group))
    {
      RequestedAreMet(semver, v, w, group);
    }
    AllMet(inputs);
  }

  lemma LeafIsNeeded(semver: Semver, v: string, w: string)
    requires v != w
    ensures Example(semver, v, w).IsNeeded(Leaf(v))
  {
    var inputs := Example(semver, v, w);
    VersionsOf(semver, v, w);
    ResolutionsOf(semver, v, w);
    RequestsOf(v, w);
    RootsOf(semver, v, w);
    hide Resolve;
    hide Requests;
    hide Versions;
    hide Inputs.Roots;
    ReachRoot(inputs.ctx.Graph(), inputs.AllRoots(), Lister(v, w));
    assert Edge(inputs.ctx.Graph(), Lister(v, w), Leaf(v));
    ReachStep(inputs.ctx.Graph(), inputs.AllRoots(), Lister(v, w), Leaf(v));
  }

  /** Only the second listing wins, so no winning request leads to the version of the first. */
  lemma LeafIsNoWinner(semver: Semver, v: string, w: string, groups: set<DependencyGroup>)
    requires v != w
    ensures !Reachable(WinningGraph(Example(semver, v, w).ctx), ChosenRoots(Example(semver, v, w), groups), Leaf(v))
  {
    var inputs := Example(semver, v, w);
    ResolutionsOf(semver, v, w);
    RequestsOf(v, w);
    RootsOf(semver, v, w);
    assert WinningRequests(Lister(v, w), false) == {("b", w)};
    assert WinningRequests(Leaf(w), false) == {};
    hide Resolve;
    hide Requests;
    hide WinningRequests;
    hide Versions;
    hide Inputs.Roots;
    ReachStaysInside(WinningGraph(inputs.ctx), ChosenRoots(inputs, groups), {Lister(v, w), Leaf(w)});
  }

  /** Whatever groups are fetched, the key of that version is on file and not selected. */
  lemma KeyIsLeftOut(semver: Semver, v: string, w: string, lockfile: Lockfile, index: LockfilePackageIndex,
                     groups: set<DependencyGroup>, selected: seq<DependencyPath>)
    requires SemverLibrary(semver) && IsCanonical(semver, v) && IsCanonical(semver, w) && v != w
    requires IsGenerated(Example(semver, v, w), lockfile) && lockfile.packages.Some?
    requires Indexes(index, lockfile.packages.value.Keys)
    requires IsSelection(View(semver, lockfile.packages.value, index),
                         RootTargets(index, AllRootEntries(lockfile.projectSnapshot, groups)), selected)
    ensures KeyOf(Leaf(v)) in lockfile.packages.value && KeyOf(Leaf(v)) !in selected
  {
    hide *;
    var inputs := Example(semver, v, w);
    SemverOf(semver, v, w);
    VersionsOf(semver, v, w);
    CanBeGenerated(semver, v, w);
    LeafIsNeeded(semver, v, w);
    LeafIsNoWinner(semver, v, w, groups);
    GeneratedCanBeFetched(inputs, lockfile, index, groups);
    GeneratedPackages(inputs, lockfile);
    LeftOut(inputs, lockfile.packages.value, groups, selected, Leaf(v));
  }

  lemma SemverOf(semver: Semver, v: string, w: string)
    ensures Example(semver, v, w).ctx.semver == semver
  {
  }

  lemma LeftOut(inputs: Inputs, packages: Packages, groups: set<DependencyGroup>, selected: seq<DependencyPath>,
                p: PackageVersion)
    requires HoldsTheReachable(inputs, packages) && SelectsWinners(inputs, groups, selected)
    requires inputs.IsNeeded(p) && !Reachable(WinningGraph(inputs.ctx), ChosenRoots(inputs, groups), p)
    ensures KeyOf(p) in packages && KeyOf(p) !in selected
  {
  }
}
