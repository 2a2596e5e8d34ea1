/** Fetching what was generated: the walk over a lockfile follows the walk over the registry that produced it. */
module FetchGenerated {
  import opened Wrappers
  import opened PkgVerPeers
  import opened DependencyPaths
  import opened SnapshotReferences
  import opened Graphs
  import opened Registries
  import opened Lockfiles
  import opened DependencyContexts
  import opened LockfileWalk
  import opened GeneratedLockfiles
  import opened PackageIndexes
  import opened Fetch
  import PkgNames
  import PkgNameSuffixes

  /** The requests that win under their name: the ones a snapshot has room to record. */
  function WinningRequests(p: PackageVersion, withPeers: bool): set<Request> {
    set e | e in Requests(p, withPeers) && EffectiveRange(p, withPeers, e.0) == Some(e.1)
  }

  function WinningGraph(ctx: Context): map<PackageVersion, set<PackageVersion>> {
    map p | p in Versions(ctx.registry) :: ResolveAll(ctx.registry, WinningRequests(p, ctx.config.autoInstallPeers))
  }

  /** The versions that the chosen groups ask for directly. */
  function ChosenRoots(inputs: Inputs, groups: set<DependencyGroup>): set<PackageVersion> {
    set group, p | group in groups && group != Peer && p in inputs.Roots(group) :: p
  }

  lemma WinnerIsRequested(p: PackageVersion, withPeers: bool, name: string)
    requires EffectiveRange(p, withPeers, name).Some?
    ensures (name, EffectiveRange(p, withPeers, name).value) in WinningRequests(p, withPeers)
  {
  }

  lemma NameOfPrinted(n: PkgNames.PkgName)
    requires PkgNames.IsParsed(n)
    ensures PkgNames.Parse(PkgNames.Print(n)).Ok? && NameOf(PkgNames.Print(n)) == n
  {
    PkgNames.ParsePrint(n);
  }

  /** Looking up a filed version under the default registry finds its own key. */
  lemma KeyIsFound(index: LockfilePackageIndex, packages: Packages, c: PackageVersion)
    requires Indexes(index, packages.Keys) && KeyOf(c) in packages
    ensures ResolveBySpecifier(index, None, PkgNameSuffixes.PkgNameVerPeer(NameOf(c.name), PkgVerPeer(c.version, "")))
      == Some(KeyOf(c))
  {
    LookupIsLinearScan(index, packages.Keys, None, KeyOf(c).packageSpecifier);
  }

  /** A version reached through requests is filed, so a reference to it is found. */
  lemma ChildIsFiled(inputs: Inputs, packages: Packages, p: PackageVersion, e: Request)
    requires inputs.ctx.Valid() && HoldsTheReachable(inputs, packages)
    requires inputs.IsNeeded(p) && e in inputs.ctx.Needs(p) && Resolve(inputs.ctx.registry, e).Some?
    ensures var c := Resolve(inputs.ctx.registry, e).value;
      inputs.IsNeeded(c) && c in Versions(inputs.ctx.registry) && KeyOf(c) in packages && c.name == e.0
  {
    RequestIsEdge(inputs.ctx, p, e);
    hide Reachable;
    hide Context.Graph;
    hide Resolve;
    ReachStep(inputs.ctx.Graph(), inputs.AllRoots(), p, Resolve(inputs.ctx.registry, e).value);
  }

  /** Every edge recorded in a snapshot of a generated lockfile names one of its keys. */
  lemma EdgesNameKeys(inputs: Inputs, lockfile: Lockfile, k: DependencyPath, n: PkgNames.PkgName)
    requires inputs.ctx.Valid() && IsGenerated(inputs, lockfile)
    requires k in OrEmpty(lockfile.packages) && n in OrEmpty(OrEmpty(lockfile.packages)[k].dependencies)
    ensures var reference := OrEmpty(OrEmpty(lockfile.packages)[k].dependencies)[n];
      && reference.PkgVerPeerRef?
      && DependencyPath(None, PkgNameSuffixes.PkgNameVerPeer(n, reference.verPeer)) in OrEmpty(lockfile.packages)
  {
    hide Resolve;
    hide Requests;
    hide PkgNames.Parse;
    hide Inputs.IsNeeded;
    hide EffectiveRange;
    hide IsSnapshotOf;
    hide CanGenerate;
    hide HoldsTheGroups;
    hide DevIsExact;
    hide OptionalIsSound;
    hide OptionalIsLocal;
    var packages := OrEmpty(lockfile.packages);
    var p :| inputs.IsNeeded(p) && KeyOf(p) == k;
    EdgeNamesKey(inputs, packages, p, n);
  }

  lemma EdgeNamesKey(inputs: Inputs, packages: Packages, p: PackageVersion, n: PkgNames.PkgName)
    requires inputs.ctx.Valid() && HoldsTheReachable(inputs, packages) && HoldsTheEdges(inputs, packages)
    requires inputs.IsNeeded(p) && KeyOf(p) in packages && n in OrEmpty(packages[KeyOf(p)].dependencies)
    ensures var reference := OrEmpty(packages[KeyOf(p)].dependencies)[n];
      && reference.PkgVerPeerRef?
      && DependencyPath(None, PkgNameSuffixes.PkgNameVerPeer(n, reference.verPeer)) in packages
  {
    var peers := inputs.ctx.config.autoInstallPeers;
    var deps := OrEmpty(packages[KeyOf(p)].dependencies);
    assert StoresEdges(inputs.ctx, p, deps);
    NameOfPrinted(n);
    var e := (PkgNames.Print(n), EffectiveRange(p, peers, PkgNames.Print(n)).value);
    WinnerIsRequested(p, peers, e.0);
    assert e in inputs.ctx.Needs(p);
    hide Resolve;
    hide Requests;
    hide NameOf;
    hide PkgNames.Parse;
    hide Inputs.IsNeeded;
    hide EffectiveRange;
    hide IsSnapshotOf;
    assert StoresRange(inputs.ctx, deps, e.0, Some(e.1));
    ChildIsFiled(inputs, packages, p, e);
  }

  /** The reference and the winning request lead to the same version. */
  ghost predicate IsReferenceFor(inputs: Inputs, view: View, p: PackageVersion, r: Reference, e: Request) {
    && e in WinningRequests(p, inputs.ctx.config.autoInstallPeers)
    && Resolve(inputs.ctx.registry, e).Some?
    && view.Target(KeyOf(p), r) == Some(KeyOf(Resolve(inputs.ctx.registry, e).value))
  }

  /** The lockfile records the generated packages, and the index was built from it. */
  ghost predicate IsViewOf(inputs: Inputs, view: View) {
    && inputs.ctx.Valid()
    && HoldsTheReachable(inputs, view.packages) && HoldsTheEdges(inputs, view.packages)
    && Indexes(view.index, view.packages.Keys)
  }

  function StoredEdges(view: View, p: PackageVersion): map<PkgNames.PkgName, PackageSnapshotDependency>
    requires KeyOf(p) in view.packages
  {
    OrEmpty(view.packages[KeyOf(p)].dependencies)
  }

  lemma OneReference(inputs: Inputs, view: View, p: PackageVersion, name: string)
    requires IsViewOf(inputs, view) && inputs.IsNeeded(p) && KeyOf(p) in view.packages
    requires EffectiveRange(p, inputs.ctx.config.autoInstallPeers, name).Some?
    ensures var e := (name, EffectiveRange(p, inputs.ctx.config.autoInstallPeers, name).value);
      && NameOf(name) in StoredEdges(view, p)
      && IsReferenceFor(inputs, view, p, Required(NameOf(name), StoredEdges(view, p)[NameOf(name)]), e)
  {
    var peers := inputs.ctx.config.autoInstallPeers;
    var e := (name, EffectiveRange(p, peers, name).value);
    WinnerIsRequested(p, peers, name);
    assert e in inputs.ctx.Needs(p);
    hide Resolve;
    hide Requests;
    hide NameOf;
    hide PkgNames.Parse;
    hide Inputs.IsNeeded;
    hide EffectiveRange;
    hide IsSnapshotOf;
    hide ResolveBySpecifier;
    assert StoresEdges(inputs.ctx, p, StoredEdges(view, p));
    assert StoresRange(inputs.ctx, StoredEdges(view, p), name, EffectiveRange(p, peers, name));
    ChildIsFiled(inputs, view.packages, p, e);
    KeyIsFound(view.index, view.packages, Resolve(inputs.ctx.registry, e).value);
  }

  lemma ReferencesAreStored(inputs: Inputs, view: View, p: PackageVersion)
    requires IsViewOf(inputs, view) && inputs.IsNeeded(p) && KeyOf(p) in view.packages
    ensures References(view.packages[KeyOf(p)]) == RequiredReferences(StoredEdges(view, p))
    ensures forall n :: n in StoredEdges(view, p) ==>
      PkgNames.IsParsed(n) && EffectiveRange(p, inputs.ctx.config.autoInstallPeers, PkgNames.Print(n)).Some?
    ensures !view.packages[KeyOf(p)].resolution.GitResolution? && view.IsSelectable(KeyOf(p))
  {
    hide Inputs.IsNeeded;
    hide KeyOf;
    hide Indexes;
    hide HoldsTheReachable;
    hide StoresRange;
    hide EffectiveRange;
    hide PkgNames.IsParsed;
    hide PkgNames.Print;
    assert IsSnapshotOf(inputs.ctx, p, view.packages[KeyOf(p)]);
    assert StoresEdges(inputs.ctx, p, StoredEdges(view, p));
  }

  /** What the snapshot of a needed version refers to: the keys of the versions its winning requests resolve to. */
  lemma TargetsAreWinners(inputs: Inputs, view: View, p: PackageVersion)
    requires IsViewOf(inputs, view) && inputs.IsNeeded(p) && KeyOf(p) in view.packages
    ensures forall r :: r in References(view.packages[KeyOf(p)]) ==> exists e :: IsReferenceFor(inputs, view, p, r, e)
    ensures forall e :: e in WinningRequests(p, inputs.ctx.config.autoInstallPeers) ==>
      exists r :: r in References(view.packages[KeyOf(p)]) && IsReferenceFor(inputs, view, p, r, e)
  {
    hide IsViewOf;
    hide Inputs.IsNeeded;
    hide KeyOf;
    hide References;
    hide IsReferenceFor;
    hide EffectiveRange;
    hide Requests;
    hide NameOf;
    hide PkgNames.IsParsed;
    hide PkgNames.Parse;
    hide PkgNames.Print;
    ReferencesAreStored(inputs, view, p);
    forall r | r in References(view.packages[KeyOf(p)])
      ensures exists e :: IsReferenceFor(inputs, view, p, r, e)
    {
      NameOfPrinted(r.name);
      OneReference(inputs, view, p, PkgNames.Print(r.name));
    }
    forall e | e in WinningRequests(p, inputs.ctx.config.autoInstallPeers)
      ensures exists r :: r in References(view.packages[KeyOf(p)]) && IsReferenceFor(inputs, view, p, r, e)
    {
      OneReference(inputs, view, p, e.0);
      assert e == (e.0, e.1);
      assert Required(NameOf(e.0), StoredEdges(view, p)[NameOf(e.0)]) in References(view.packages[KeyOf(p)]);
    }
  }

  lemma LockfileEdgeIsWinner(inputs: Inputs, view: View, p: PackageVersion, k: DependencyPath)
    returns (c: PackageVersion)
    requires IsViewOf(inputs, view) && inputs.IsNeeded(p) && p in Versions(inputs.ctx.registry)
    requires Edge(view.Graph(), KeyOf(p), k)
    ensures Edge(WinningGraph(inputs.ctx), p, c) && KeyOf(c) == k
  {
    hide IsViewOf;
    hide KeyOf;
    hide Versions;
    hide Inputs.IsNeeded;
    hide References;
    hide View.Target;
    hide Resolve;
    hide WinningRequests;
    TargetsAreWinners(inputs, view, p);
    var r :| r in References(view.packages[KeyOf(p)]) && view.Target(KeyOf(p), r) == Some(k);
    var e :| IsReferenceFor(inputs, view, p, r, e);
    c := Resolve(inputs.ctx.registry, e).value;
  }

  lemma TargetIsEdge(view: View, k: DependencyPath, r: Reference, c: DependencyPath)
    requires k in view.packages && r in References(view.packages[k]) && view.Target(k, r) == Some(c)
    ensures Edge(view.Graph(), k, c)
  {
    hide References;
    hide View.Target;
  }

  lemma WinnerIsLockfileEdge(inputs: Inputs, view: View, p: PackageVersion, c: PackageVersion)
    requires IsViewOf(inputs, view) && inputs.IsNeeded(p) && KeyOf(p) in view.packages
    requires Edge(WinningGraph(inputs.ctx), p, c)
    ensures Edge(view.Graph(), KeyOf(p), KeyOf(c))
  {
    hide IsViewOf;
    hide KeyOf;
    hide Versions;
    hide Inputs.IsNeeded;
    hide References;
    hide View.Target;
    hide View.Graph;
    hide Resolve;
    hide WinningRequests;
    TargetsAreWinners(inputs, view, p);
    var e :| e in WinningRequests(p, inputs.ctx.config.autoInstallPeers) && Resolve(inputs.ctx.registry, e) == Some(c);
    var r :| r in References(view.packages[KeyOf(p)]) && IsReferenceFor(inputs, view, p, r, e);
    TargetIsEdge(view, KeyOf(p), r, KeyOf(c));
  }

  lemma NeededIsSound(inputs: Inputs, view: View, p: PackageVersion)
    requires IsViewOf(inputs, view) && inputs.IsNeeded(p)
    ensures p in Versions(inputs.ctx.registry) && KeyOf(p) in view.packages
    ensures view.IsSound(KeyOf(p)) && view.IsSelectable(KeyOf(p))
  {
    hide KeyOf;
    hide Inputs.IsNeeded;
    hide Versions;
    hide Indexes;
    hide HoldsTheEdges;
    hide References;
    hide View.Target;
    hide WinningRequests;
    hide Resolve;
    assert KeyOf(p) in view.packages;
    ReferencesAreStored(inputs, view, p);
    TargetsAreWinners(inputs, view, p);
    hide IsViewOf;
    forall r | r in References(view.packages[KeyOf(p)])
      ensures view.Target(KeyOf(p), r).Some?
    {
      var e :| IsReferenceFor(inputs, view, p, r, e);
    }
  }

  /** Winning edges are edges, so what they reach from chosen roots is needed. */
  lemma WinnersAreNeeded(inputs: Inputs, groups: set<DependencyGroup>)
    ensures forall p :: Reachable(WinningGraph(inputs.ctx), ChosenRoots(inputs, groups), p) ==> inputs.IsNeeded(p)
  {
    var g, w := inputs.ctx.Graph(), WinningGraph(inputs.ctx);
    assert forall p, c :: Edge(w, p, c) ==> Edge(g, p, c);
    var roots := ChosenRoots(inputs, groups);
    assert roots <= inputs.AllRoots();
    hide WinningGraph;
    hide Context.Graph;
    hide Inputs.AllRoots;
    forall p | Reachable(w, roots, p)
      ensures inputs.IsNeeded(p)
    {
      var path: seq<PackageVersion> :| IsPath(w, path) && path[0] in roots && path[|path| - 1] == p;
      assert IsPath(g, path);
    }
  }

  /** The keys that the chosen groups lead the walk to, each the key of a version reached along winning edges. */
  lemma WalkReachesWinners(inputs: Inputs, view: View, groups: set<DependencyGroup>)
    requires IsViewOf(inputs, view)
    ensures var roots := ChosenRoots(inputs, groups);
      var keys := set p | p in roots :: KeyOf(p);
      && (forall p :: Reachable(WinningGraph(inputs.ctx), roots, p) ==> Reachable(view.Graph(), keys, KeyOf(p)))
      && (forall k :: Reachable(view.Graph(), keys, k) ==>
            exists p :: Reachable(WinningGraph(inputs.ctx), roots, p) && KeyOf(p) == k)
  {
    hide IsViewOf;
    hide KeyOf;
    hide Inputs.IsNeeded;
    hide Versions;
    hide View.Graph;
    hide WinningGraph;
    hide ChosenRoots;
    var w, g := WinningGraph(inputs.ctx), view.Graph();
    var roots := ChosenRoots(inputs, groups);
    var keys := set p | p in roots :: KeyOf(p);
    WinnersAreNeeded(inputs, groups);
    forall p | Reachable(w, roots, p)
      ensures Reachable(g, keys, KeyOf(p))
    {
      var path: seq<PackageVersion> :| IsPath(w, path) && path[0] in roots && path[|path| - 1] == p;
      FollowWinners(inputs, view, groups, path);
    }
    forall k | Reachable(g, keys, k)
      ensures exists p :: Reachable(w, roots, p) && KeyOf(p) == k
    {
      var path: seq<DependencyPath> :| IsPath(g, path) && path[0] in keys && path[|path| - 1] == k;
      var p := FollowKeys(inputs, view, groups, path);
    }
  }

  lemma {:induction false} FollowWinners(inputs: Inputs, view: View, groups: set<DependencyGroup>,
                                         path: seq<PackageVersion>)
    requires IsViewOf(inputs, view)
    requires IsPath(WinningGraph(inputs.ctx), path) && path[0] in ChosenRoots(inputs, groups)
    ensures Reachable(WinningGraph(inputs.ctx), ChosenRoots(inputs, groups), path[|path| - 1])
    ensures Reachable(view.Graph(), set p | p in ChosenRoots(inputs, groups) :: KeyOf(p), KeyOf(path[|path| - 1]))
  {
    hide IsViewOf;
    hide KeyOf;
    hide Inputs.IsNeeded;
    hide Versions;
    hide View.Graph;
    hide WinningGraph;
    hide ChosenRoots;
    hide Reachable;
    var w, roots := WinningGraph(inputs.ctx), ChosenRoots(inputs, groups);
    var keys := set p | p in roots :: KeyOf(p);
    if |path| == 1 {
      ReachRoot(w, roots, path[0]);
      ReachRoot(view.Graph(), keys, KeyOf(path[0]));
    } else {
      var before := path[..|path| - 1];
      var p := before[|before| - 1];
      assert Edge(w, p, path[|path| - 1]);
      FollowWinners(inputs, view, groups, before);
      WinnersAreNeeded(inputs, groups);
      NeededIsSound(inputs, view, p);
      WinnerIsLockfileEdge(inputs, view, p, path[|path| - 1]);
      ReachStep(w, roots, p, path[|path| - 1]);
      ReachStep(view.Graph(), keys, KeyOf(p), KeyOf(path[|path| - 1]));
    }
  }

  lemma {:induction false} FollowKeys(inputs: Inputs, view: View, groups: set<DependencyGroup>,
                                      path: seq<DependencyPath>)
    returns (p: PackageVersion)
    requires IsViewOf(inputs, view)
    requires IsPath(view.Graph(), path) && path[0] in (set p | p in ChosenRoots(inputs, groups) :: KeyOf(p))
    ensures Reachable(WinningGraph(inputs.ctx), ChosenRoots(inputs, groups), p) && KeyOf(p) == path[|path| - 1]
  {
    hide IsViewOf;
    hide KeyOf;
    hide Inputs.IsNeeded;
    hide Versions;
    hide View.Graph;
    hide WinningGraph;
    hide ChosenRoots;
    hide Reachable;
    var w, roots := WinningGraph(inputs.ctx), ChosenRoots(inputs, groups);
    if |path| == 1 {
      p :| p in roots && KeyOf(p) == path[0];
      ReachRoot(w, roots, p);
    } else {
      var before := path[..|path| - 1];
      assert Edge(view.Graph(), before[|before| - 1], path[|path| - 1]);
      var q := FollowKeys(inputs, view, groups, before);
      WinnersAreNeeded(inputs, groups);
      NeededIsSound(inputs, view, q);
      p := LockfileEdgeIsWinner(inputs, view, q, path[|path| - 1]);
      ReachStep(w, roots, q, p);
    }
  }

  /** A direct dependency is recorded under its name, and the record is found as the key of the version picked. */
  lemma RootIsFound(inputs: Inputs, view: View, project: ProjectSnapshot, group: DependencyGroup, e: Request)
    requires IsViewOf(inputs, view) && HoldsTheGroups(inputs, project)
    requires group != Peer && e in inputs.Requested(group) && Resolve(inputs.ctx.registry, e).Some?
    ensures var c := Resolve(inputs.ctx.registry, e).value;
      && c in inputs.Roots(group) && c.name == e.0
      && NameOf(e.0) in OrEmpty(project.GetMapByGroup(group))
      && OrEmpty(project.GetMapByGroup(group))[NameOf(e.0)].version == PkgVerPeer(c.version, "")
      && ResolveRootDependency(view.index, NameOf(e.0), PkgVerPeer(c.version, "")) == Some(KeyOf(c))
  {
    var c := Resolve(inputs.ctx.registry, e).value;
    ResolveIsPublished(inputs.ctx.semver, inputs.ctx.registry, e);
    hide Resolve;
    hide Context.Graph;
    hide HoldsTheEdges;
    hide Indexes;
    hide NameOf;
    hide RootRequests;
    hide ResolveBySpecifier;
    assert c in inputs.Roots(group);
    assert c in inputs.AllRoots();
    ReachRoot(inputs.ctx.Graph(), inputs.AllRoots(), c);
    assert StoresRoot(inputs.ctx, OrEmpty(project.GetMapByGroup(group)), e);
    KeyIsFound(view.index, view.packages, c);
  }

  lemma EntryHasRequest(inputs: Inputs, project: ProjectSnapshot, group: DependencyGroup, n: PkgNames.PkgName)
    returns (e: Request)
    requires HoldsTheGroups(inputs, project) && n in OrEmpty(project.GetMapByGroup(group))
    ensures group != Peer && e in inputs.Requested(group) && Resolve(inputs.ctx.registry, e).Some? && NameOf(e.0) == n
  {
    hide Resolve;
    hide RootRequests;
    hide NameOf;
    assert StoresRoots(inputs.ctx, inputs.Requested(group), OrEmpty(project.GetMapByGroup(group)));
    e :| e in inputs.Requested(group) && e.0 == PkgNames.Print(n);
    assert StoresRoot(inputs.ctx, OrEmpty(project.GetMapByGroup(group)), e);
    NameOfPrinted(n);
  }

  /** The walk starts from the keys of the chosen roots. */
  lemma RootsAgree(inputs: Inputs, view: View, project: ProjectSnapshot, groups: set<DependencyGroup>)
    requires IsViewOf(inputs, view) && HoldsTheGroups(inputs, project)
    ensures forall entry :: entry in RootEntries(project, groups) ==> RootResolves(view.index, entry)
    ensures RootTargets(view.index, RootEntries(project, groups)) ==
      set p | p in ChosenRoots(inputs, groups) :: KeyOf(p)
  {
    hide IsViewOf;
    hide HoldsTheGroups;
    hide Resolve;
    hide NameOf;
    hide KeyOf;
    hide RootRequests;
    hide ResolveRootDependency;
    hide ProjectSnapshot.GetMapByGroup;
    var roots := ChosenRoots(inputs, groups);
    var targets := RootTargets(view.index, RootEntries(project, groups));
    forall entry | entry in RootEntries(project, groups)
      ensures RootResolves(view.index, entry)
      ensures ResolveRootDependency(view.index, entry.0, entry.1).value in (set p | p in roots :: KeyOf(p))
    {
      var group, n :| group in groups && n in OrEmpty(project.GetMapByGroup(group))
        && entry == (n, OrEmpty(project.GetMapByGroup(group))[n].version);
      var e := EntryHasRequest(inputs, project, group, n);
      RootIsFound(inputs, view, project, group, e);
      assert Resolve(inputs.ctx.registry, e).value in roots;
    }
    forall p | p in roots
      ensures KeyOf(p) in targets
    {
      var group :| group in groups && group != Peer && p in inputs.Roots(group);
      var e :| e in inputs.Requested(group) && Resolve(inputs.ctx.registry, e) == Some(p);
      RootIsFound(inputs, view, project, group, e);
      var entry := (NameOf(e.0), PkgVerPeer(p.version, ""));
      assert entry in RootEntries(project, groups);
      assert RootResolves(view.index, entry);
    }
  }

  lemma SingleProject(project: ProjectSnapshot, groups: set<DependencyGroup>)
    ensures AllRootEntries(Single(project), groups) == RootEntries(project, groups)
  {
  }

  /**
   * Whatever groups are chosen, a generated lockfile can be fetched, and what is selected are exactly the versions
   * that winning requests lead to from those groups.
   */
  lemma GeneratedCanBeFetched(inputs: Inputs, lockfile: Lockfile, index: LockfilePackageIndex,
                              groups: set<DependencyGroup>)
    requires inputs.ctx.Valid() && IsGenerated(inputs, lockfile) && lockfile.packages.Some?
    requires Indexes(index, lockfile.packages.value.Keys)
    ensures var view := View(inputs.ctx.semver, lockfile.packages.value, index);
      && CanSelect(view, lockfile.projectSnapshot, groups)
      && var roots := RootTargets(index, AllRootEntries(lockfile.projectSnapshot, groups));
      && forall selected :: IsSelection(view, roots, selected) ==>
           SelectsWinners(inputs, groups, selected)
  {
    hide IsGenerated;
    hide CanSelect;
    hide IsSelection;
    hide SelectsWinners;
    var view := View(inputs.ctx.semver, lockfile.packages.value, index);
    GeneratedView(inputs, lockfile, view);
    hide IsViewOf;
    hide HoldsTheGroups;
    CanSelectGenerated(inputs, view, lockfile.projectSnapshot.project, groups);
    RootsAgree(inputs, view, lockfile.projectSnapshot.project, groups);
    SingleProject(lockfile.projectSnapshot.project, groups);
    forall selected | IsSelection(view, RootTargets(index, AllRootEntries(lockfile.projectSnapshot, groups)), selected)
      ensures SelectsWinners(inputs, groups, selected)
    {
      SelectionIsWinners(inputs, view, groups, selected);
    }
  }

  lemma GeneratedView(inputs: Inputs, lockfile: Lockfile, view: View)
    requires inputs.ctx.Valid() && IsGenerated(inputs, lockfile) && lockfile.packages == Some(view.packages)
    requires Indexes(view.index, view.packages.Keys)
    ensures IsViewOf(inputs, view)
    ensures lockfile.projectSnapshot.Single? && HoldsTheGroups(inputs, lockfile.projectSnapshot.project)
  {
    hide HoldsTheReachable;
    hide HoldsTheEdges;
    hide HoldsTheGroups;
    hide CanGenerate;
    hide Indexes;
    hide IsRegistry;
    assert OrEmpty(lockfile.packages) == view.packages;
  }

  lemma CanSelectGenerated(inputs: Inputs, view: View, project: ProjectSnapshot, groups: set<DependencyGroup>)
    requires IsViewOf(inputs, view) && HoldsTheGroups(inputs, project)
    ensures CanSelect(view, Single(project), groups)
  {
    hide KeyOf;
    hide Inputs.IsNeeded;
    hide View.Graph;
    hide View.IsSound;
    hide IsViewOf;
    hide WinningGraph;
    hide ChosenRoots;
    hide RootResolves;
    hide RootTargets;
    hide RootEntries;
    hide AllRootEntries;
    hide Reachable;
    hide HoldsTheGroups;
    SingleProject(project, groups);
    RootsAgree(inputs, view, project, groups);
    WinnersAreNeeded(inputs, groups);
    WalkReachesWinners(inputs, view, groups);
    var roots := ChosenRoots(inputs, groups);
    forall k | Reachable(view.Graph(), set p | p in roots :: KeyOf(p), k)
      ensures view.IsSound(k)
    {
      var p :| Reachable(WinningGraph(inputs.ctx), roots, p) && KeyOf(p) == k;
      NeededIsSound(inputs, view, p);
    }
  }

  ghost predicate SelectsWinners(inputs: Inputs, groups: set<DependencyGroup>, selected: seq<DependencyPath>) {
    && NoDuplicates(selected)
    && (forall p :: p in Versions(inputs.ctx.registry) ==>
          (KeyOf(p) in selected <==> Reachable(WinningGraph(inputs.ctx), ChosenRoots(inputs, groups), p)))
    && (forall k :: k in selected ==> exists p :: p in Versions(inputs.ctx.registry) && KeyOf(p) == k)
  }

  lemma SelectionIsWinners(inputs: Inputs, view: View, groups: set<DependencyGroup>, selected: seq<DependencyPath>)
    requires IsViewOf(inputs, view)
    requires IsSelection(view, set p | p in ChosenRoots(inputs, groups) :: KeyOf(p), selected)
    ensures SelectsWinners(inputs, groups, selected)
  {
    hide KeyOf;
    hide Inputs.IsNeeded;
    hide View.Graph;
    hide View.IsSelectable;
    hide WinningGraph;
    hide ChosenRoots;
    hide Reachable;
    hide Versions;
    hide HoldsTheEdges;
    hide HoldsTheReachable;
    hide Indexes;
    hide IsRegistry;
    var roots := ChosenRoots(inputs, groups);
    WinnersAreNeeded(inputs, groups);
    WalkReachesWinners(inputs, view, groups);
    forall p | p in Versions(inputs.ctx.registry)
      ensures KeyOf(p) in selected <==> Reachable(WinningGraph(inputs.ctx), roots, p)
    {
      if KeyOf(p) in selected {
        var q :| Reachable(WinningGraph(inputs.ctx), roots, q) && KeyOf(q) == KeyOf(p);
        NeededIsSound(inputs, view, q);
        KeyInjective(inputs.ctx.semver, inputs.ctx.registry, p, q);
      }
      if Reachable(WinningGraph(inputs.ctx), roots, p) {
        NeededIsSound(inputs, view, p);
      }
    }
    forall k | k in selected
      ensures exists p :: p in Versions(inputs.ctx.registry) && KeyOf(p) == k
    {
      var q :| Reachable(WinningGraph(inputs.ctx), roots, q) && KeyOf(q) == k;
      NeededIsSound(inputs, view, q);
    }
  }

  /** No package asks for one name at ranges that resolve differently. */
  ghost predicate IsSingleVersioned(ctx: Context, p: PackageVersion) {
    forall e, f :: e in ctx.Needs(p) && f in ctx.Needs(p) && e.0 == f.0 ==>
      Resolve(ctx.registry, e) == Resolve(ctx.registry, f)
  }

  /** With all enabled groups and no name resolved twice, every needed version is reached by winning requests. */
  lemma WinnersAreAll(inputs: Inputs, groups: set<DependencyGroup>)
    requires forall group :: group in inputs.groups && group != Peer ==> group in groups
    requires forall p :: inputs.IsNeeded(p) ==> IsSingleVersioned(inputs.ctx, p)
    ensures forall p :: inputs.IsNeeded(p) <==> Reachable(WinningGraph(inputs.ctx), ChosenRoots(inputs, groups), p)
  {
    WinnersAreNeeded(inputs, groups);
    var roots := ChosenRoots(inputs, groups);
    RootsAreChosen(inputs, groups);
    forall p | inputs.IsNeeded(p)
      ensures Reachable(WinningGraph(inputs.ctx), roots, p)
    {
      var path: seq<PackageVersion> :| IsPath(inputs.ctx.Graph(), path) && path[0] in inputs.AllRoots()
        && path[|path| - 1] == p;
      PathIsWinning(inputs, path);
      assert path[0] in roots;
    }
  }

  lemma RootsAreChosen(inputs: Inputs, groups: set<DependencyGroup>)
    requires forall group :: group in inputs.groups && group != Peer ==> group in groups
    ensures inputs.AllRoots() <= ChosenRoots(inputs, groups)
  {
    forall group, p | group != Peer && p in inputs.Roots(group)
      ensures p in ChosenRoots(inputs, groups)
    {
      assert group in inputs.groups;
    }
  }

  /** Winning requests of the chosen groups lead to all that is needed. */
  ghost predicate WinnersReachAll(inputs: Inputs, groups: set<DependencyGroup>) {
    forall p :: inputs.IsNeeded(p) ==> Reachable(WinningGraph(inputs.ctx), ChosenRoots(inputs, groups), p)
  }

  /** Every key of a generated lockfile is selected exactly when winning requests lead to all that is needed. */
  lemma EverythingIsFetchedExactly(inputs: Inputs, lockfile: Lockfile, index: LockfilePackageIndex,
                                   groups: set<DependencyGroup>, selected: seq<DependencyPath>)
    requires inputs.ctx.Valid() && IsGenerated(inputs, lockfile) && lockfile.packages.Some?
    requires Indexes(index, lockfile.packages.value.Keys)
    requires var view := View(inputs.ctx.semver, lockfile.packages.value, index);
      IsSelection(view, RootTargets(index, AllRootEntries(lockfile.projectSnapshot, groups)), selected)
    ensures NoDuplicates(selected)
    ensures (forall k :: k in selected <==> k in lockfile.packages.value) <==> WinnersReachAll(inputs, groups)
  {
    hide *;
    GeneratedCanBeFetched(inputs, lockfile, index, groups);
    GeneratedPackages(inputs, lockfile);
    WinnersAreNeeded(inputs, groups);
    AllAreSelected(inputs, lockfile.packages.value, groups, selected);
  }

  /** With all enabled groups and no name resolved twice, every key of the generated lockfile is selected. */
  lemma EverythingIsFetched(inputs: Inputs, lockfile: Lockfile, index: LockfilePackageIndex,
                            groups: set<DependencyGroup>,
                            selected: seq<DependencyPath>)
    requires inputs.ctx.Valid() && IsGenerated(inputs, lockfile) && lockfile.packages.Some?
    requires Indexes(index, lockfile.packages.value.Keys)
    requires forall group :: group in inputs.groups && group != Peer ==> group in groups
    requires forall p :: inputs.IsNeeded(p) ==> IsSingleVersioned(inputs.ctx, p)
    requires var view := View(inputs.ctx.semver, lockfile.packages.value, index);
      IsSelection(view, RootTargets(index, AllRootEntries(lockfile.projectSnapshot, groups)), selected)
    ensures NoDuplicates(selected) && forall k :: k in selected <==> k in lockfile.packages.value
  {
    hide *;
    WinnersAreAll(inputs, groups);
    AllNeededAreWinners(inputs, groups);
    EverythingIsFetchedExactly(inputs, lockfile, index, groups, selected);
  }

  lemma AllNeededAreWinners(inputs: Inputs, groups: set<DependencyGroup>)
    requires forall p :: inputs.IsNeeded(p) <==> Reachable(WinningGraph(inputs.ctx), ChosenRoots(inputs, groups), p)
    ensures WinnersReachAll(inputs, groups)
  {
  }

  lemma GeneratedPackages(inputs: Inputs, lockfile: Lockfile)
    requires IsGenerated(inputs, lockfile) && lockfile.packages.Some?
    ensures HoldsTheReachable(inputs, lockfile.packages.value)
  {
  }

  lemma AllAreSelected(inputs: Inputs, packages: Packages, groups: set<DependencyGroup>, selected: seq<DependencyPath>)
    requires HoldsTheReachable(inputs, packages) && SelectsWinners(inputs, groups, selected)
    requires forall p :: Reachable(WinningGraph(inputs.ctx), ChosenRoots(inputs, groups), p) ==> inputs.IsNeeded(p)
    ensures NoDuplicates(selected)
    ensures (forall k :: k in selected <==> k in packages) <==> WinnersReachAll(inputs, groups)
  {
    hide Inputs.IsNeeded;
    hide KeyOf;
    hide Reachable;
    hide WinningGraph;
    hide ChosenRoots;
    hide Versions;
    hide NoDuplicates;
    forall k | k in selected
      ensures k in packages
    {
      var p :| p in Versions(inputs.ctx.registry) && KeyOf(p) == k;
    }
    if WinnersReachAll(inputs, groups) {
      forall k | k in packages
        ensures k in selected
      {
        var p :| inputs.IsNeeded(p) && KeyOf(p) == k;
      }
    }
    if forall k :: k in selected <==> k in packages {
      forall p | inputs.IsNeeded(p)
        ensures Reachable(WinningGraph(inputs.ctx), ChosenRoots(inputs, groups), p)
      {
        assert KeyOf(p) in selected;
      }
    }
  }

  lemma {:induction false} PathIsWinning(inputs: Inputs, path: seq<PackageVersion>)
    requires forall p :: inputs.IsNeeded(p) ==> IsSingleVersioned(inputs.ctx, p)
    requires IsPath(inputs.ctx.Graph(), path) && path[0] in inputs.AllRoots()
    ensures inputs.IsNeeded(path[|path| - 1]) && IsPath(WinningGraph(inputs.ctx), path)
  {
    hide Context.Graph;
    hide WinningGraph;
    hide Inputs.AllRoots;
    hide IsSingleVersioned;
    if |path| > 1 {
      var before := path[..|path| - 1];
      var p := before[|before| - 1];
      PathIsWinning(inputs, before);
      assert Edge(inputs.ctx.Graph(), p, path[|path| - 1]);
      EdgeIsWinning(inputs.ctx, p, path[|path| - 1]);
      assert forall i | 0 < i < |before| :: Edge(WinningGraph(inputs.ctx), before[i - 1], before[i]);
    }
  }

  lemma EdgeIsWinning(ctx: Context, p: PackageVersion, c: PackageVersion)
    requires IsSingleVersioned(ctx, p) && Edge(ctx.Graph(), p, c)
    ensures Edge(WinningGraph(ctx), p, c)
  {
    var peers := ctx.config.autoInstallPeers;
    var e :| e in ctx.Needs(p) && Resolve(ctx.registry, e) == Some(c);
    hide Resolve;
    var range := EffectiveRange(p, peers, e.0);
    assert range.Some?;
    WinnerIsRequested(p, peers, e.0);
    var f := (e.0, range.value);
    assert f in WinningRequests(p, peers) && f in ctx.Needs(p);
    assert Resolve(ctx.registry, f) == Some(c);
  }
}
