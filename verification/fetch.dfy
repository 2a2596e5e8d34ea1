/** Selecting the packages to fetch: a worklist walk over the lockfile's snapshots. */
module Fetch {
  import opened Wrappers
  import opened PkgVerPeers
  import opened DependencyPaths
  import opened SnapshotReferences
  import opened Graphs
  import opened Lockfiles
  import opened PackageIndexes
  import PkgNames

  datatype FetchError =
    | MissingPackageSnapshots
    | ResolvePackage(package: string)
    | MissingSnapshot(missing: DependencyPath)
    | ParseOptional(error: ParseOptionalDependency)
    | UnsupportedResolution(unsupported: DependencyPath)

  /** One line of a snapshot that names another package. */
  datatype Reference =
    | Required(name: PkgNames.PkgName, dependency: PackageSnapshotDependency)
    | Optionally(optionalName: string, reference: string)

  function References(snapshot: PackageSnapshot): set<Reference> {
    var required := OrEmpty(snapshot.dependencies);
    var optional := OrEmpty(snapshot.optionalDependencies);
    (set n | n in required :: Required(n, required[n])) + (set n | n in optional :: Optionally(n, optional[n]))
  }

  /** What a walk looks at: the snapshots, and the index they are found with. */
  datatype View = View(semver: Semver, packages: Packages, index: LockfilePackageIndex) {

    function Target(parent: DependencyPath, r: Reference): Option<DependencyPath> {
      match r
      case Required(name, dependency) => ResolveSnapshotDependency(index, parent, name, dependency)
      case Optionally(name, reference) =>
        match ResolveOptionalDependency(semver, index, parent, name, reference)
        case Ok(found) => found
        case Err(_) => None
    }

    function Targets(parent: DependencyPath, references: set<Reference>): set<DependencyPath> {
      set r | r in references && Target(parent, r).Some? :: Target(parent, r).value
    }

    function Graph(): map<DependencyPath, set<DependencyPath>> {
      map k | k in packages :: Targets(k, References(packages[k]))
    }

    /** The snapshot is there, can be fetched, and all it refers to can be looked up. */
    predicate IsSound(k: DependencyPath) {
      && k in packages
      && !packages[k].resolution.GitResolution?
      && forall r | r in References(packages[k]) :: Target(k, r).Some?
    }

    predicate IsSelectable(k: DependencyPath) {
      k in packages && (packages[k].resolution.RegistryResolution? || packages[k].resolution.TarballResolution?)
    }
  }

  /** The direct dependencies of a project in the groups asked for. */
  function RootEntries(project: ProjectSnapshot, groups: set<DependencyGroup>): set<(PkgNames.PkgName, PkgVerPeer)> {
    set group, name | group in groups && name in OrEmpty(project.GetMapByGroup(group))
      :: (name, OrEmpty(project.GetMapByGroup(group))[name].version)
  }

  function Projects(snapshot: RootProjectSnapshot): set<ProjectSnapshot> {
    match snapshot
    case Single(project) => {project}
    case Multi(importers) => importers.Values
  }

  function AllRootEntries(snapshot: RootProjectSnapshot, groups: set<DependencyGroup>):
    set<(PkgNames.PkgName, PkgVerPeer)>
  {
    set project, entry | project in Projects(snapshot) && entry in RootEntries(project, groups) :: entry
  }

  predicate RootResolves(index: LockfilePackageIndex, entry: (PkgNames.PkgName, PkgVerPeer)) {
    ResolveRootDependency(index, entry.0, entry.1).Some?
  }

  function RootTargets(index: LockfilePackageIndex, entries: set<(PkgNames.PkgName, PkgVerPeer)>): set<DependencyPath> {
    set entry | entry in entries && RootResolves(index, entry) :: ResolveRootDependency(index, entry.0, entry.1).value
  }

  ghost predicate CanSelect(view: View, snapshot: RootProjectSnapshot, groups: set<DependencyGroup>) {
    var entries := AllRootEntries(snapshot, groups);
    && (forall entry :: entry in entries ==> RootResolves(view.index, entry))
    && (forall k :: Reachable(view.Graph(), RootTargets(view.index, entries), k) ==> view.IsSound(k))
  }

  predicate NoDuplicates<T(==)>(s: seq<T>) {
    forall i, j | 0 <= i < j < |s| :: s[i] != s[j]
  }

  /** The selection holds, once each, the reachable packages that come from a registry or a tarball. */
  ghost predicate IsSelection(view: View, roots: set<DependencyPath>, selected: seq<DependencyPath>) {
    && NoDuplicates(selected)
    && forall k :: k in selected <==> Reachable(view.Graph(), roots, k) && view.IsSelectable(k)
  }

  /** Each error names something that is really wrong with what the walk can reach. */
  ghost predicate IsJustified(view: View, snapshot: RootProjectSnapshot, groups: set<DependencyGroup>,
                              error: FetchError) {
    var entries := AllRootEntries(snapshot, groups);
    var roots := RootTargets(view.index, entries);
    match error
    case MissingPackageSnapshots => false
    case MissingSnapshot(k) => Reachable(view.Graph(), roots, k) && k !in view.packages
    case UnsupportedResolution(k) =>
      Reachable(view.Graph(), roots, k) && k in view.packages && view.packages[k].resolution.GitResolution?
    case ResolvePackage(name) =>
      || (exists entry :: entry in entries && !RootResolves(view.index, entry) && PkgNames.Print(entry.0) == name)
      || (exists k, r :: IsBroken(view, roots, k, r) && ErrorOf(view, k, r) == error)
    case ParseOptional(_) => exists k, r :: IsBroken(view, roots, k, r) && ErrorOf(view, k, r) == error
  }

  /** The error over a reference that leads nowhere: an optional one may be one that cannot be read. */
  function ErrorOf(view: View, k: DependencyPath, r: Reference): FetchError {
    match r
    case Required(name, _) => ResolvePackage(PkgNames.Print(name))
    case Optionally(name, reference) =>
      match ResolveOptionalDependency(view.semver, view.index, k, name, reference)
      case Err(error) => ParseOptional(error)
      case Ok(_) => ResolvePackage(name)
  }

  ghost predicate IsBroken(view: View, roots: set<DependencyPath>, k: DependencyPath, r: Reference) {
    && Reachable(view.Graph(), roots, k) && k in view.packages
    && r in References(view.packages[k]) && view.Target(k, r).None?
  }

  /**
   * Where the walk stands: everything visited is sound and all it refers to is visited or waiting, the package at
   * hand, if any, excepted.
   */
  ghost predicate IsWalking(view: View, roots: set<DependencyPath>, stack: seq<DependencyPath>,
                            visited: set<DependencyPath>, selected: seq<DependencyPath>,
                            current: Option<DependencyPath>)
  {
    && (forall k :: k in roots ==> k in visited || k in stack)
    && (forall k :: k in stack || k in visited ==> Reachable(view.Graph(), roots, k))
    && visited <= view.packages.Keys
    && (forall k :: k in visited && current != Some(k) ==> view.IsSound(k))
    && (forall k, c :: k in visited && current != Some(k) && Edge(view.Graph(), k, c) ==> c in visited || c in stack)
    && NoDuplicates(selected)
    && (forall k :: k in selected <==> k in visited && view.IsSelectable(k))
  }

  lemma WalkDone(view: View, roots: set<DependencyPath>, visited: set<DependencyPath>, selected: seq<DependencyPath>)
    requires IsWalking(view, roots, [], visited, selected, None)
    ensures IsSelection(view, roots, selected)
    ensures forall k :: Reachable(view.Graph(), roots, k) ==> view.IsSound(k)
  {
    hide View.Graph;
    hide View.IsSound;
    hide Reachable;
    ReachStaysInside(view.Graph(), roots, visited);
  }

  lemma PushReachable(view: View, roots: set<DependencyPath>, k: DependencyPath, r: Reference)
    requires Reachable(view.Graph(), roots, k) && k in view.packages
    requires r in References(view.packages[k]) && view.Target(k, r).Some?
    ensures Reachable(view.Graph(), roots, view.Target(k, r).value)
  {
    hide Reachable;
    hide View.Target;
    hide References;
    assert view.Target(k, r).value in view.Targets(k, References(view.packages[k]));
    ReachStep(view.Graph(), roots, k, view.Target(k, r).value);
  }

  /** All these references resolve, and what they resolve to has been pushed on the stack, and nothing else. */
  ghost predicate IsPushed(view: View, k: DependencyPath, references: set<Reference>,
                           stack: seq<DependencyPath>, pushed: seq<DependencyPath>)
  {
    && (forall r :: r in references ==> view.Target(k, r).Some?)
    && (forall c :: c in pushed <==> c in stack || c in view.Targets(k, references))
  }

  lemma PushOne(view: View, k: DependencyPath, references: set<Reference>, r: Reference,
                stack: seq<DependencyPath>, pushed: seq<DependencyPath>)
    requires IsPushed(view, k, references, stack, pushed) && view.Target(k, r).Some?
    ensures IsPushed(view, k, references + {r}, stack, pushed + [view.Target(k, r).value])
  {
    hide View.Target;
    assert view.Targets(k, references + {r}) == view.Targets(k, references) + {view.Target(k, r).value};
  }

  function RequiredReferences(dependencies: map<PkgNames.PkgName, PackageSnapshotDependency>): set<Reference> {
    set n | n in dependencies :: Required(n, dependencies[n])
  }

  function OptionalReferences(dependencies: map<string, string>): set<Reference> {
    set n | n in dependencies :: Optionally(n, dependencies[n])
  }

  /** Pushes what a snapshot's required dependencies resolve to, in any order. */
  method PushRequired(view: View, k: DependencyPath, dependencies: map<PkgNames.PkgName, PackageSnapshotDependency>,
                      stack: seq<DependencyPath>)
    returns (r: Result<seq<DependencyPath>, FetchError>, ghost broken: Option<Reference>)
    ensures r.Ok? ==> IsPushed(view, k, RequiredReferences(dependencies), stack, r.value)
    ensures r.Err? ==> broken.Some? && broken.value in RequiredReferences(dependencies)
    ensures r.Err? ==> view.Target(k, broken.value).None? && r.error == ErrorOf(view, k, broken.value)
  {
    hide ResolveSnapshotDependency;
    hide PkgNames.Print;
    broken := None;
    var pushed := stack;
    var rest := dependencies.Keys;
    ghost var done: set<Reference> := {};
    while rest != {}
      invariant rest <= dependencies.Keys
      invariant done == set n | n in dependencies && n !in rest :: Required(n, dependencies[n])
      invariant IsPushed(view, k, done, stack, pushed)
    {
      var name :| name in rest;
      ghost var reference := Required(name, dependencies[name]);
      var child := ResolveSnapshotDependency(view.index, k, name, dependencies[name]);
      assert view.Target(k, reference) == child;
      if child.None? {
        broken := Some(reference);
        return Err(ResolvePackage(PkgNames.Print(name))), broken;
      }
      PushOne(view, k, done, reference, stack, pushed);
      rest := rest - {name};
      done := done + {reference};
      pushed := pushed + [child.value];
    }
    assert done == RequiredReferences(dependencies);
    return Ok(pushed), None;
  }

  /** Pushes what a snapshot's optional dependencies resolve to, in any order. */
  method PushOptional(view: View, k: DependencyPath, dependencies: map<string, string>, stack: seq<DependencyPath>)
    returns (r: Result<seq<DependencyPath>, FetchError>, ghost broken: Option<Reference>)
    ensures r.Ok? ==> IsPushed(view, k, OptionalReferences(dependencies), stack, r.value)
    ensures r.Err? ==> broken.Some? && broken.value in OptionalReferences(dependencies)
    ensures r.Err? ==> view.Target(k, broken.value).None? && r.error == ErrorOf(view, k, broken.value)
  {
    hide DependencyPaths.Parse;
    hide PkgVerPeers.Parse;
    hide PkgNames.Parse;
    hide ResolveBySpecifier;
    broken := None;
    var pushed := stack;
    var rest := dependencies.Keys;
    ghost var done: set<Reference> := {};
    while rest != {}
      invariant rest <= dependencies.Keys
      invariant done == set n | n in dependencies && n !in rest :: Optionally(n, dependencies[n])
      invariant IsPushed(view, k, done, stack, pushed)
    {
      var name :| name in rest;
      ghost var reference := Optionally(name, dependencies[name]);
      var found := ResolveOptionalDependency(view.semver, view.index, k, name, dependencies[name]);
      if found.Err? {
        broken := Some(reference);
        return Err(ParseOptional(found.error)), broken;
      }
      var child := found.value;
      if child.None? {
        broken := Some(reference);
        return Err(ResolvePackage(name)), broken;
      }
      PushOne(view, k, done, reference, stack, pushed);
      rest := rest - {name};
      done := done + {reference};
      pushed := pushed + [child.value];
    }
    assert done == OptionalReferences(dependencies);
    return Ok(pushed), None;
  }

  /** A package taken from the stack for the first time. */
  lemma VisitKeeps(view: View, roots: set<DependencyPath>, stack: seq<DependencyPath>, visited: set<DependencyPath>,
                   selected: seq<DependencyPath>, more: seq<DependencyPath>)
    requires stack != [] && IsWalking(view, roots, stack, visited, selected, None)
    requires var k := stack[|stack| - 1];
      && k !in visited && k in view.packages
      && more == if view.IsSelectable(k) then selected + [k] else selected
    ensures var k := stack[|stack| - 1];
      && Reachable(view.Graph(), roots, k)
      && IsWalking(view, roots, stack[..|stack| - 1], visited + {k}, more, Some(k))
  {
    hide Reachable;
    hide View.Graph;
    hide View.IsSound;
    hide View.IsSelectable;
    var k := stack[|stack| - 1];
    assert k in stack;
    assert forall c :: c in stack <==> c in stack[..|stack| - 1] || c == k;
  }

  /** A package taken from the stack again. */
  lemma SkipKeeps(view: View, roots: set<DependencyPath>, stack: seq<DependencyPath>, visited: set<DependencyPath>,
                  selected: seq<DependencyPath>)
    requires stack != [] && IsWalking(view, roots, stack, visited, selected, None)
    requires stack[|stack| - 1] in visited
    ensures IsWalking(view, roots, stack[..|stack| - 1], visited, selected, None)
  {
    hide Reachable;
    hide View.Graph;
    hide View.IsSound;
    hide View.IsSelectable;
    var k := stack[|stack| - 1];
    assert forall c :: c in stack <==> c in stack[..|stack| - 1] || c == k;
  }

  lemma PushedReachable(view: View, roots: set<DependencyPath>, k: DependencyPath, references: set<Reference>)
    requires Reachable(view.Graph(), roots, k) && k in view.packages && references == References(view.packages[k])
    ensures forall c :: c in view.Targets(k, references) ==> Reachable(view.Graph(), roots, c)
  {
    hide View.Target;
    forall r | r in references && view.Target(k, r).Some?
      ensures Reachable(view.Graph(), roots, view.Target(k, r).value)
    {
      PushReachable(view, roots, k, r);
    }
  }

  /** Once all its references have been pushed, the package at hand is done. */
  lemma PushKeeps(view: View, roots: set<DependencyPath>, stack: seq<DependencyPath>, required: seq<DependencyPath>,
                  pushed: seq<DependencyPath>, visited: set<DependencyPath>, selected: seq<DependencyPath>,
                  k: DependencyPath)
    requires IsWalking(view, roots, stack, visited, selected, Some(k)) && k in visited && k in view.packages
    requires !view.packages[k].resolution.GitResolution?
    requires IsPushed(view, k, RequiredReferences(OrEmpty(view.packages[k].dependencies)), stack, required)
    requires IsPushed(view, k, OptionalReferences(OrEmpty(view.packages[k].optionalDependencies)), required, pushed)
    ensures IsWalking(view, roots, pushed, visited, selected, None)
  {
    hide View.Target;
    hide View.IsSelectable;
    var snapshot := view.packages[k];
    var references := References(snapshot);
    assert references ==
      RequiredReferences(OrEmpty(snapshot.dependencies)) + OptionalReferences(OrEmpty(snapshot.optionalDependencies));
    assert view.IsSound(k);
    assert view.Graph()[k] == view.Targets(k, references);
    PushedReachable(view, roots, k, references);
    hide Reachable;
    hide View.Graph;
    hide View.IsSound;
    hide References;
    hide RequiredReferences;
    hide OptionalReferences;
    assert forall c :: c in pushed <==> c in stack || c in view.Targets(k, references) by {
      TargetsOfBoth(view, k, RequiredReferences(OrEmpty(snapshot.dependencies)),
                    OptionalReferences(OrEmpty(snapshot.optionalDependencies)));
    }
  }

  lemma TargetsOfBoth(view: View, k: DependencyPath, a: set<Reference>, b: set<Reference>)
    ensures view.Targets(k, a + b) == view.Targets(k, a) + view.Targets(k, b)
  {
    hide View.Target;
  }

  type RootEntry = (PkgNames.PkgName, PkgVerPeer)

  function GroupEntries(dependencies: ResolvedDependencyMap, names: set<PkgNames.PkgName>): set<RootEntry> {
    set name | name in names && name in dependencies :: (name, dependencies[name].version)
  }

  function Groups(groups: seq<DependencyGroup>): set<DependencyGroup> {
    set group | group in groups
  }

  /** These direct dependencies resolve, and the list holds what they resolve to. */
  ghost predicate ListsRoots(index: LockfilePackageIndex, entries: set<RootEntry>, paths: seq<DependencyPath>) {
    && (forall entry :: entry in entries ==> RootResolves(index, entry))
    && (forall k :: k in paths <==> k in RootTargets(index, entries))
  }

  lemma ListRoot(index: LockfilePackageIndex, entries: set<RootEntry>, paths: seq<DependencyPath>, entry: RootEntry)
    requires ListsRoots(index, entries, paths) && RootResolves(index, entry)
    ensures ListsRoots(index, entries + {entry}, paths + [ResolveRootDependency(index, entry.0, entry.1).value])
  {
    hide ResolveRootDependency;
    assert RootTargets(index, entries + {entry})
      == RootTargets(index, entries) + {ResolveRootDependency(index, entry.0, entry.1).value};
  }

  lemma ListBoth(index: LockfilePackageIndex, a: set<RootEntry>, p: seq<DependencyPath>, b: set<RootEntry>,
                 q: seq<DependencyPath>)
    requires ListsRoots(index, a, p) && ListsRoots(index, b, q)
    ensures ListsRoots(index, a + b, p + q)
  {
    hide ResolveRootDependency;
    assert RootTargets(index, a + b) == RootTargets(index, a) + RootTargets(index, b);
  }

  method RootDependencyPaths(project: ProjectSnapshot, index: LockfilePackageIndex, groups: seq<DependencyGroup>)
    returns (r: Result<seq<DependencyPath>, FetchError>, ghost broken: Option<RootEntry>)
    ensures r.Ok? ==> ListsRoots(index, RootEntries(project, Groups(groups)), r.value)
    ensures r.Err? ==> broken.Some? && broken.value in RootEntries(project, Groups(groups))
    ensures r.Err? ==> !RootResolves(index, broken.value) && r.error == ResolvePackage(PkgNames.Print(broken.value.0))
  {
    hide ResolveRootDependency;
    hide PkgNames.Print;
    broken := None;
    var paths: seq<DependencyPath> := [];
    ghost var done: set<RootEntry> := {};
    for i := 0 to |groups|
      invariant done == RootEntries(project, Groups(groups[..i]))
      invariant ListsRoots(index, done, paths)
    {
      var dependencies := OrEmpty(project.GetMapByGroup(groups[i]));
      var rest := dependencies.Keys;
      ghost var start := done;
      assert GroupEntries(dependencies, {}) == {};
      while rest != {}
        invariant rest <= dependencies.Keys
        invariant done == start + GroupEntries(dependencies, dependencies.Keys - rest)
        invariant ListsRoots(index, done, paths)
      {
        var name :| name in rest;
        var version := dependencies[name].version;
        ghost var listed := dependencies.Keys - rest;
        var resolved := ResolveRootDependency(index, name, version);
        if resolved.None? {
          broken := Some((name, version));
          assert groups[i] in Groups(groups);
          return Err(ResolvePackage(PkgNames.Print(name))), broken;
        }
        ListRoot(index, done, paths, (name, version));
        paths := paths + [resolved.value];
        rest := rest - {name};
        assert dependencies.Keys - rest == listed + {name};
        assert GroupEntries(dependencies, listed + {name}) == GroupEntries(dependencies, listed) + {(name, version)};
        done := done + {(name, version)};
      }
      assert dependencies.Keys - rest == dependencies.Keys;
      assert Groups(groups[..i + 1]) == Groups(groups[..i]) + {groups[i]} by {
        assert groups[..i + 1] == groups[..i] + [groups[i]];
      }
      assert RootEntries(project, Groups(groups[..i + 1]))
        == RootEntries(project, Groups(groups[..i])) + GroupEntries(dependencies, dependencies.Keys);
    }
    assert groups[..|groups|] == groups;
    return Ok(paths), None;
  }

  /** The direct dependencies of all projects, in any order of the projects. */
  method AllRootDependencyPaths(snapshot: RootProjectSnapshot, index: LockfilePackageIndex,
                                groups: seq<DependencyGroup>)
    returns (r: Result<seq<DependencyPath>, FetchError>, ghost broken: Option<RootEntry>)
    ensures r.Ok? ==> ListsRoots(index, AllRootEntries(snapshot, Groups(groups)), r.value)
    ensures r.Err? ==> broken.Some? && broken.value in AllRootEntries(snapshot, Groups(groups))
    ensures r.Err? ==> !RootResolves(index, broken.value) && r.error == ResolvePackage(PkgNames.Print(broken.value.0))
  {
    hide ResolveRootDependency;
    hide PkgNames.Print;
    hide RootEntries;
    hide ListsRoots;
    broken := None;
    var paths: seq<DependencyPath> := [];
    match snapshot {
      case Single(project) =>
        r, broken := RootDependencyPaths(project, index, groups);
        assert AllRootEntries(snapshot, Groups(groups)) == RootEntries(project, Groups(groups));
      case Multi(importers) =>
        NothingListed(index);
        var rest := importers.Keys;
        ghost var done: set<RootEntry> := {};
        while rest != {}
          invariant rest <= importers.Keys
          invariant done == set name, entry | name in importers && name !in rest
            && entry in RootEntries(importers[name], Groups(groups)) :: entry
          invariant ListsRoots(index, done, paths)
        {
          var name :| name in rest;
          r, broken := RootDependencyPaths(importers[name], index, groups);
          if r.Err? {
            assert importers[name] in importers.Values;
            return;
          }
          ListBoth(index, done, paths, RootEntries(importers[name], Groups(groups)), r.value);
          paths := paths + r.value;
          rest := rest - {name};
          done := done + RootEntries(importers[name], Groups(groups));
        }
        assert done == AllRootEntries(snapshot, Groups(groups)) by {
          forall project, entry | project in importers.Values && entry in RootEntries(project, Groups(groups))
            ensures entry in done
          {
            var name :| name in importers && importers[name] == project;
          }
        }
        return Ok(paths), None;
    }
  }

  lemma NothingListed(index: LockfilePackageIndex)
    ensures ListsRoots(index, {}, [])
  {
  }

  lemma BrokenReference(view: View, snapshot: RootProjectSnapshot, groups: set<DependencyGroup>,
                        k: DependencyPath, r: Reference, error: FetchError)
    requires IsBroken(view, RootTargets(view.index, AllRootEntries(snapshot, groups)), k, r)
    requires error == ErrorOf(view, k, r)
    ensures IsJustified(view, snapshot, groups, error)
    ensures !CanSelect(view, snapshot, groups)
  {
    hide Reachable;
    hide View.Target;
    hide View.Graph;
    hide References;
    hide AllRootEntries;
    hide RootTargets;
    hide PkgNames.Print;
  }

  lemma BrokenRoot(view: View, snapshot: RootProjectSnapshot, groups: set<DependencyGroup>, entry: RootEntry)
    requires entry in AllRootEntries(snapshot, groups) && !RootResolves(view.index, entry)
    ensures IsJustified(view, snapshot, groups, ResolvePackage(PkgNames.Print(entry.0)))
    ensures !CanSelect(view, snapshot, groups)
  {
    hide Reachable;
    hide View.Graph;
    hide AllRootEntries;
    hide RootResolves;
    hide PkgNames.Print;
  }

  lemma BrokenPackage(view: View, snapshot: RootProjectSnapshot, groups: set<DependencyGroup>, k: DependencyPath)
    requires Reachable(view.Graph(), RootTargets(view.index, AllRootEntries(snapshot, groups)), k)
    ensures k !in view.packages ==> IsJustified(view, snapshot, groups, MissingSnapshot(k))
    ensures k in view.packages && view.packages[k].resolution.GitResolution? ==>
      IsJustified(view, snapshot, groups, UnsupportedResolution(k))
    ensures !view.IsSound(k) ==> !CanSelect(view, snapshot, groups)
  {
    hide Reachable;
    hide View.Graph;
    hide AllRootEntries;
    hide RootTargets;
  }

  /** Walks the snapshots from the direct dependencies, each visited once, in whatever order they are pushed. */
  method CollectSelectedPackages(snapshot: RootProjectSnapshot, view: View, groups: seq<DependencyGroup>)
    returns (r: Result<seq<DependencyPath>, FetchError>)
    ensures r.Ok? <==> CanSelect(view, snapshot, Groups(groups))
    ensures r.Ok? ==> IsSelection(view, RootTargets(view.index, AllRootEntries(snapshot, Groups(groups))), r.value)
    ensures r.Err? ==> IsJustified(view, snapshot, Groups(groups), r.error)
  {
    hide Reachable;
    hide View.Graph;
    hide View.Target;
    hide IsWalking;
    hide IsPushed;
    hide IsJustified;
    hide IsSelection;
    hide AllRootEntries;
    hide RootTargets;
    hide RootResolves;
    hide PkgNames.Print;
    hide CanSelect;
    var start, brokenRoot := AllRootDependencyPaths(snapshot, view.index, groups);
    if start.Err? {
      BrokenRoot(view, snapshot, Groups(groups), brokenRoot.value);
      return Err(start.error);
    }
    ghost var roots := RootTargets(view.index, AllRootEntries(snapshot, Groups(groups)));
    var stack := start.value;
    var visited: set<DependencyPath> := {};
    var selected: seq<DependencyPath> := [];
    StartWalk(view, AllRootEntries(snapshot, Groups(groups)), stack);
    while stack != []
      invariant visited <= view.packages.Keys
      invariant IsWalking(view, roots, stack, visited, selected, None)
      decreases |view.packages.Keys - visited|, |stack|
    {
      var k := stack[|stack| - 1];
      ghost var before, chosen := stack, selected;
      stack := stack[..|stack| - 1];
      if k in visited {
        SkipKeeps(view, roots, before, visited, selected);
        continue;
      }
      WaitingIsReachable(view, roots, before, visited, selected);
      if k !in view.packages {
        BrokenPackage(view, snapshot, Groups(groups), k);
        return Err(MissingSnapshot(k));
      }
      var packageSnapshot := view.packages[k];
      match packageSnapshot.resolution {
        case DirectoryResolution(_) =>
        case GitResolution(_, _) =>
          BrokenPackage(view, snapshot, Groups(groups), k);
          return Err(UnsupportedResolution(k));
        case RegistryResolution(_) => selected := selected + [k];
        case TarballResolution(_, _) => selected := selected + [k];
      }
      VisitKeeps(view, roots, before, visited, chosen, selected);
      Shrinks(view.packages.Keys, visited, k);
      visited := visited + {k};

      var required, broken := PushRequired(view, k, OrEmpty(packageSnapshot.dependencies), stack);
      if required.Err? {
        BrokenReference(view, snapshot, Groups(groups), k, broken.value, required.error);
        return Err(required.error);
      }
      var pushed, brokenOptional := PushOptional(view, k, OrEmpty(packageSnapshot.optionalDependencies),
        required.value);
      if pushed.Err? {
        BrokenReference(view, snapshot, Groups(groups), k, brokenOptional.value, pushed.error);
        return Err(pushed.error);
      }
      PushKeeps(view, roots, stack, required.value, pushed.value, visited, selected, k);
      stack := pushed.value;
    }
    WalkDone(view, roots, visited, selected);
    WalkSucceeds(view, snapshot, Groups(groups));
    return Ok(selected);
  }

  lemma StartWalk(view: View, entries: set<RootEntry>, stack: seq<DependencyPath>)
    requires ListsRoots(view.index, entries, stack)
    ensures IsWalking(view, RootTargets(view.index, entries), stack, {}, [], None)
  {
    hide View.Graph;
    hide RootResolves;
    forall k | k in stack
      ensures Reachable(view.Graph(), RootTargets(view.index, entries), k)
    {
      ReachRoot(view.Graph(), RootTargets(view.index, entries), k);
    }
  }

  lemma WaitingIsReachable(view: View, roots: set<DependencyPath>, stack: seq<DependencyPath>,
                           visited: set<DependencyPath>, selected: seq<DependencyPath>)
    requires stack != [] && IsWalking(view, roots, stack, visited, selected, None)
    ensures Reachable(view.Graph(), roots, stack[|stack| - 1])
  {
    hide Reachable;
    hide View.Graph;
    assert stack[|stack| - 1] in stack;
  }

  lemma Shrinks(keys: set<DependencyPath>, visited: set<DependencyPath>, k: DependencyPath)
    requires k in keys && k !in visited
    ensures |keys - (visited + {k})| < |keys - visited|
  {
    assert keys - visited == (keys - (visited + {k})) + {k};
  }

  lemma WalkSucceeds(view: View, snapshot: RootProjectSnapshot, groups: set<DependencyGroup>)
    requires forall entry :: entry in AllRootEntries(snapshot, groups) ==> RootResolves(view.index, entry)
    requires forall k :: Reachable(view.Graph(), RootTargets(view.index, AllRootEntries(snapshot, groups)), k) ==>
      view.IsSound(k)
    ensures CanSelect(view, snapshot, groups)
  {
  }
}
