/** What the fetch command selects, said over the keys of a lockfile and the fields of its snapshots alone. */
module FetchByKey {
  import opened Wrappers
  import opened PkgVerPeers
  import opened DependencyPaths
  import opened SnapshotReferences
  import opened Graphs
  import opened Lockfiles
  import opened PackageIndexes
  import opened Fetch
  import PkgNames
  import PkgNameSuffixes

  type Keys = set<DependencyPath>

  predicate HasSpecifier(keys: Keys, name: PkgNames.PkgName, version: PkgVerPeer) {
    exists c | c in keys :: c.packageSpecifier == PkgNameSuffixes.PkgNameVerPeer(name, version)
  }

  /** A key with this name and version: the one of the registry asked for if there is one, otherwise any. */
  predicate Answers(keys: Keys, customRegistry: Option<string>, name: PkgNames.PkgName, version: PkgVerPeer,
                    c: DependencyPath)
  {
    var specifier := PkgNameSuffixes.PkgNameVerPeer(name, version);
    && c in keys && c.packageSpecifier == specifier
    && (DependencyPath(customRegistry, specifier) in keys ==> c == DependencyPath(customRegistry, specifier))
  }

  predicate AnswersRequired(keys: Keys, k: DependencyPath, name: PkgNames.PkgName,
                            dependency: PackageSnapshotDependency, c: DependencyPath)
  {
    match dependency
    case PkgVerPeerRef(version) => Answers(keys, k.customRegistry, name, version, c)
    case DependencyPathRef(path) => c == path
  }

  /** A text that reads as a key stands for the key that prints so, and any other for a version of the name. */
  predicate AnswersOptional(semver: Semver, keys: Keys, k: DependencyPath, name: string, text: string,
                            c: DependencyPath)
  {
    if DependencyPaths.Parse(semver, text).Ok? then c in keys && DependencyPaths.Print(c) == text
    else
      && PkgVerPeers.Parse(semver, text).Ok? && PkgNames.Parse(name).Ok?
      && Answers(keys, k.customRegistry, PkgNames.Parse(name).value, PkgVerPeers.Parse(semver, text).value, c)
  }

  predicate IsRecorded(recorded: Option<ResolvedDependencyMap>, name: PkgNames.PkgName, version: PkgVerPeer) {
    recorded.Some? && name in recorded.value && recorded.value[name].version == version
  }

  /** A direct dependency of the project in one of the groups. */
  predicate IsDirect(project: ProjectSnapshot, groups: set<DependencyGroup>, name: PkgNames.PkgName,
                     version: PkgVerPeer)
  {
    || (Prod in groups && IsRecorded(project.dependencies, name, version))
    || (Optional in groups && IsRecorded(project.optionalDependencies, name, version))
    || (Dev in groups && IsRecorded(project.devDependencies, name, version))
  }

  /** A direct dependency of the project, or of any project of a workspace. */
  predicate IsDirectOfAny(snapshot: RootProjectSnapshot, groups: set<DependencyGroup>, name: PkgNames.PkgName,
                          version: PkgVerPeer)
  {
    match snapshot
    case Single(project) => IsDirect(project, groups, name, version)
    case Multi(importers) => exists path | path in importers :: IsDirect(importers[path], groups, name, version)
  }

  /** `k` lists this dependency as required, or as optional. */
  predicate ListsRequired(packages: Packages, k: DependencyPath, name: PkgNames.PkgName,
                          dependency: PackageSnapshotDependency)
  {
    && k in packages && packages[k].dependencies.Some?
    && name in packages[k].dependencies.value && packages[k].dependencies.value[name] == dependency
  }

  predicate ListsOptional(packages: Packages, k: DependencyPath, name: string, text: string) {
    && k in packages && packages[k].optionalDependencies.Some?
    && name in packages[k].optionalDependencies.value && packages[k].optionalDependencies.value[name] == text
  }

  /** The keys hold an answer to every direct dependency, and to every dependency that one of them lists. */
  ghost predicate HoldsAnswers(semver: Semver, packages: Packages, snapshot: RootProjectSnapshot,
                               groups: set<DependencyGroup>, reached: Keys)
  {
    && (forall name, version :: IsDirectOfAny(snapshot, groups, name, version) ==>
          exists c :: c in reached && Answers(packages.Keys, None, name, version, c))
    && (forall k, name, dependency :: k in reached && ListsRequired(packages, k, name, dependency) ==>
          exists c :: c in reached && AnswersRequired(packages.Keys, k, name, dependency, c))
    && (forall k, name, text :: k in reached && ListsOptional(packages, k, name, text) ==>
          exists c :: c in reached && AnswersOptional(semver, packages.Keys, k, name, text, c))
  }

  /** `c` answers a direct dependency. */
  ghost predicate IsAskedFor(packages: Packages, snapshot: RootProjectSnapshot, groups: set<DependencyGroup>,
                             c: DependencyPath)
  {
    exists name, version ::
      IsDirectOfAny(snapshot, groups, name, version) && Answers(packages.Keys, None, name, version, c)
  }

  /** `c` answers one of the dependencies that `k` lists. */
  ghost predicate Follows(semver: Semver, packages: Packages, k: DependencyPath, c: DependencyPath) {
    || (exists name, dependency ::
          ListsRequired(packages, k, name, dependency) && AnswersRequired(packages.Keys, k, name, dependency, c))
    || (exists name, text ::
          ListsOptional(packages, k, name, text) && AnswersOptional(semver, packages.Keys, k, name, text, c))
  }

  ghost predicate IsClosed(semver: Semver, packages: Packages, snapshot: RootProjectSnapshot,
                           groups: set<DependencyGroup>, inside: Keys)
  {
    && (forall c :: IsAskedFor(packages, snapshot, groups, c) ==> c in inside)
    && (forall k, c :: k in inside && Follows(semver, packages, k, c) ==> c in inside)
  }

  /** No set of keys that is closed in this sense leaves `k` out. */
  ghost predicate CannotBeLeftOut(semver: Semver, packages: Packages, snapshot: RootProjectSnapshot,
                                  groups: set<DependencyGroup>, k: DependencyPath)
  {
    forall inside :: IsClosed(semver, packages, snapshot, groups, inside) ==> k in inside
  }

  /**
   * The keys that a successful walk goes through: they answer all there is to answer, and none is there for nothing.
   */
  ghost predicate IsReached(semver: Semver, packages: Packages, snapshot: RootProjectSnapshot,
                            groups: set<DependencyGroup>, reached: Keys)
  {
    && reached <= packages.Keys
    && (forall k :: k in reached ==> !packages[k].resolution.GitResolution?)
    && HoldsAnswers(semver, packages, snapshot, groups, reached)
    && forall k :: k in reached ==> CannotBeLeftOut(semver, packages, snapshot, groups, k)
  }

  /** Of what is reached, each package of a registry or a tarball once; directories are left alone. */
  ghost predicate IsSelected(semver: Semver, packages: Packages, snapshot: RootProjectSnapshot,
                             groups: set<DependencyGroup>, selected: seq<DependencyPath>)
  {
    && (forall i, j | 0 <= i < j < |selected| :: selected[i] != selected[j])
    && exists reached :: IsReached(semver, packages, snapshot, groups, reached)
         && forall k :: k in selected <==>
              k in reached && (packages[k].resolution.RegistryResolution? || packages[k].resolution.TarballResolution?)
  }

  /** `k` lists a required or an optional dependency, under this name, that no key answers. */
  ghost predicate LacksAnswer(semver: Semver, packages: Packages, k: DependencyPath, text: string) {
    || (exists name, version :: ListsRequired(packages, k, name, PkgVerPeerRef(version))
          && PkgNames.Print(name) == text && !HasSpecifier(packages.Keys, name, version))
    || (exists reference :: ListsOptional(packages, k, text, reference)
          && IsReadable(semver, text, reference) && forall c ::
            !AnswersOptional(semver, packages.Keys, k, text, reference, c))
  }

  predicate IsReadable(semver: Semver, name: string, text: string) {
    DependencyPaths.Parse(semver, text).Ok? || (PkgVerPeers.Parse(semver, text).Ok? && PkgNames.Parse(name).Ok?)
  }

  /** What each error says is so of something that cannot be left out. */
  ghost predicate IsFault(semver: Semver, packages: Packages, snapshot: RootProjectSnapshot,
                          groups: set<DependencyGroup>, error: FetchError)
  {
    match error
    case MissingPackageSnapshots => false
    case MissingSnapshot(k) => k !in packages && CannotBeLeftOut(semver, packages, snapshot, groups, k)
    case UnsupportedResolution(k) =>
      && k in packages && packages[k].resolution.GitResolution?
      && CannotBeLeftOut(semver, packages, snapshot, groups, k)
    case ResolvePackage(text) =>
      || (exists name, version :: IsDirectOfAny(snapshot, groups, name, version)
            && PkgNames.Print(name) == text && !HasSpecifier(packages.Keys, name, version))
      || (exists k :: CannotBeLeftOut(semver, packages, snapshot, groups, k) && LacksAnswer(semver, packages, k, text))
    case ParseOptional(e) => !IsReadable(semver, e.name, e.reference) && exists k ::
      CannotBeLeftOut(semver, packages, snapshot, groups, k) && ListsOptional(packages, k, e.name, e.reference)
  }

  lemma SpecifierIsAnswered(index: LockfilePackageIndex, keys: Keys, customRegistry: Option<string>,
                            name: PkgNames.PkgName, version: PkgVerPeer)
    requires Indexes(index, keys)
    ensures var found := ResolveBySpecifier(index, customRegistry, PkgNameSuffixes.PkgNameVerPeer(name, version));
      && (found.Some? ==> Answers(keys, customRegistry, name, version, found.value))
      && (found.None? ==> !HasSpecifier(keys, name, version))
  {
    LookupIsLinearScan(index, keys, customRegistry, PkgNameSuffixes.PkgNameVerPeer(name, version));
    hide ResolveBySpecifier;
    hide Indexes;
  }

  lemma RequiredIsAnswered(view: View, k: DependencyPath, name: PkgNames.PkgName, dependency: PackageSnapshotDependency)
    requires Indexes(view.index, view.packages.Keys)
    ensures var found := view.Target(k, Required(name, dependency));
      && (found.Some? ==> AnswersRequired(view.packages.Keys, k, name, dependency, found.value))
      && (found.None? ==> dependency.PkgVerPeerRef? && !HasSpecifier(view.packages.Keys, name, dependency.verPeer))
      && ErrorOf(view, k, Required(name, dependency)) == ResolvePackage(PkgNames.Print(name))
  {
    if dependency.PkgVerPeerRef? {
      SpecifierIsAnswered(view.index, view.packages.Keys, k.customRegistry, name, dependency.verPeer);
    }
    hide ResolveBySpecifier;
    hide Indexes;
    hide Answers;
    hide HasSpecifier;
  }

  lemma OptionalIsAnswered(view: View, k: DependencyPath, name: string, text: string)
    requires Indexes(view.index, view.packages.Keys)
    ensures var found := view.Target(k, Optionally(name, text));
      && (found.Some? ==> AnswersOptional(view.semver, view.packages.Keys, k, name, text, found.value))
      && (found.None? && IsReadable(view.semver, name, text) ==>
            ErrorOf(view, k, Optionally(name, text)) == ResolvePackage(name)
            && forall c :: !AnswersOptional(view.semver, view.packages.Keys, k, name, text, c))
      && (found.None? && !IsReadable(view.semver, name, text) ==>
            ErrorOf(view, k, Optionally(name, text)) == ParseOptional(ParseOptionalDependency(name, text)))
  {
    if DependencyPaths.Parse(view.semver, text).Ok? {
      hide ResolveBySpecifier;
      hide DependencyPaths.Print;
      hide DependencyPaths.Parse;
    } else if PkgVerPeers.Parse(view.semver, text).Ok? && PkgNames.Parse(name).Ok? {
      SpecifierIsAnswered(view.index, view.packages.Keys, k.customRegistry, PkgNames.Parse(name).value,
                          PkgVerPeers.Parse(view.semver, text).value);
      hide ResolveBySpecifier;
      hide Indexes;
      hide PkgVerPeers.Parse;
      hide PkgNames.Parse;
      hide DependencyPaths.Parse;
    }
  }

  lemma RootIsAnswered(view: View, entry: RootEntry)
    requires Indexes(view.index, view.packages.Keys)
    ensures RootResolves(view.index, entry) ==> Answers(view.packages.Keys, None, entry.0, entry.1,
      ResolveRootDependency(view.index, entry.0, entry.1).value)
    ensures !RootResolves(view.index, entry) ==> !HasSpecifier(view.packages.Keys, entry.0, entry.1)
  {
    SpecifierIsAnswered(view.index, view.packages.Keys, None, entry.0, entry.1);
  }

  lemma EntriesAreDirect(snapshot: RootProjectSnapshot, groups: set<DependencyGroup>)
    ensures forall name, version ::
      IsDirectOfAny(snapshot, groups, name, version) <==> (name, version) in AllRootEntries(snapshot, groups)
  {
    forall project: ProjectSnapshot, name, version
      ensures IsDirect(project, groups, name, version) <==> (name, version) in RootEntries(project, groups)
    {
      EntryIsDirect(project, groups, name, version);
    }
    hide IsDirect;
    hide RootEntries;
  }

  lemma EntryIsDirect(project: ProjectSnapshot, groups: set<DependencyGroup>, name: PkgNames.PkgName,
                      version: PkgVerPeer)
    ensures IsDirect(project, groups, name, version) <==> (name, version) in RootEntries(project, groups)
  {
    forall group
      ensures IsRecorded(project.GetMapByGroup(group), name, version) <==>
        name in OrEmpty(project.GetMapByGroup(group)) && OrEmpty(project.GetMapByGroup(group))[name].version == version
    {
    }
    assert IsDirect(project, groups, name, version) <==>
      exists group :: group in groups && IsRecorded(project.GetMapByGroup(group), name, version) by {
      assert IsRecorded(project.GetMapByGroup(Prod), name, version) <==>
        IsRecorded(project.dependencies, name, version);
      assert IsRecorded(project.GetMapByGroup(Optional), name, version)
        <==> IsRecorded(project.optionalDependencies, name, version);
      assert IsRecorded(project.GetMapByGroup(Dev), name, version)
        <==> IsRecorded(project.devDependencies, name, version);
    }
  }

  lemma ReferencesAreListed(packages: Packages, k: DependencyPath)
    requires k in packages
    ensures forall name, dependency ::
      ListsRequired(packages, k, name, dependency) <==> Required(name, dependency) in References(packages[k])
    ensures forall name, text ::
      ListsOptional(packages, k, name, text) <==> Optionally(name, text) in References(packages[k])
  {
  }

  ghost function RootsOf(view: View, snapshot: RootProjectSnapshot, groups: set<DependencyGroup>): Keys {
    RootTargets(view.index, AllRootEntries(snapshot, groups))
  }

  lemma RootIsAskedFor(view: View, snapshot: RootProjectSnapshot, groups: set<DependencyGroup>, c: DependencyPath)
    requires Indexes(view.index, view.packages.Keys) && c in RootsOf(view, snapshot, groups)
    ensures IsAskedFor(view.packages, snapshot, groups, c)
  {
    hide *;
    EntriesAreDirect(snapshot, groups);
    UnfoldRoots(view, snapshot, groups);
    var entry := EntryOfRoot(view, AllRootEntries(snapshot, groups), c);
    RootIsAnswered(view, entry);
    AskFor(view.packages, snapshot, groups, entry.0, entry.1, c);
  }

  lemma UnfoldRoots(view: View, snapshot: RootProjectSnapshot, groups: set<DependencyGroup>)
    ensures RootsOf(view, snapshot, groups) == RootTargets(view.index, AllRootEntries(snapshot, groups))
  {
  }

  lemma EntryOfRoot(view: View, entries: set<RootEntry>, c: DependencyPath) returns (entry: RootEntry)
    requires c in RootTargets(view.index, entries)
    ensures entry in entries && RootResolves(view.index, entry)
    ensures ResolveRootDependency(view.index, entry.0, entry.1).Some?
    ensures ResolveRootDependency(view.index, entry.0, entry.1).value == c
  {
    hide ResolveRootDependency;
    entry :| entry in entries && RootResolves(view.index, entry)
      && ResolveRootDependency(view.index, entry.0, entry.1).value == c;
  }

  lemma AskFor(packages: Packages, snapshot: RootProjectSnapshot, groups: set<DependencyGroup>,
               name: PkgNames.PkgName, version: PkgVerPeer, c: DependencyPath)
    requires IsDirectOfAny(snapshot, groups, name, version) && Answers(packages.Keys, None, name, version, c)
    ensures IsAskedFor(packages, snapshot, groups, c)
  {
  }

  /** A reference that leads somewhere leads to something that answers it. */
  lemma TargetFollows(view: View, k: DependencyPath, r: Reference)
    requires Indexes(view.index, view.packages.Keys) && k in view.packages && r in References(view.packages[k])
    requires view.Target(k, r).Some?
    ensures Follows(view.semver, view.packages, k, view.Target(k, r).value)
  {
    hide View.Target;
    hide References;
    hide Indexes;
    hide AnswersRequired;
    hide AnswersOptional;
    hide ListsRequired;
    hide ListsOptional;
    ReferencesAreListed(view.packages, k);
    match r
    case Required(name, dependency) => RequiredIsAnswered(view, k, name, dependency);
    case Optionally(name, text) => OptionalIsAnswered(view, k, name, text);
  }

  lemma EdgeFollows(view: View, k: DependencyPath, c: DependencyPath)
    requires Indexes(view.index, view.packages.Keys) && Edge(view.Graph(), k, c)
    ensures Follows(view.semver, view.packages, k, c)
  {
    hide View.Target;
    hide References;
    hide Indexes;
    hide Follows;
    var r :| r in References(view.packages[k]) && view.Target(k, r) == Some(c);
    TargetFollows(view, k, r);
  }

  lemma ReachableCannotBeLeftOut(view: View, snapshot: RootProjectSnapshot, groups: set<DependencyGroup>,
                                 k: DependencyPath)
    requires Indexes(view.index, view.packages.Keys) && Reachable(view.Graph(), RootsOf(view, snapshot, groups), k)
    ensures CannotBeLeftOut(view.semver, view.packages, snapshot, groups, k)
  {
    hide View.Graph;
    hide Indexes;
    hide Follows;
    hide IsAskedFor;
    hide RootsOf;
    hide Reachable;
    hide Edge;
    forall inside | IsClosed(view.semver, view.packages, snapshot, groups, inside)
      ensures k in inside
    {
      forall c | c in RootsOf(view, snapshot, groups)
        ensures c in inside
      {
        RootIsAskedFor(view, snapshot, groups, c);
      }
      forall a, c | a in inside && Edge(view.Graph(), a, c)
        ensures c in inside
      {
        EdgeFollows(view, a, c);
      }
      ReachStaysInside(view.Graph(), RootsOf(view, snapshot, groups), inside);
    }
  }

  lemma ListedAreAnswered(view: View, k: DependencyPath, reached: Keys)
    requires Indexes(view.index, view.packages.Keys) && view.IsSound(k)
    requires forall c :: Edge(view.Graph(), k, c) ==> c in reached
    ensures forall name, dependency :: ListsRequired(view.packages, k, name, dependency) ==>
      exists c :: c in reached && AnswersRequired(view.packages.Keys, k, name, dependency, c)
    ensures forall name, text :: ListsOptional(view.packages, k, name, text) ==>
      exists c :: c in reached && AnswersOptional(view.semver, view.packages.Keys, k, name, text, c)
  {
    hide View.Target;
    hide References;
    hide Indexes;
    hide AnswersRequired;
    hide AnswersOptional;
    hide ListsRequired;
    hide ListsOptional;
    ReferencesAreListed(view.packages, k);
    forall r | r in References(view.packages[k])
      ensures view.Target(k, r).Some? && view.Target(k, r).value in reached
    {
      assert view.Target(k, r).value in view.Targets(k, References(view.packages[k]));
    }
    forall name, dependency | ListsRequired(view.packages, k, name, dependency)
      ensures exists c :: c in reached && AnswersRequired(view.packages.Keys, k, name, dependency, c)
    {
      RequiredIsAnswered(view, k, name, dependency);
    }
    forall name, text | ListsOptional(view.packages, k, name, text)
      ensures exists c :: c in reached && AnswersOptional(view.semver, view.packages.Keys, k, name, text, c)
    {
      OptionalIsAnswered(view, k, name, text);
    }
  }

  lemma DirectAreAnswered(view: View, snapshot: RootProjectSnapshot, groups: set<DependencyGroup>, reached: Keys)
    requires Indexes(view.index, view.packages.Keys) && RootsOf(view, snapshot, groups) <= reached
    requires forall entry :: entry in AllRootEntries(snapshot, groups) ==> RootResolves(view.index, entry)
    ensures forall name, version :: IsDirectOfAny(snapshot, groups, name, version) ==>
      exists c :: c in reached && Answers(view.packages.Keys, None, name, version, c)
  {
    hide Indexes;
    hide Answers;
    hide IsDirectOfAny;
    hide AllRootEntries;
    hide ResolveRootDependency;
    EntriesAreDirect(snapshot, groups);
    forall name, version | IsDirectOfAny(snapshot, groups, name, version)
      ensures exists c :: c in reached && Answers(view.packages.Keys, None, name, version, c)
    {
      RootIsAnswered(view, (name, version));
      assert ResolveRootDependency(view.index, name, version).value in RootsOf(view, snapshot, groups);
    }
  }

  /** A successful walk reaches exactly what the keys call for. */
  lemma WalkIsByKey(view: View, snapshot: RootProjectSnapshot, groups: set<DependencyGroup>) returns (reached: Keys)
    requires Indexes(view.index, view.packages.Keys) && CanSelect(view, snapshot, groups)
    ensures IsReached(view.semver, view.packages, snapshot, groups, reached)
    ensures forall k :: k in reached <==> Reachable(view.Graph(), RootsOf(view, snapshot, groups), k)
  {
    hide View.Graph;
    hide Indexes;
    hide Reachable;
    hide Edge;
    hide RootResolves;
    hide RootTargets;
    hide AllRootEntries;
    hide CannotBeLeftOut;
    hide ListsRequired;
    hide ListsOptional;
    hide AnswersRequired;
    hide AnswersOptional;
    hide Answers;
    hide IsDirectOfAny;
    var roots := RootsOf(view, snapshot, groups);
    reached := set k | k in view.packages && Reachable(view.Graph(), roots, k);
    forall c | c in roots
      ensures c in reached
    {
      ReachRoot(view.Graph(), roots, c);
    }
    DirectAreAnswered(view, snapshot, groups, reached);
    forall k | k in reached
      ensures CannotBeLeftOut(view.semver, view.packages, snapshot, groups, k)
      ensures forall name, dependency :: ListsRequired(view.packages, k, name, dependency) ==>
        exists c :: c in reached && AnswersRequired(view.packages.Keys, k, name, dependency, c)
      ensures forall name, text :: ListsOptional(view.packages, k, name, text) ==>
        exists c :: c in reached && AnswersOptional(view.semver, view.packages.Keys, k, name, text, c)
    {
      ReachableCannotBeLeftOut(view, snapshot, groups, k);
      forall c | Edge(view.Graph(), k, c)
        ensures c in reached
      {
        ReachStep(view.Graph(), roots, k, c);
      }
      ListedAreAnswered(view, k, reached);
    }
  }

  lemma SelectionIsByKey(view: View, snapshot: RootProjectSnapshot, groups: set<DependencyGroup>,
                         selected: seq<DependencyPath>)
    requires Indexes(view.index, view.packages.Keys) && CanSelect(view, snapshot, groups)
    requires IsSelection(view, RootsOf(view, snapshot, groups), selected)
    ensures IsSelected(view.semver, view.packages, snapshot, groups, selected)
  {
    var reached := WalkIsByKey(view, snapshot, groups);
    hide Indexes;
    hide Reachable;
    hide RootsOf;
    hide View.Graph;
    hide IsReached;
    ReachedHaveSnapshots(view.semver, view.packages, snapshot, groups, reached);
  }

  lemma ReachedHaveSnapshots(semver: Semver, packages: Packages, snapshot: RootProjectSnapshot,
                             groups: set<DependencyGroup>, reached: Keys)
    requires IsReached(semver, packages, snapshot, groups, reached)
    ensures reached <= packages.Keys
  {
  }

  lemma BrokenFacts(view: View, roots: Keys, k: DependencyPath, r: Reference)
    requires IsBroken(view, roots, k, r)
    ensures Reachable(view.Graph(), roots, k) && k in view.packages
    ensures r in References(view.packages[k]) && view.Target(k, r).None?
  {
    hide Reachable;
  }

  lemma LackIsFault(semver: Semver, packages: Packages, snapshot: RootProjectSnapshot, groups: set<DependencyGroup>,
                    k: DependencyPath, text: string)
    requires CannotBeLeftOut(semver, packages, snapshot, groups, k) && LacksAnswer(semver, packages, k, text)
    ensures IsFault(semver, packages, snapshot, groups, ResolvePackage(text))
  {
    hide CannotBeLeftOut;
    hide LacksAnswer;
    hide IsDirectOfAny;
    hide PkgNames.Print;
  }

  lemma RequiredIsLacking(semver: Semver, packages: Packages, k: DependencyPath, name: PkgNames.PkgName,
                          version: PkgVerPeer)
    requires ListsRequired(packages, k, name, PkgVerPeerRef(version)) && !HasSpecifier(packages.Keys, name, version)
    ensures LacksAnswer(semver, packages, k, PkgNames.Print(name))
  {
    hide ListsRequired;
    hide ListsOptional;
    hide HasSpecifier;
    hide PkgNames.Print;
  }

  lemma OptionalIsLacking(semver: Semver, packages: Packages, k: DependencyPath, name: string, text: string)
    requires ListsOptional(packages, k, name, text) && IsReadable(semver, name, text)
    requires forall c :: !AnswersOptional(semver, packages.Keys, k, name, text, c)
    ensures LacksAnswer(semver, packages, k, name)
  {
    hide ListsRequired;
    hide ListsOptional;
    hide IsReadable;
    hide AnswersOptional;
    hide HasSpecifier;
    hide PkgNames.Print;
  }

  lemma UnreadableIsFault(semver: Semver, packages: Packages, snapshot: RootProjectSnapshot,
                          groups: set<DependencyGroup>, k: DependencyPath, e: ParseOptionalDependency)
    requires CannotBeLeftOut(semver, packages, snapshot, groups, k) && ListsOptional(packages, k, e.name, e.reference)
    requires !IsReadable(semver, e.name, e.reference)
    ensures IsFault(semver, packages, snapshot, groups, ParseOptional(e))
  {
    hide CannotBeLeftOut;
    hide ListsOptional;
    hide IsReadable;
  }

  lemma BrokenIsFault(view: View, snapshot: RootProjectSnapshot, groups: set<DependencyGroup>, k: DependencyPath,
                      r: Reference)
    requires Indexes(view.index, view.packages.Keys) && IsBroken(view, RootsOf(view, snapshot, groups), k, r)
    ensures IsFault(view.semver, view.packages, snapshot, groups, ErrorOf(view, k, r))
  {
    hide *;
    BrokenFacts(view, RootsOf(view, snapshot, groups), k, r);
    ReachableCannotBeLeftOut(view, snapshot, groups, k);
    ReferencesAreListed(view.packages, k);
    match r
    case Required(name, dependency) =>
      RequiredIsAnswered(view, k, name, dependency);
      assert ListsRequired(view.packages, k, name, PkgVerPeerRef(dependency.verPeer));
      RequiredIsLacking(view.semver, view.packages, k, name, dependency.verPeer);
      LackIsFault(view.semver, view.packages, snapshot, groups, k, PkgNames.Print(name));
    case Optionally(name, text) =>
      OptionalIsAnswered(view, k, name, text);
      if IsReadable(view.semver, name, text) {
        OptionalIsLacking(view.semver, view.packages, k, name, text);
        LackIsFault(view.semver, view.packages, snapshot, groups, k, name);
      } else {
        UnreadableIsFault(view.semver, view.packages, snapshot, groups, k, ParseOptionalDependency(name, text));
      }
  }

  lemma DirectIsFault(view: View, snapshot: RootProjectSnapshot, groups: set<DependencyGroup>, entry: RootEntry)
    requires Indexes(view.index, view.packages.Keys)
    requires entry in AllRootEntries(snapshot, groups) && !RootResolves(view.index, entry)
    ensures IsFault(view.semver, view.packages, snapshot, groups, ResolvePackage(PkgNames.Print(entry.0)))
  {
    EntriesAreDirect(snapshot, groups);
    RootIsAnswered(view, entry);
    hide Indexes;
    hide IsDirectOfAny;
    hide AllRootEntries;
    hide HasSpecifier;
    hide CannotBeLeftOut;
    hide LacksAnswer;
    hide PkgNames.Print;
    hide RootResolves;
  }

  /** What the walk reports is a fault of the lockfile. */
  lemma JustifiedIsFault(view: View, snapshot: RootProjectSnapshot, groups: set<DependencyGroup>, error: FetchError)
    requires Indexes(view.index, view.packages.Keys) && IsJustified(view, snapshot, groups, error)
    ensures IsFault(view.semver, view.packages, snapshot, groups, error)
  {
    hide Indexes;
    hide Reachable;
    hide View.Graph;
    hide IsBroken;
    hide ErrorOf;
    hide AllRootEntries;
    hide RootTargets;
    hide RootResolves;
    hide PkgNames.Print;
    hide CannotBeLeftOut;
    hide LacksAnswer;
    hide IsDirectOfAny;
    hide HasSpecifier;
    hide IsReadable;
    hide ListsOptional;
    var roots := RootsOf(view, snapshot, groups);
    if k, r :| IsBroken(view, roots, k, r) && ErrorOf(view, k, r) == error {
      BrokenIsFault(view, snapshot, groups, k, r);
    } else {
      match error
      case MissingSnapshot(k) => ReachableCannotBeLeftOut(view, snapshot, groups, k);
      case UnsupportedResolution(k) => ReachableCannotBeLeftOut(view, snapshot, groups, k);
      case ResolvePackage(name) =>
        var entry :| entry in AllRootEntries(snapshot, groups) && !RootResolves(view.index, entry)
          && PkgNames.Print(entry.0) == name;
        DirectIsFault(view, snapshot, groups, entry);
      case _ =>
    }
  }

  /** The selection of the fetch command: it needs package snapshots, and indexes them first. */
  method Select(semver: Semver, lockfile: Lockfile, groups: seq<DependencyGroup>)
    returns (r: Result<seq<DependencyPath>, FetchError>, index: LockfilePackageIndex)
    ensures lockfile.packages.None? ==> r == Err(MissingPackageSnapshots)
    ensures lockfile.packages.Some? ==>
      var view := View(semver, lockfile.packages.value, index);
      Indexes(index, lockfile.packages.value.Keys) && (r.Ok? <==>
        CanSelect(view, lockfile.projectSnapshot, Groups(groups)))
    ensures lockfile.packages.Some? && r.Ok? ==>
      var view := View(semver, lockfile.packages.value, index);
      IsSelection(view, RootTargets(index, AllRootEntries(lockfile.projectSnapshot, Groups(groups))), r.value)
    ensures lockfile.packages.Some? && r.Ok? ==>
      IsSelected(semver, lockfile.packages.value, lockfile.projectSnapshot, Groups(groups), r.value)
    ensures lockfile.packages.Some? && r.Err? ==>
      IsFault(semver, lockfile.packages.value, lockfile.projectSnapshot, Groups(groups), r.error)
  {
    if lockfile.packages.None? {
      return Err(MissingPackageSnapshots), LockfilePackageIndex(map[], map[]);
    }
    hide *;
    index := NewIndex(lockfile.packages.value.Keys);
    var view := View(semver, lockfile.packages.value, index);
    r := CollectSelectedPackages(lockfile.projectSnapshot, view, groups);
    if r.Ok? {
      UnfoldRoots(view, lockfile.projectSnapshot, Groups(groups));
      SelectionIsByKey(view, lockfile.projectSnapshot, Groups(groups), r.value);
    } else {
      JustifiedIsFault(view, lockfile.projectSnapshot, Groups(groups), r.error);
    }
  }
}
