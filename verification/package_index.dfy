/** The index over a lockfile's keys, and the three ways the fetch command looks a key up. */
module PackageIndexes {
  import opened Wrappers
  import opened PkgVerPeers
  import opened SnapshotReferences
  import opened DependencyPaths
  import PkgNames
  import PkgNameSuffixes

  type Specifier = PkgNameSuffixes.PkgNameVerPeer

  datatype LockfilePackageIndex = LockfilePackageIndex(
    bySpecifier: map<Specifier, seq<DependencyPath>>,
    byDependencyPath: map<string, DependencyPath>)

  datatype ParseOptionalDependency = ParseOptionalDependency(name: string, reference: string)

  /** The keys are filed under their specifiers, each once, and under their printed form. */
  ghost predicate Indexes(index: LockfilePackageIndex, keys: set<DependencyPath>) {
    && (forall k :: k in keys ==> k.packageSpecifier in index.bySpecifier && k in index.bySpecifier[k.packageSpecifier])
    && (forall s :: s in index.bySpecifier ==> IsCandidateList(index.bySpecifier[s], keys, s))
    && (forall k :: k in keys ==> DependencyPaths.Print(k) in index.byDependencyPath)
    && (forall text :: text in index.byDependencyPath ==>
          index.byDependencyPath[text] in keys && DependencyPaths.Print(index.byDependencyPath[text]) == text)
  }

  predicate IsCandidateList(candidates: seq<DependencyPath>, keys: set<DependencyPath>, s: Specifier) {
    && candidates != []
    && (forall i | 0 <= i < |candidates| :: candidates[i] in keys && candidates[i].packageSpecifier == s)
    && (forall i, j | 0 <= i < j < |candidates| :: candidates[i] != candidates[j])
  }

  function CandidatesOf(index: LockfilePackageIndex, s: Specifier): seq<DependencyPath> {
    if s in index.bySpecifier then index.bySpecifier[s] else []
  }

  /** Fills both maps in one pass over the keys, in whatever order they come. */
  method NewIndex(keys: set<DependencyPath>) returns (index: LockfilePackageIndex)
    ensures Indexes(index, keys)
  {
    hide DependencyPaths.Print;
    index := LockfilePackageIndex(map[], map[]);
    var rest := keys;
    while rest != {}
      invariant rest <= keys
      invariant Indexes(index, keys - rest)
    {
      ghost var filed := keys - rest;
      var k :| k in rest;
      var candidates := CandidatesOf(index, k.packageSpecifier) + [k];
      var next := LockfilePackageIndex(
        index.bySpecifier[k.packageSpecifier := candidates],
        index.byDependencyPath[DependencyPaths.Print(k) := k]);
      FileKey(index, next, filed, k);
      index := next;
      rest := rest - {k};
      assert keys - rest == filed + {k};
    }
    assert keys - rest == keys;
  }

  lemma FileKey(index: LockfilePackageIndex, next: LockfilePackageIndex, keys: set<DependencyPath>, k: DependencyPath)
    requires Indexes(index, keys) && k !in keys
    requires next.bySpecifier == index.bySpecifier[k.packageSpecifier := CandidatesOf(index, k.packageSpecifier) + [k]]
    requires next.byDependencyPath == index.byDependencyPath[DependencyPaths.Print(k) := k]
    ensures Indexes(next, keys + {k})
  {
    hide DependencyPaths.Print;
    var s := k.packageSpecifier;
    forall t | t in next.bySpecifier
      ensures IsCandidateList(next.bySpecifier[t], keys + {k}, t)
    {
      assert t in index.bySpecifier ==> IsCandidateList(index.bySpecifier[t], keys, t);
    }
    forall p | p in keys + {k}
      ensures p.packageSpecifier in next.bySpecifier && p in next.bySpecifier[p.packageSpecifier]
    {
      if p == k {
        assert next.bySpecifier[s][|next.bySpecifier[s]| - 1] == k;
      }
    }
  }

  function FindRegistry(candidates: seq<DependencyPath>, customRegistry: Option<string>): Option<DependencyPath> {
    if candidates == [] then None
    else if candidates[0].customRegistry == customRegistry then Some(candidates[0])
    else FindRegistry(candidates[1..], customRegistry)
  }

  function ResolveBySpecifier(index: LockfilePackageIndex, customRegistry: Option<string>, specifier: Specifier):
    Option<DependencyPath>
  {
    if specifier !in index.bySpecifier then None
    else
      var candidates := index.bySpecifier[specifier];
      match FindRegistry(candidates, customRegistry)
      case Some(found) => Some(found)
      case None => if candidates == [] then None else Some(candidates[0])
  }

  function ResolveRootDependency(index: LockfilePackageIndex, name: PkgNames.PkgName, version: PkgVerPeer):
    Option<DependencyPath>
  {
    ResolveBySpecifier(index, None, PkgNameSuffixes.PkgNameVerPeer(name, version))
  }

  function ResolveSnapshotDependency(index: LockfilePackageIndex, parent: DependencyPath, name: PkgNames.PkgName,
                                     dependency: PackageSnapshotDependency): Option<DependencyPath>
  {
    match dependency
    case PkgVerPeerRef(version) =>
      ResolveBySpecifier(index, parent.customRegistry, PkgNameSuffixes.PkgNameVerPeer(name, version))
    case DependencyPathRef(path) => Some(path)
  }

  function ResolveOptionalDependency(semver: Semver, index: LockfilePackageIndex, parent: DependencyPath,
                                     name: string, reference: string):
    Result<Option<DependencyPath>, ParseOptionalDependency>
  {
    if DependencyPaths.Parse(semver, reference).Ok? then
      Ok(if reference in index.byDependencyPath then Some(index.byDependencyPath[reference]) else None)
    else
      match PkgVerPeers.Parse(semver, reference)
      case Err(_) => Err(ParseOptionalDependency(name, reference))
      case Ok(version) =>
        match PkgNames.Parse(name)
        case Err(_) => Err(ParseOptionalDependency(name, reference))
        case Ok(packageName) =>
          Ok(ResolveBySpecifier(index, parent.customRegistry, PkgNameSuffixes.PkgNameVerPeer(packageName, version)))
  }

  lemma {:induction false} FindRegistryScans(candidates: seq<DependencyPath>, customRegistry: Option<string>)
    ensures var found := FindRegistry(candidates, customRegistry);
      && (found.Some? ==> found.value in candidates && found.value.customRegistry == customRegistry)
      && (found.None? ==> forall k :: k in candidates ==> k.customRegistry != customRegistry)
  {
    if candidates != [] && candidates[0].customRegistry != customRegistry {
      FindRegistryScans(candidates[1..], customRegistry);
    }
  }

  /**
   * A lookup finds a key exactly when a scan of all keys would, always with the specifier asked for: the key in the
   * registry asked for whenever there is one, and otherwise the one that was filed first.
   */
  lemma LookupIsLinearScan(index: LockfilePackageIndex, keys: set<DependencyPath>, customRegistry: Option<string>,
                           specifier: Specifier)
    requires Indexes(index, keys)
    ensures var found := ResolveBySpecifier(index, customRegistry, specifier);
      && (found.Some? <==> specifier in index.bySpecifier && index.bySpecifier[specifier] != [])
      && (found.Some? <==> exists k :: k in keys && k.packageSpecifier == specifier)
      && (found.Some? ==> found.value in keys && found.value.packageSpecifier == specifier)
      && (DependencyPath(customRegistry, specifier) in keys ==>
            found == Some(DependencyPath(customRegistry, specifier)))
      && (DependencyPath(customRegistry, specifier) !in keys && found.Some? ==>
            found.value == index.bySpecifier[specifier][0])
  {
    hide DependencyPaths.Print;
    if specifier in index.bySpecifier {
      var candidates := index.bySpecifier[specifier];
      assert IsCandidateList(candidates, keys, specifier);
      FindRegistryScans(candidates, customRegistry);
      assert candidates[0] in keys;
      var wanted := DependencyPath(customRegistry, specifier);
      assert wanted in keys ==> wanted in candidates;
    }
  }

  /** With keys as they are read from a lockfile, a printed key is looked up as itself. */
  lemma PrintedKeyIsFound(semver: Semver, index: LockfilePackageIndex, keys: set<DependencyPath>, k: DependencyPath)
    requires SemverLibrary(semver) && Indexes(index, keys)
    requires forall p :: p in keys ==> DependencyPaths.IsParsed(semver, p)
    requires k in keys
    ensures index.byDependencyPath[DependencyPaths.Print(k)] == k
    ensures forall parent, name ::
      ResolveOptionalDependency(semver, index, parent, name, DependencyPaths.Print(k)) == Ok(Some(k))
  {
    DependencyPaths.ParsePrint(semver, k);
    PrintInjective(semver, index.byDependencyPath[DependencyPaths.Print(k)], k);
  }
}
