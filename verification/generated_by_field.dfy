/** What a generated lockfile says, over the fields of the manifest, of published versions and of the lockfile alone. */
module GeneratedByField {
  import opened Wrappers
  import opened PkgVerPeers
  import opened DependencyPaths
  import opened SnapshotReferences
  import opened Graphs
  import opened Registries
  import opened Lockfiles
  import opened DependencyContexts
  import opened LockfileWalk
  import opened BehindOptional
  import opened GeneratedLockfiles
  import opened OptionalFlags
  import PkgNames

  predicate HasRange(m: map<string, string>, name: string, range: string) {
    name in m && m[name] == range
  }

  /** The published version that the registry picks for a name and a range. */
  predicate IsPicked(registry: Registry, name: string, range: string, c: PackageVersion) {
    && name in registry.metadata
    && registry.pick(name, range).Some?
    && registry.pick(name, range).value in registry.metadata[name]
    && registry.metadata[name][registry.pick(name, range).value] == c
  }

  predicate AsksFor(p: PackageVersion, withPeers: bool, name: string, range: string) {
    || HasRange(p.dependencies, name, range)
    || HasRange(p.optionalDependencies, name, range)
    || (withPeers && HasRange(p.peerDependencies, name, range))
  }

  predicate ManifestAsksFor(manifest: Manifest, groups: set<DependencyGroup>, name: string, range: string) {
    || (Prod in groups && HasRange(manifest.dependencies, name, range))
    || (Optional in groups && HasRange(manifest.optionalDependencies, name, range))
    || (Dev in groups && HasRange(manifest.devDependencies, name, range))
  }

  /**
   * The set holds whatever is picked for the manifest, and whatever is picked for a version in it; if only firm
   * dependencies count, for the names that the version does not list as optional.
   */
  ghost predicate IsClosed(ctx: Context, manifest: Manifest, groups: set<DependencyGroup>, onlyFirm: bool,
                           inside: set<PackageVersion>)
  {
    && (forall c :: IsAsked(ctx, manifest, groups, c) ==> c in inside)
    && (forall p, c :: p in inside && Leads(ctx, onlyFirm, p, c) ==> c in inside)
  }

  /** Picked for the manifest. */
  ghost predicate IsAsked(ctx: Context, manifest: Manifest, groups: set<DependencyGroup>, c: PackageVersion) {
    exists name, range ::
      ManifestAsksFor(manifest, groups, name, range) && IsPicked(ctx.registry, name, range, c)
  }

  ghost predicate Leads(ctx: Context, onlyFirm: bool, p: PackageVersion, c: PackageVersion) {
    exists name, range ::
      && AsksFor(p, ctx.config.autoInstallPeers, name, range) && IsPicked(ctx.registry, name, range, c)
      && (onlyFirm ==> name !in p.optionalDependencies)
  }

  /** No set of versions that is closed in this sense leaves `p` out. */
  ghost predicate CannotBeLeftOut(ctx: Context, manifest: Manifest, groups: set<DependencyGroup>, onlyFirm: bool,
                                  p: PackageVersion)
  {
    forall inside :: IsClosed(ctx, manifest, groups, onlyFirm, inside) ==> p in inside
  }

  predicate IsKeyFor(k: DependencyPath, p: PackageVersion) {
    && k.customRegistry == None
    && PkgNames.IsParsed(k.packageSpecifier.name) && PkgNames.Print(k.packageSpecifier.name) == p.name
    && k.packageSpecifier.suffix == PkgVerPeer(p.version, "")
  }

  lemma ResolveIsPick(registry: Registry, name: string, range: string)
    ensures forall c :: Resolve(registry, (name, range)) == Some(c) <==> IsPicked(registry, name, range, c)
  {
  }

  lemma NeedIsAsk(ctx: Context, p: PackageVersion, name: string, range: string)
    ensures (name, range) in ctx.Needs(p) <==> AsksFor(p, ctx.config.autoInstallPeers, name, range)
    ensures (name, range) in FirmRequests(p, ctx.config.autoInstallPeers)
      <==> AsksFor(p, ctx.config.autoInstallPeers, name, range) && name !in p.optionalDependencies
  {
  }

  lemma EdgeIsLead(ctx: Context, p: PackageVersion, c: PackageVersion)
    requires ctx.Valid() && p in Versions(ctx.registry)
    ensures Edge(ctx.Graph(), p, c) <==> Leads(ctx, false, p, c)
    ensures Edge(ctx.Firm(), p, c) <==> Leads(ctx, true, p, c)
  {
    forall name, range
      ensures (name, range) in ctx.Needs(p) <==> AsksFor(p, ctx.config.autoInstallPeers, name, range)
      ensures (name, range) in FirmRequests(p, ctx.config.autoInstallPeers)
        <==> AsksFor(p, ctx.config.autoInstallPeers, name, range) && name !in p.optionalDependencies
      ensures Resolve(ctx.registry, (name, range)) == Some(c) <==> IsPicked(ctx.registry, name, range, c)
    {
      NeedIsAsk(ctx, p, name, range);
      ResolveIsPick(ctx.registry, name, range);
    }
    hide Context.Needs;
    hide FirmRequests;
    hide Requests;
    hide AsksFor;
    hide Resolve;
    hide IsPicked;
    hide Versions;
    hide Context.Valid;
  }

  lemma LeadIsPublished(ctx: Context, p: PackageVersion, onlyFirm: bool, c: PackageVersion)
    requires Leads(ctx, onlyFirm, p, c)
    ensures c in Versions(ctx.registry)
  {
  }

  function Enabled(inputs: Inputs): set<DependencyGroup> {
    set group | group in inputs.groups
  }

  lemma RootOfGroup(inputs: Inputs, group: DependencyGroup, c: PackageVersion)
    ensures c in inputs.Roots(group) <==> group in inputs.groups && exists name, range ::
      HasRange(inputs.manifest.Group(group), name, range) && IsPicked(inputs.ctx.registry, name, range, c)
  {
    forall name, range
      ensures Resolve(inputs.ctx.registry, (name, range)) == Some(c) <==>
        IsPicked(inputs.ctx.registry, name, range, c)
      ensures (name, range) in inputs.manifest.Group(group).Items <==>
        HasRange(inputs.manifest.Group(group), name, range)
    {
      ResolveIsPick(inputs.ctx.registry, name, range);
    }
    hide Resolve;
    hide IsPicked;
    hide HasRange;
    hide Manifest.Group;
    if c in inputs.Roots(group) {
      var e :| e in inputs.Requested(group) && Resolve(inputs.ctx.registry, e) == Some(c);
      assert HasRange(inputs.manifest.Group(group), e.0, e.1);
    }
  }

  lemma RootsAreAsked(inputs: Inputs, c: PackageVersion)
    ensures c in inputs.AllRoots() <==> IsAsked(inputs.ctx, inputs.manifest, Enabled(inputs), c)
    ensures c in inputs.NonDevRoots() <==> IsAsked(inputs.ctx, inputs.manifest, Enabled(inputs) - {Dev}, c)
    ensures c in inputs.FirmRoots() <==> IsAsked(inputs.ctx, inputs.manifest, Enabled(inputs) - {Optional}, c)
  {
    RootOfGroup(inputs, Prod, c);
    RootOfGroup(inputs, Optional, c);
    RootOfGroup(inputs, Dev, c);
    hide Inputs.Roots;
    hide IsPicked;
    hide HasRange;
  }

  /** Reaching a version from the roots is being in every closed set. */
  lemma ReachIsLeast(ctx: Context, manifest: Manifest, groups: set<DependencyGroup>, onlyFirm: bool,
                     graph: map<PackageVersion, set<PackageVersion>>, roots: set<PackageVersion>)
    requires graph.Keys == Versions(ctx.registry) && roots <= Versions(ctx.registry)
    requires forall p, c :: p in Versions(ctx.registry) ==> (Edge(graph, p, c) <==> Leads(ctx, onlyFirm, p, c))
    requires forall c :: c in roots <==> IsAsked(ctx, manifest, groups, c)
    ensures forall p :: Reachable(graph, roots, p) <==> CannotBeLeftOut(ctx, manifest, groups, onlyFirm, p)
  {
    hide Versions;
    hide Leads;
    hide IsAsked;
    hide Reachable;
    var reached := set p | p in Versions(ctx.registry) && Reachable(graph, roots, p);
    forall c | c in roots
      ensures c in reached
    {
      ReachRoot(graph, roots, c);
    }
    forall p, c | p in reached && Leads(ctx, onlyFirm, p, c)
      ensures c in reached
    {
      LeadIsPublished(ctx, p, onlyFirm, c);
      ReachStep(graph, roots, p, c);
    }
    assert IsClosed(ctx, manifest, groups, onlyFirm, reached);
    forall inside | IsClosed(ctx, manifest, groups, onlyFirm, inside)
      ensures forall p :: Reachable(graph, roots, p) ==> p in inside
    {
      forall p, c | p in inside && Edge(graph, p, c)
        ensures c in inside
      {
        assert p in Versions(ctx.registry);
      }
      ReachStaysInside(graph, roots, inside);
    }
  }

  lemma RootIsPublished(inputs: Inputs, c: PackageVersion)
    requires IsAsked(inputs.ctx, inputs.manifest, Enabled(inputs), c)
    ensures c in Versions(inputs.ctx.registry)
  {
  }

  /** The versions that the manifest and the registry call for, in the terms of their own fields. */
  lemma ReachIsByField(inputs: Inputs)
    requires inputs.ctx.Valid()
    ensures forall p :: inputs.IsNeeded(p) <==>
      CannotBeLeftOut(inputs.ctx, inputs.manifest, Enabled(inputs), false, p)
    ensures forall p :: inputs.IsInNonDev(p) <==>
      CannotBeLeftOut(inputs.ctx, inputs.manifest, Enabled(inputs) - {Dev}, false, p)
    ensures forall p :: Reachable(inputs.ctx.Firm(), inputs.FirmRoots(), p) <==>
      CannotBeLeftOut(inputs.ctx, inputs.manifest, Enabled(inputs) - {Optional}, true, p)
  {
    var ctx := inputs.ctx;
    forall c
      ensures c in inputs.AllRoots() <==> IsAsked(ctx, inputs.manifest, Enabled(inputs), c)
      ensures c in inputs.NonDevRoots() <==> IsAsked(ctx, inputs.manifest, Enabled(inputs) - {Dev}, c)
      ensures c in inputs.FirmRoots() <==> IsAsked(ctx, inputs.manifest, Enabled(inputs) - {Optional}, c)
      ensures IsAsked(ctx, inputs.manifest, Enabled(inputs), c) ==> c in Versions(ctx.registry)
    {
      RootsAreAsked(inputs, c);
      if IsAsked(ctx, inputs.manifest, Enabled(inputs), c) {
        RootIsPublished(inputs, c);
      }
    }
    RootsAreFewer(inputs);
    forall p, c | p in Versions(ctx.registry)
      ensures Edge(ctx.Graph(), p, c) <==> Leads(ctx, false, p, c)
      ensures Edge(ctx.Firm(), p, c) <==> Leads(ctx, true, p, c)
    {
      EdgeIsLead(ctx, p, c);
    }
    hide Context.Valid;
    hide Versions;
    hide Resolve;
    hide ResolveAll;
    hide Requests;
    hide FirmRequests;
    hide Leads;
    hide IsAsked;
    hide Reachable;
    hide CannotBeLeftOut;
    hide Inputs.AllRoots;
    hide Inputs.NonDevRoots;
    hide Inputs.FirmRoots;
    ReachIsLeast(ctx, inputs.manifest, Enabled(inputs), false, ctx.Graph(), inputs.AllRoots());
    ReachIsLeast(ctx, inputs.manifest, Enabled(inputs) - {Dev}, false, ctx.Graph(), inputs.NonDevRoots());
    ReachIsLeast(ctx, inputs.manifest, Enabled(inputs) - {Optional}, true, ctx.Firm(), inputs.FirmRoots());
  }

  lemma RootsAreFewer(inputs: Inputs)
    ensures inputs.NonDevRoots() <= inputs.AllRoots() && inputs.FirmRoots() <= inputs.AllRoots()
  {
  }

  lemma KeyIsOne(semver: Semver, k: DependencyPath, p: PackageVersion)
    requires IsPublished(semver, p)
    ensures IsKeyFor(k, p) <==> k == KeyOf(p)
  {
    PkgNames.PrintParse(p.name);
    if IsKeyFor(k, p) {
      PkgNames.ParsePrint(k.packageSpecifier.name);
    }
  }

  lemma NeededIsPublished(inputs: Inputs, lockfile: Lockfile, p: PackageVersion)
    requires inputs.ctx.Valid() && IsGenerated(inputs, lockfile)
    requires CannotBeLeftOut(inputs.ctx, inputs.manifest, Enabled(inputs), false, p)
    ensures inputs.IsNeeded(p) && IsPublished(inputs.ctx.semver, p)
    ensures p in Versions(inputs.ctx.registry) && KeyOf(p) in OrEmpty(lockfile.packages)
  {
    ReachIsByField(inputs);
    NeededIsFiled(inputs, lockfile, p);
    hide *;
    VersionIsPublished(inputs.ctx, p);
  }

  lemma VersionIsPublished(ctx: Context, p: PackageVersion)
    requires ctx.Valid() && p in Versions(ctx.registry)
    ensures IsPublished(ctx.semver, p)
  {
  }

  lemma NeededIsFiled(inputs: Inputs, lockfile: Lockfile, p: PackageVersion)
    requires IsGenerated(inputs, lockfile) && inputs.IsNeeded(p)
    ensures p in Versions(inputs.ctx.registry) && KeyOf(p) in OrEmpty(lockfile.packages)
  {
    hide Inputs.IsNeeded;
    hide Versions;
    hide KeyOf;
  }

  lemma FiledIsNeeded(inputs: Inputs, lockfile: Lockfile)
    requires IsGenerated(inputs, lockfile)
    ensures lockfile.packages != Some(map[])
    ensures lockfile.packages.Some? ==>
      forall k :: k in lockfile.packages.value ==> exists p :: inputs.IsNeeded(p) && KeyOf(p) == k
  {
    hide Inputs.IsNeeded;
    hide Versions;
    hide KeyOf;
    hide CanGenerate;
    hide HoldsTheGroups;
    hide HoldsTheEdges;
    hide DevIsExact;
    hide OptionalIsSound;
    hide OptionalIsLocal;
  }

  lemma NeededHasKey(inputs: Inputs, lockfile: Lockfile, p: PackageVersion)
    requires inputs.ctx.Valid() && IsGenerated(inputs, lockfile)
    requires CannotBeLeftOut(inputs.ctx, inputs.manifest, Enabled(inputs), false, p)
    ensures lockfile.packages.Some? && exists k :: k in lockfile.packages.value && IsKeyFor(k, p)
  {
    hide *;
    NeededIsPublished(inputs, lockfile, p);
    KeyIsOne(inputs.ctx.semver, KeyOf(p), p);
    InSome(lockfile, KeyOf(p));
  }

  lemma InSome(lockfile: Lockfile, k: DependencyPath)
    requires k in OrEmpty(lockfile.packages)
    ensures lockfile.packages.Some? && k in lockfile.packages.value
  {
  }

  lemma KeyIsNeeded(inputs: Inputs, lockfile: Lockfile, k: DependencyPath)
    requires inputs.ctx.Valid() && IsGenerated(inputs, lockfile)
    requires lockfile.packages.Some? && k in lockfile.packages.value
    ensures exists p :: CannotBeLeftOut(inputs.ctx, inputs.manifest, Enabled(inputs), false, p) && IsKeyFor(k, p)
  {
    hide *;
    FiledIsNeeded(inputs, lockfile);
    ReachIsByField(inputs);
    var p :| inputs.IsNeeded(p) && KeyOf(p) == k;
    NeededIsPublished(inputs, lockfile, p);
    KeyIsOne(inputs.ctx.semver, k, p);
  }

  /** The keys are those of the versions that cannot be left out. */
  lemma KeysByField(inputs: Inputs, lockfile: Lockfile)
    requires inputs.ctx.Valid() && IsGenerated(inputs, lockfile)
    ensures lockfile.packages != Some(map[])
    ensures forall p :: CannotBeLeftOut(inputs.ctx, inputs.manifest, Enabled(inputs), false, p) ==>
      lockfile.packages.Some? && exists k :: k in lockfile.packages.value && IsKeyFor(k, p)
    ensures lockfile.packages.Some? ==> forall k :: k in lockfile.packages.value ==>
      exists p :: CannotBeLeftOut(inputs.ctx, inputs.manifest, Enabled(inputs), false, p) && IsKeyFor(k, p)
  {
    hide *;
    FiledIsNeeded(inputs, lockfile);
    forall p | CannotBeLeftOut(inputs.ctx, inputs.manifest, Enabled(inputs), false, p)
      ensures lockfile.packages.Some? && exists k :: k in lockfile.packages.value && IsKeyFor(k, p)
    {
      NeededHasKey(inputs, lockfile, p);
    }
    if lockfile.packages.Some? {
      forall k | k in lockfile.packages.value
        ensures exists p :: CannotBeLeftOut(inputs.ctx, inputs.manifest, Enabled(inputs), false, p) && IsKeyFor(k, p)
      {
        KeyIsNeeded(inputs, lockfile, k);
      }
    }
  }

  /** The version is the one that the lockfile files under the key. */
  ghost predicate IsFiledAs(inputs: Inputs, lockfile: Lockfile, p: PackageVersion, k: DependencyPath) {
    && CannotBeLeftOut(inputs.ctx, inputs.manifest, Enabled(inputs), false, p) && IsKeyFor(k, p)
    && lockfile.packages.Some? && k in lockfile.packages.value
  }

  lemma FiledFacts(inputs: Inputs, lockfile: Lockfile, p: PackageVersion, k: DependencyPath)
    requires inputs.ctx.Valid() && IsGenerated(inputs, lockfile) && IsFiledAs(inputs, lockfile, p, k)
    ensures inputs.IsNeeded(p) && k == KeyOf(p) && p in Versions(inputs.ctx.registry)
    ensures lockfile.packages.Some? && k in lockfile.packages.value
    ensures HoldsTheEdges(inputs, lockfile.packages.value) && DevIsExact(inputs, lockfile.packages.value)
    ensures OptionalIsSound(inputs, lockfile.packages.value)
    ensures exists walked :: OptionalIsLocal(inputs, lockfile.packages.value, walked)
  {
    hide Inputs.IsNeeded;
    hide CannotBeLeftOut;
    hide Versions;
    hide KeyOf;
    hide IsKeyFor;
    hide IsPublished;
    hide HoldsTheEdges;
    hide HoldsTheReachable;
    hide HoldsTheGroups;
    hide DevIsExact;
    hide OptionalIsSound;
    hide OptionalIsLocal;
    hide Context.Valid;
    hide CanGenerate;
    NeededIsPublished(inputs, lockfile, p);
    KeyIsOne(inputs.ctx.semver, k, p);
  }

  /** A snapshot points to the tarball's URL exactly when the setting asks for it, and carries the integrity. */
  lemma ResolutionByField(inputs: Inputs, lockfile: Lockfile, p: PackageVersion, k: DependencyPath)
    requires inputs.ctx.Valid() && IsGenerated(inputs, lockfile) && IsFiledAs(inputs, lockfile, p, k)
    ensures var resolution := lockfile.packages.value[k].resolution;
      && p.integrity.Some?
      && (resolution.TarballResolution? <==> inputs.ctx.config.lockfileIncludeTarballUrl)
      && (resolution.TarballResolution? ==>
            resolution.tarball == p.tarball && resolution.tarballIntegrity == Some(p.integrity.value))
      && (!resolution.TarballResolution? ==>
            resolution.RegistryResolution? && resolution.integrity == p.integrity.value)
  {
    FiledFacts(inputs, lockfile, p, k);
    hide Inputs.IsNeeded;
    hide KeyOf;
    hide Versions;
    hide StoresEdges;
    hide IsGenerated;
    hide IsFiledAs;
  }

  /** For development only exactly when production and optional dependencies do without it. */
  lemma FlagsByField(inputs: Inputs, lockfile: Lockfile, p: PackageVersion, k: DependencyPath)
    requires inputs.ctx.Valid() && IsGenerated(inputs, lockfile) && IsFiledAs(inputs, lockfile, p, k)
    ensures lockfile.packages.value[k].dev
      == Some(!CannotBeLeftOut(inputs.ctx, inputs.manifest, Enabled(inputs) - {Dev}, false, p))
    ensures lockfile.packages.value[k].optional.Some?
    ensures !lockfile.packages.value[k].optional.value ==>
      CannotBeLeftOut(inputs.ctx, inputs.manifest, Enabled(inputs) - {Optional}, true, p)
    ensures IsAsked(inputs.ctx, inputs.manifest, Enabled(inputs) - {Optional}, p) ==>
      !lockfile.packages.value[k].optional.value
  {
    FiledFacts(inputs, lockfile, p, k);
    ReachIsByField(inputs);
    RootsAreAsked(inputs, p);
    hide CannotBeLeftOut;
    hide IsAsked;
    hide Inputs.IsNeeded;
    hide Inputs.NonDevRoots;
    hide Inputs.FirmRoots;
    hide Context.Graph;
    hide Context.Firm;
    hide Context.Valid;
    hide Reachable;
    hide KeyOf;
    hide Versions;
    hide HoldsTheEdges;
    hide IsGenerated;
    hide IsFiledAs;
  }

  /** A version that a needed one lists as optional, and that is picked for it. */
  ghost predicate IsOptionalOf(inputs: Inputs, q: PackageVersion, c: PackageVersion) {
    && CannotBeLeftOut(inputs.ctx, inputs.manifest, Enabled(inputs), false, q)
    && exists name, range ::
         && AsksFor(q, inputs.ctx.config.autoInstallPeers, name, range) && name in q.optionalDependencies
         && IsPicked(inputs.ctx.registry, name, range, c)
  }

  /** The set holds all that is picked as optional, for the manifest or a needed version, and what that leads to. */
  ghost predicate HoldsAllOptional(inputs: Inputs, inside: set<PackageVersion>) {
    && (forall c :: IsAsked(inputs.ctx, inputs.manifest, Enabled(inputs) - {Prod, Dev}, c) ==> c in inside)
    && (forall q, c :: IsOptionalOf(inputs, q, c) ==> c in inside)
    && (forall p, c :: p in inside && Leads(inputs.ctx, false, p, c) ==> c in inside)
  }

  lemma OptionalRootIsAsked(inputs: Inputs, c: PackageVersion)
    ensures c in inputs.Roots(Optional) <==> IsAsked(inputs.ctx, inputs.manifest, Enabled(inputs) - {Prod, Dev}, c)
  {
    RootOfGroup(inputs, Optional, c);
    hide Inputs.Roots;
    hide IsPicked;
    hide HasRange;
  }

  lemma OptionalEdgeIsOptional(inputs: Inputs, q: PackageVersion, c: PackageVersion)
    requires inputs.ctx.Valid() && inputs.IsNeeded(q) && IsOptionalEdge(inputs.ctx, q, c)
    ensures IsOptionalOf(inputs, q, c)
  {
    ReachIsByField(inputs);
    hide Inputs.IsNeeded;
    hide CannotBeLeftOut;
    var e :| e in inputs.ctx.Needs(q) && e.0 in q.optionalDependencies && Resolve(inputs.ctx.registry, e) == Some(c);
    NeedIsAsk(inputs.ctx, q, e.0, e.1);
    ResolveIsPick(inputs.ctx.registry, e.0, e.1);
    hide Context.Needs;
    hide AsksFor;
    hide IsPicked;
    hide Resolve;
  }

  lemma LedStaysInside(inputs: Inputs, roots: set<PackageVersion>, inside: set<PackageVersion>)
    requires inputs.ctx.Valid() && roots <= inside && HoldsAllOptional(inputs, inside)
    ensures forall p :: Reachable(inputs.ctx.Graph(), roots, p) ==> p in inside
  {
    forall p, c | p in inside && Edge(inputs.ctx.Graph(), p, c)
      ensures c in inside
    {
      EdgeIsLead(inputs.ctx, p, c);
    }
    ReachStaysInside(inputs.ctx.Graph(), roots, inside);
  }

  /** Behind an optional edge of a version that is reached from needed roots. */
  lemma BehindIsInside(inputs: Inputs, group: DependencyGroup, p: PackageVersion, inside: set<PackageVersion>)
    requires inputs.ctx.Valid() && HoldsAllOptional(inputs, inside) && inputs.Roots(group) <= inputs.AllRoots()
    requires IsBehindOptional(inputs.ctx, inputs.Roots(group), {}, p)
    ensures p in inside
  {
    var g := inputs.ctx.Graph();
    hide Context.Graph;
    hide Inputs.Roots;
    hide Inputs.AllRoots;
    hide IsOptionalEdge;
    hide IsOptionalOf;
    hide Context.Valid;
    ReachMonotone(g, inputs.Roots(group), inputs.AllRoots());
    assert !Reachable(g, {}, p);
    hide Reachable;
    var q, c :| Reachable(g, inputs.Roots(group), q) && IsOptionalEdge(inputs.ctx, q, c) && Reachable(g, {c}, p);
    OptionalEdgeIsOptional(inputs, q, c);
    LedStaysInside(inputs, {c}, inside);
  }

  lemma StartIsInside(inputs: Inputs, p: PackageVersion, inside: set<PackageVersion>)
    requires inputs.ctx.Valid() && HoldsAllOptional(inputs, inside) && inputs.MayStartOptional(p)
    ensures p in inside
  {
    hide Context.Valid;
    hide Context.Graph;
    hide Reachable;
    hide HoldsAllOptional;
    hide IsBehindOptional;
    assert inputs.Roots(Prod) <= inputs.AllRoots() && inputs.Roots(Dev) <= inputs.AllRoots();
    hide Inputs.Roots;
    if inputs.IsInProd(p) {
      BehindIsInside(inputs, Prod, p, inside);
    } else if inputs.IsInNonDev(p) {
      ReachUnion(inputs.ctx.Graph(), inputs.Roots(Prod), inputs.Roots(Optional), p);
      OptionalRootsAreInside(inputs, inside);
      LedStaysInside(inputs, inputs.Roots(Optional), inside);
    } else {
      BehindIsInside(inputs, Dev, p, inside);
    }
  }

  lemma OptionalRootsAreInside(inputs: Inputs, inside: set<PackageVersion>)
    requires HoldsAllOptional(inputs, inside)
    ensures inputs.Roots(Optional) <= inside
  {
    hide Inputs.Roots;
    hide IsAsked;
    forall c | c in inputs.Roots(Optional)
      ensures c in inside
    {
      OptionalRootIsAsked(inputs, c);
    }
  }

  /** What is marked optional is, or lies behind, something that the manifest or a needed version lists as optional. */
  lemma OptionalByField(inputs: Inputs, lockfile: Lockfile, p: PackageVersion, k: DependencyPath)
    requires inputs.ctx.Valid() && IsGenerated(inputs, lockfile) && IsFiledAs(inputs, lockfile, p, k)
    requires lockfile.packages.value[k].optional == Some(true)
    ensures forall inside :: HoldsAllOptional(inputs, inside) ==> p in inside
  {
    hide *;
    FiledFacts(inputs, lockfile, p, k);
    FlagsOf(inputs, lockfile, p);
    FlagIsSet(lockfile, k);
    forall inside | HoldsAllOptional(inputs, inside)
      ensures p in inside
    {
      StartIsInside(inputs, p, inside);
    }
  }

  /** What is needed firmly by a version that nothing optional leads to is not marked optional. */
  lemma FirmByField(inputs: Inputs, lockfile: Lockfile, q: PackageVersion, p: PackageVersion, k: DependencyPath,
                    inside: set<PackageVersion>)
    requires inputs.ctx.Valid() && IsGenerated(inputs, lockfile) && IsFiledAs(inputs, lockfile, p, k)
    requires CannotBeLeftOut(inputs.ctx, inputs.manifest, Enabled(inputs), false, q) && Leads(inputs.ctx, true, q, p)
    requires HoldsAllOptional(inputs, inside) && q !in inside
    ensures lockfile.packages.value[k].optional == Some(false)
  {
    hide *;
    FiledFacts(inputs, lockfile, p, k);
    NeededIsPublished(inputs, lockfile, q);
    EdgeIsLead(inputs.ctx, q, p);
    if inputs.MayStartOptional(q) {
      StartIsInside(inputs, q, inside);
    }
    SupportedByEdge(inputs, q, p);
    FlagsOf(inputs, lockfile, p);
    FlagIsNotSet(lockfile, k);
  }

  lemma SupportedByEdge(inputs: Inputs, q: PackageVersion, p: PackageVersion)
    requires inputs.IsNeeded(q) && !inputs.MayStartOptional(q) && Edge(inputs.ctx.Firm(), q, p)
    ensures HasFirmSupport(inputs, p)
  {
    hide Inputs.IsNeeded;
    hide Inputs.MayStartOptional;
  }

  lemma FlagIsNotSet(lockfile: Lockfile, k: DependencyPath)
    requires k in OrEmpty(lockfile.packages) && OrEmpty(lockfile.packages)[k].optional.Some?
    requires !IsOptional(OrEmpty(lockfile.packages), k)
    ensures lockfile.packages.Some? && k in lockfile.packages.value
    ensures lockfile.packages.value[k].optional == Some(false)
  {
    var flag := lockfile.packages.value[k].optional;
    assert flag.value ==> flag == Some(true);
    assert !flag.value ==> flag == Some(false);
  }

  lemma FlagIsSet(lockfile: Lockfile, k: DependencyPath)
    requires lockfile.packages.Some? && k in lockfile.packages.value
    requires lockfile.packages.value[k].optional == Some(true)
    ensures k in OrEmpty(lockfile.packages) && IsOptional(OrEmpty(lockfile.packages), k)
  {
  }

  /** The range that counts for a name: that of the peers if they do, else of the optional, else of the others. */
  predicate Wins(p: PackageVersion, withPeers: bool, name: string, range: string) {
    if withPeers && name in p.peerDependencies then p.peerDependencies[name] == range
    else if name in p.optionalDependencies then p.optionalDependencies[name] == range
    else HasRange(p.dependencies, name, range)
  }

  /** Under the name stands the version that is picked for the range. */
  predicate PointsTo(registry: Registry, dependencies: map<PkgNames.PkgName, PackageSnapshotDependency>,
                     n: PkgNames.PkgName, name: string, range: string)
  {
    && n in dependencies && PkgNames.Print(n) == name
    && dependencies[n].PkgVerPeerRef? && dependencies[n].verPeer.peer == ""
    && exists c | c in Versions(registry) ::
         IsPicked(registry, name, range, c) && c.version == dependencies[n].verPeer.version
  }

  lemma WinnerIsEffective(p: PackageVersion, withPeers: bool, name: string)
    ensures forall range :: Wins(p, withPeers, name, range) <==> EffectiveRange(p, withPeers, name) == Some(range)
  {
  }

  lemma EdgePointsTo(ctx: Context, dependencies: map<PkgNames.PkgName, PackageSnapshotDependency>, name: string,
                     range: string)
    requires ctx.Valid() && StoresEdge(ctx, dependencies, name, range)
    ensures PointsTo(ctx.registry, dependencies, NameOf(name), name, range)
  {
    PkgNames.PrintParse(name);
    ResolveIsPublished(ctx.semver, ctx.registry, (name, range));
    ResolveIsPick(ctx.registry, name, range);
    hide Resolve;
    hide Versions;
    hide IsPicked;
    hide Context.Valid;
    hide PkgNames.Print;
    hide PkgNames.Parse;
    assert IsPicked(ctx.registry, name, range, Resolve(ctx.registry, (name, range)).value);
  }

  /** A snapshot lists each name once, at the version picked for the range that counts; nothing is optional there. */
  lemma EdgesByField(inputs: Inputs, lockfile: Lockfile, p: PackageVersion, k: DependencyPath)
    requires inputs.ctx.Valid() && IsGenerated(inputs, lockfile) && IsFiledAs(inputs, lockfile, p, k)
    ensures var snapshot, withPeers := lockfile.packages.value[k], inputs.ctx.config.autoInstallPeers;
      && snapshot.optionalDependencies == None && snapshot.dependencies != Some(map[])
      && (forall name, range :: Wins(p, withPeers, name, range) ==>
            && snapshot.dependencies.Some?
            && exists n :: PointsTo(inputs.ctx.registry, snapshot.dependencies.value, n, name, range))
      && (snapshot.dependencies.Some? ==> forall n :: n in snapshot.dependencies.value ==>
            exists range :: Wins(p, withPeers, PkgNames.Print(n), range))
  {
    hide *;
    FiledFacts(inputs, lockfile, p, k);
    var snapshot, withPeers := lockfile.packages.value[k], inputs.ctx.config.autoInstallPeers;
    EdgesOfNeeded(inputs, lockfile.packages.value, p);
    forall name, range | Wins(p, withPeers, name, range)
      ensures snapshot.dependencies.Some?
      ensures exists n :: PointsTo(inputs.ctx.registry, snapshot.dependencies.value, n, name, range)
    {
      WinnerIsEffective(p, withPeers, name);
      WinnerIsStored(inputs.ctx, p, OrEmpty(snapshot.dependencies), name, range);
      EdgePointsTo(inputs.ctx, OrEmpty(snapshot.dependencies), name, range);
      SomeHolds(inputs.ctx.registry, snapshot.dependencies, NameOf(name), name, range);
    }
    if snapshot.dependencies.Some? {
      forall n | n in snapshot.dependencies.value
        ensures exists range :: Wins(p, withPeers, PkgNames.Print(n), range)
      {
        StoredIsEffective(inputs.ctx, p, snapshot.dependencies, n);
        WinnerIsEffective(p, withPeers, PkgNames.Print(n));
        var range := EffectiveRange(p, withPeers, PkgNames.Print(n)).value;
        assert Wins(p, withPeers, PkgNames.Print(n), range);
      }
    }
  }

  lemma EdgesOfNeeded(inputs: Inputs, packages: Packages, p: PackageVersion)
    requires HoldsTheEdges(inputs, packages) && inputs.IsNeeded(p) && KeyOf(p) in packages
    ensures var snapshot := packages[KeyOf(p)];
      && snapshot.optionalDependencies == None && snapshot.dependencies != Some(map[])
      && StoresEdges(inputs.ctx, p, OrEmpty(snapshot.dependencies))
  {
    hide StoresEdges;
    hide KeyOf;
    hide Inputs.IsNeeded;
  }

  lemma WinnerIsStored(ctx: Context, p: PackageVersion, dependencies: map<PkgNames.PkgName, PackageSnapshotDependency>,
                       name: string, range: string)
    requires StoresEdges(ctx, p, dependencies)
    requires EffectiveRange(p, ctx.config.autoInstallPeers, name) == Some(range)
    ensures StoresEdge(ctx, dependencies, name, range)
  {
    hide StoresEdge;
    hide EffectiveRange;
    hide PkgNames.Print;
    hide PkgNames.IsParsed;
    assert StoresRange(ctx, dependencies, name, EffectiveRange(p, ctx.config.autoInstallPeers, name));
  }

  lemma SomeHolds(registry: Registry, dependencies: Option<map<PkgNames.PkgName, PackageSnapshotDependency>>,
                  n: PkgNames.PkgName, name: string, range: string)
    requires PointsTo(registry, OrEmpty(dependencies), n, name, range)
    ensures dependencies.Some? && PointsTo(registry, dependencies.value, n, name, range)
  {
    hide Versions;
    hide IsPicked;
    hide PkgNames.Print;
  }

  lemma StoredIsEffective(ctx: Context, p: PackageVersion,
                          dependencies: Option<map<PkgNames.PkgName, PackageSnapshotDependency>>, n: PkgNames.PkgName)
    requires StoresEdges(ctx, p, OrEmpty(dependencies)) && dependencies.Some? && n in dependencies.value
    ensures EffectiveRange(p, ctx.config.autoInstallPeers, PkgNames.Print(n)).Some?
  {
    hide StoresRange;
    hide EffectiveRange;
    hide PkgNames.Print;
    hide PkgNames.IsParsed;
  }

  /** A group on record: under each of its names the range asked for and the version picked for it. */
  ghost predicate Records(registry: Registry, m: map<string, string>, recorded: Option<ResolvedDependencyMap>) {
    && recorded != Some(map[])
    && (forall name, range :: HasRange(m, name, range) ==>
          recorded.Some? && exists n :: IsRecordedAs(registry, recorded.value, n, name, range))
    && (recorded.Some? ==> forall n :: n in recorded.value ==> PkgNames.IsParsed(n) && PkgNames.Print(n) in m)
  }

  predicate IsRecordedAs(registry: Registry, recorded: ResolvedDependencyMap, n: PkgNames.PkgName, name: string,
                         range: string)
  {
    && n in recorded && PkgNames.Print(n) == name
    && recorded[n].specifier == range && recorded[n].version.peer == ""
    && exists c | c in Versions(registry) ::
         IsPicked(registry, name, range, c) && c.version == recorded[n].version.version
  }

  lemma StoredIsRecorded(ctx: Context, stored: ResolvedDependencyMap, name: string, range: string)
    requires ctx.Valid() && StoresRoot(ctx, stored, (name, range))
    ensures IsRecordedAs(ctx.registry, stored, NameOf(name), name, range)
  {
    PkgNames.PrintParse(name);
    ResolveIsPublished(ctx.semver, ctx.registry, (name, range));
    ResolveIsPick(ctx.registry, name, range);
    hide Resolve;
    hide Versions;
    hide IsPicked;
    hide Context.Valid;
    hide PkgNames.Print;
    hide PkgNames.Parse;
    assert IsPicked(ctx.registry, name, range, Resolve(ctx.registry, (name, range)).value);
  }

  lemma StoredRootsAreRecorded(ctx: Context, m: map<string, string>, recorded: Option<ResolvedDependencyMap>)
    requires ctx.Valid() && StoresRoots(ctx, m.Items, OrEmpty(recorded)) && recorded != Some(map[])
    ensures Records(ctx.registry, m, recorded)
  {
    hide StoresRoot;
    hide IsRecordedAs;
    hide Context.Valid;
    hide PkgNames.Print;
    hide PkgNames.IsParsed;
    forall name, range | HasRange(m, name, range)
      ensures recorded.Some? && exists n :: IsRecordedAs(ctx.registry, recorded.value, n, name, range)
    {
      assert (name, range) in m.Items;
      StoredIsRecorded(ctx, OrEmpty(recorded), name, range);
      RecordedIsThere(ctx.registry, OrEmpty(recorded), NameOf(name), name, range);
    }
  }

  lemma RecordedIsThere(registry: Registry, recorded: ResolvedDependencyMap, n: PkgNames.PkgName, name: string,
                        range: string)
    requires IsRecordedAs(registry, recorded, n, name, range)
    ensures recorded != map[]
  {
    hide Versions;
  }

  /** Each field of the lockfile's project records the field of that name of the manifest if its group is enabled. */
  lemma ProjectByField(inputs: Inputs, lockfile: Lockfile)
    requires inputs.ctx.Valid() && IsGenerated(inputs, lockfile)
    ensures lockfile.projectSnapshot.Single?
    ensures var project, groups := lockfile.projectSnapshot.project, inputs.groups;
      && Records(inputs.ctx.registry, if Prod in groups then inputs.manifest.dependencies else map[],
           project.dependencies)
      && Records(inputs.ctx.registry, if Optional in groups then inputs.manifest.optionalDependencies else map[],
           project.optionalDependencies)
      && Records(inputs.ctx.registry, if Dev in groups then inputs.manifest.devDependencies else map[],
           project.devDependencies)
  {
    var project := ProjectOf(inputs, lockfile);
    hide IsGenerated;
    hide StoresRoots;
    hide Records;
    hide Context.Valid;
    assert forall group ::
        inputs.Requested(group) == (if group in inputs.groups then inputs.manifest.Group(group) else map[]).Items;
    StoredRootsAreRecorded(inputs.ctx, if Prod in inputs.groups then inputs.manifest.dependencies else map[],
      project.dependencies);
    StoredRootsAreRecorded(inputs.ctx,
      if Optional in inputs.groups then inputs.manifest.optionalDependencies else map[],
      project.optionalDependencies);
    StoredRootsAreRecorded(inputs.ctx, if Dev in inputs.groups then inputs.manifest.devDependencies else map[],
      project.devDependencies);
  }

  lemma ProjectOf(inputs: Inputs, lockfile: Lockfile) returns (project: ProjectSnapshot)
    requires IsGenerated(inputs, lockfile)
    ensures lockfile.projectSnapshot == Single(project) && HoldsTheGroups(inputs, project)
  {
    hide HoldsTheGroups;
    project := lockfile.projectSnapshot.project;
  }
}
