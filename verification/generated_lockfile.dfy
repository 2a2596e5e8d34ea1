/** What a generated lockfile says about the manifest and the registry it came from. */
module GeneratedLockfiles {
  import opened Wrappers
  import opened SnapshotReferences
  import opened Graphs
  import opened Registries
  import opened Lockfiles
  import opened DependencyContexts
  import opened LockfileWalk
  import opened BehindOptional
  import PkgNames

  datatype Inputs = Inputs(ctx: Context, manifest: Manifest, groups: seq<DependencyGroup>) {
    function Requested(group: DependencyGroup): set<Request> { RootRequests(manifest, groups, group) }

    /** The versions that one enabled group asks for directly. */
    function Roots(group: DependencyGroup): set<PackageVersion> { ResolveAll(ctx.registry, Requested(group)) }

    function AllRoots(): set<PackageVersion> { Roots(Prod) + Roots(Optional) + Roots(Dev) }

    function NonDevRoots(): set<PackageVersion> { Roots(Prod) + Roots(Optional) }

    function FirmRoots(): set<PackageVersion> { Roots(Prod) + Roots(Dev) }

    ghost predicate IsNeeded(p: PackageVersion) { Reachable(ctx.Graph(), AllRoots(), p) }

    ghost predicate IsInProd(p: PackageVersion) { Reachable(ctx.Graph(), Roots(Prod), p) }

    ghost predicate IsInNonDev(p: PackageVersion) { Reachable(ctx.Graph(), NonDevRoots(), p) }

    /**
     * Whether a package may be walked as optional when it is first met. Production comes first, and in that pass
     * something optional has to lead to the package; what only the optional pass meets first is always optional;
     * the rest is met in the development pass, where something optional has to lead to it again.
     */
    ghost predicate MayStartOptional(p: PackageVersion) {
      if IsInProd(p) then IsBehindOptional(ctx, Roots(Prod), {}, p)
      else IsInNonDev(p) || IsBehindOptional(ctx, Roots(Dev), {}, p)
    }

    /** Whether a package may be walked as non-optional when it is first met: along firm edges of its pass. */
    ghost predicate MayStartFirm(p: PackageVersion) {
      if IsInProd(p) then Reachable(ctx.Firm(), Roots(Prod), p)
      else !IsInNonDev(p) && Reachable(ctx.Firm(), Roots(Dev), p)
    }
  }

  /** Every request, of the manifest or of anything it leads to, can be met. */
  ghost predicate CanGenerate(inputs: Inputs) {
    && AllResolve(inputs.ctx.registry, inputs.Requested(Prod))
    && AllResolve(inputs.ctx.registry, inputs.Requested(Optional))
    && AllResolve(inputs.ctx.registry, inputs.Requested(Dev))
    && forall p :: inputs.IsNeeded(p) ==> AllResolve(inputs.ctx.registry, inputs.ctx.Needs(p))
  }

  /** The keys are those of the versions reachable from the enabled groups, no more and no fewer. */
  ghost predicate HoldsTheReachable(inputs: Inputs, packages: Packages) {
    && (forall p :: inputs.IsNeeded(p) ==> p in Versions(inputs.ctx.registry) && KeyOf(p) in packages)
    && (forall k :: k in packages ==> exists p :: inputs.IsNeeded(p) && KeyOf(p) == k)
  }

  /** Each snapshot carries the resolution and, under each dependency's name, the version that was walked. */
  ghost predicate HoldsTheEdges(inputs: Inputs, packages: Packages) {
    forall p :: inputs.IsNeeded(p) && KeyOf(p) in packages ==>
      && IsSnapshotOf(inputs.ctx, p, packages[KeyOf(p)])
      && packages[KeyOf(p)].dependencies != Some(map[])
      && StoresEdges(inputs.ctx, p, OrEmpty(packages[KeyOf(p)].dependencies))
  }

  /** A package is for development only exactly when neither production nor optional dependencies lead to it. */
  ghost predicate DevIsExact(inputs: Inputs, packages: Packages) {
    forall p :: inputs.IsNeeded(p) && KeyOf(p) in packages ==>
      packages[KeyOf(p)].dev == Some(!Reachable(inputs.ctx.Graph(), inputs.NonDevRoots(), p))
  }

  /** A package is marked non-optional only if firm edges lead to it from a production or development dependency. */
  ghost predicate OptionalIsSound(inputs: Inputs, packages: Packages) {
    forall p :: inputs.IsNeeded(p) && KeyOf(p) in packages ==>
      && packages[KeyOf(p)].optional.Some?
      && (packages[KeyOf(p)].optional == Some(false) ==> Reachable(inputs.ctx.Firm(), inputs.FirmRoots(), p))
  }

  /**
   * The flag itself, up to the order of the walk: a package is non-optional exactly when it was asked for so or has
   * a firm edge from a package that was first walked as non-optional. The pass in which a package is first met bounds
   * how it can be walked then.
   */
  ghost predicate OptionalIsLocal(inputs: Inputs, packages: Packages, walked: map<PackageVersion, bool>) {
    && (forall p :: p in walked ==> inputs.IsNeeded(p))
    && forall p :: inputs.IsNeeded(p) && KeyOf(p) in packages ==>
      && p in walked
      && (walked[p] ==> inputs.MayStartOptional(p))
      && (!walked[p] ==> inputs.MayStartFirm(p))
      && (!walked[p] ==> packages[KeyOf(p)].optional == Some(false))
      && (packages[KeyOf(p)].optional == Some(false) <==>
            p in inputs.FirmRoots() || exists q :: q in walked && !walked[q] && Edge(inputs.ctx.Firm(), q, p))
  }

  ghost predicate HoldsTheGroups(inputs: Inputs, project: ProjectSnapshot) {
    forall group :: group != Peer ==>
      && project.GetMapByGroup(group) != Some(map[])
      && StoresRoots(inputs.ctx, inputs.Requested(group), OrEmpty(project.GetMapByGroup(group)))
  }

  ghost predicate IsGenerated(inputs: Inputs, lockfile: Lockfile) {
    var packages := OrEmpty(lockfile.packages);
    && CanGenerate(inputs)
    && lockfile.projectSnapshot.Single?
    && HoldsTheGroups(inputs, lockfile.projectSnapshot.project)
    && lockfile.packages != Some(map[])
    && HoldsTheReachable(inputs, packages)
    && HoldsTheEdges(inputs, packages)
    && DevIsExact(inputs, packages)
    && OptionalIsSound(inputs, packages)
    && exists walked :: OptionalIsLocal(inputs, packages, walked)
  }

  lemma StartsAtRest(ctx: Context)
    requires ctx.Valid()
    ensures IsAtRest(ctx, Progress(map[], map[], {}, {}, {}))
  {
  }

  /** At rest, what has been walked is what the roots so far reach. */
  lemma AtRestIsReach(ctx: Context, s: Progress)
    requires IsAtRest(ctx, s)
    ensures forall p :: p in s.walked <==> Reachable(ctx.Graph(), s.roots, p)
  {
    hide Context.Graph;
    hide Reachable;
    hide KeysMatch;
    hide StoresEdges;
    hide HasFirmReason;
    hide AllResolve;
    hide KeyOf;
    ReachStaysInside(ctx.Graph(), s.roots, s.walked.Keys);
  }

  lemma BuiltGroup(inputs: Inputs, s: Progress, t: Progress, stored: Option<ResolvedDependencyMap>,
                   group: DependencyGroup)
    requires HasBuiltGroup(inputs.ctx, s, t, inputs.Requested(group), stored, group == Dev, group == Optional)
    ensures IsAtRest(inputs.ctx, t)
    ensures t.roots == s.roots + inputs.Roots(group)
  {
  }

  lemma CannotGenerate(inputs: Inputs, roots: set<PackageVersion>, group: DependencyGroup, e: Request)
    requires IsUnmetFrom(inputs.ctx, roots, inputs.Requested(group), e)
    requires roots <= inputs.AllRoots() && group != Peer
    ensures !CanGenerate(inputs) && Resolve(inputs.ctx.registry, e).None?
  {
    ReachMonotone(inputs.ctx.Graph(), roots + inputs.Roots(group), inputs.AllRoots());
    hide Reachable;
    hide Resolve;
    hide Context.Graph;
  }

  lemma NoDevYet(ctx: Context, s: Progress, t: Progress)
    requires Continues(s, t, false) && forall p :: p in s.walked ==> !DevOf(s, p)
    ensures forall p :: p in t.walked ==> !DevOf(t, p)
  {
  }

  lemma AtRestFiles(ctx: Context, s: Progress)
    requires IsAtRest(ctx, s)
    ensures forall p :: p in s.walked ==>
      && p in Versions(ctx.registry) && Settled(ctx, s, p) && IsFiled(s, p)
      && IsSnapshotOf(ctx, p, s.packages[KeyOf(p)])
    ensures forall k :: k in s.packages ==> exists p :: p in s.walked && KeyOf(p) == k
  {
    hide Versions;
    hide Settled;
    hide KeyOf;
    hide IsSnapshotOf;
    hide FlagsJustified;
    forall k | k in s.packages
      ensures exists p :: p in s.walked && KeyOf(p) == k
    {
      assert k in (set p | p in s.walked :: KeyOf(p));
    }
  }

  lemma FinalFiles(inputs: Inputs, s: Progress)
    requires IsAtRest(inputs.ctx, s) && s.roots == inputs.AllRoots()
    ensures forall p :: inputs.IsNeeded(p) <==> p in s.walked
    ensures HoldsTheReachable(inputs, s.packages) && HoldsTheEdges(inputs, s.packages)
    ensures forall p :: inputs.IsNeeded(p) ==> AllResolve(inputs.ctx.registry, inputs.ctx.Needs(p))
  {
    hide IsAtRest;
    hide Context.Graph;
    hide Context.Firm;
    hide Context.Needs;
    hide Reachable;
    hide StoresEdges;
    hide AllResolve;
    hide KeyOf;
    hide Versions;
    hide IsSnapshotOf;
    hide Inputs.AllRoots;
    AtRestFiles(inputs.ctx, s);
    AtRestIsReach(inputs.ctx, s);
  }

  lemma FirmReasonHolds(ctx: Context, s: Progress, p: PackageVersion)
    requires IsAtRest(ctx, s) && p in s.walked
    ensures HasFirmReason(ctx, s, p) <==> !OptionalOf(s, p)
  {
    hide Context.Graph;
    hide Context.Firm;
    hide Reachable;
    hide StoresEdges;
    hide AllResolve;
    hide KeyOf;
    hide OptionalOf;
    hide KeysMatch;
    if HasFirmReason(ctx, s, p) && p !in s.firmRoots {
      var q :| q in s.walked && !s.walked[q] && Edge(ctx.Firm(), q, p);
      assert Settled(ctx, s, q);
    }
  }

  lemma FlagsAtRest(ctx: Context, s: Progress, p: PackageVersion)
    requires IsAtRest(ctx, s) && p in s.walked
    ensures KeyOf(p) in s.packages && s.packages[KeyOf(p)].optional == Some(OptionalOf(s, p))
    ensures s.packages[KeyOf(p)].dev == Some(DevOf(s, p))
    ensures !s.walked[p] ==> !OptionalOf(s, p)
    ensures !OptionalOf(s, p) ==> Reachable(ctx.Firm(), s.firmRoots, p)
  {
    hide Context.Graph;
    hide Context.Firm;
    hide Reachable;
    hide Settled;
    hide HasFirmReason;
    hide IsRegistry;
    hide KeyOf;
    hide IsSnapshotOf;
    hide Versions;
    assert IsFiled(s, p);
    assert OptionalOf(s, p) == s.packages[KeyOf(p)].optional.value;
    assert DevOf(s, p) == s.packages[KeyOf(p)].dev.value;
  }

  lemma FirmIsReachable(ctx: Context, roots: set<PackageVersion>, p: PackageVersion)
    requires Reachable(ctx.Firm(), roots, p)
    ensures Reachable(ctx.Graph(), roots, p)
  {
    FirmEdgeIsEdge(ctx);
    hide Context.Graph;
    hide Context.Firm;
    var path: seq<PackageVersion> :| IsPath(ctx.Firm(), path) && path[0] in roots && path[|path| - 1] == p;
    assert IsPath(ctx.Graph(), path);
  }

  /** The production pass: what it walks as optional is behind something optional there. */
  lemma StartsInProd(inputs: Inputs, s1: Progress, p: PackageVersion)
    requires IsAtRest(inputs.ctx, s1) && s1.roots == s1.firmRoots == inputs.Roots(Prod)
    requires OptionalIsBehind(inputs.ctx, {}, s1)
    requires inputs.IsInProd(p)
    ensures p in s1.walked
    ensures s1.walked[p] ==> inputs.MayStartOptional(p)
    ensures !s1.walked[p] ==> inputs.MayStartFirm(p)
  {
    hide IsAtRest;
    hide Reachable;
    hide Context.Graph;
    hide Context.Firm;
    hide Inputs.Roots;
    hide IsBehindOptional;
    AtRestIsReach(inputs.ctx, s1);
    FlagsAtRest(inputs.ctx, s1, p);
  }

  /** The optional pass: it walks as optional whatever it is the first to meet. */
  lemma StartsInOptional(inputs: Inputs, s2: Progress, p: PackageVersion)
    requires IsAtRest(inputs.ctx, s2) && s2.roots == inputs.NonDevRoots() && s2.firmRoots == inputs.Roots(Prod)
    requires inputs.IsInNonDev(p) && !inputs.IsInProd(p)
    ensures p in s2.walked && s2.walked[p] && inputs.MayStartOptional(p)
  {
    hide IsAtRest;
    hide Reachable;
    hide Context.Graph;
    hide Context.Firm;
    hide Inputs.Roots;
    hide Inputs.NonDevRoots;
    hide IsBehindOptional;
    AtRestIsReach(inputs.ctx, s2);
    FlagsAtRest(inputs.ctx, s2, p);
    if Reachable(inputs.ctx.Firm(), inputs.Roots(Prod), p) {
      FirmIsReachable(inputs.ctx, inputs.Roots(Prod), p);
    }
  }

  /** A package that only development leads to has only such packages leading to it. */
  lemma BehindInDev(inputs: Inputs, p: PackageVersion)
    requires inputs.ctx.Valid() && !inputs.IsInNonDev(p)
    requires forall q :: inputs.IsNeeded(q) ==> q in Versions(inputs.ctx.registry)
    requires IsBehindOptional(inputs.ctx, inputs.AllRoots(), inputs.Roots(Optional), p)
    ensures IsBehindOptional(inputs.ctx, inputs.Roots(Dev), {}, p)
  {
    var g := inputs.ctx.Graph();
    hide Context.Valid;
    hide Context.Graph;
    hide Versions;
    hide IsOptionalEdge;
    hide Inputs.Roots;
    ReachUnion(g, inputs.Roots(Prod), inputs.Roots(Optional), p);
    hide Reachable;
    var q, c :| Reachable(g, inputs.AllRoots(), q) && IsOptionalEdge(inputs.ctx, q, c) && Reachable(g, {c}, p);
    assert inputs.IsNeeded(q);
    ReachUnion(g, inputs.NonDevRoots(), inputs.Roots(Dev), q);
    if inputs.IsInNonDev(q) {
      OptionalEdgeIsEdge(inputs.ctx, q, c);
      ReachStep(g, inputs.NonDevRoots(), q, c);
      ReachOn(g, inputs.NonDevRoots(), c, p);
    }
  }

  lemma FirmInDev(inputs: Inputs, p: PackageVersion)
    requires !inputs.IsInNonDev(p) && Reachable(inputs.ctx.Firm(), inputs.FirmRoots(), p)
    ensures Reachable(inputs.ctx.Firm(), inputs.Roots(Dev), p)
  {
    hide Context.Graph;
    hide Context.Firm;
    hide Inputs.Roots;
    ReachUnion(inputs.ctx.Firm(), inputs.Roots(Prod), inputs.Roots(Dev), p);
    ReachUnion(inputs.ctx.Graph(), inputs.Roots(Prod), inputs.Roots(Optional), p);
    hide Reachable;
    if Reachable(inputs.ctx.Firm(), inputs.Roots(Prod), p) {
      FirmIsReachable(inputs.ctx, inputs.Roots(Prod), p);
    }
  }

  lemma ProdIsNonDev(inputs: Inputs, p: PackageVersion)
    requires inputs.IsInProd(p)
    ensures inputs.IsInNonDev(p)
  {
    ReachMonotone(inputs.ctx.Graph(), inputs.Roots(Prod), inputs.NonDevRoots());
  }

  /** The development pass: what it is the first to meet. */
  lemma StartsInDev(inputs: Inputs, s3: Progress, p: PackageVersion)
    requires IsAtRest(inputs.ctx, s3) && s3.roots == inputs.AllRoots() && s3.firmRoots == inputs.FirmRoots()
    requires OptionalIsBehind(inputs.ctx, inputs.Roots(Optional), s3)
    requires inputs.IsNeeded(p) && !inputs.IsInNonDev(p)
    ensures p in s3.walked
    ensures s3.walked[p] ==> inputs.MayStartOptional(p)
    ensures !s3.walked[p] ==> inputs.MayStartFirm(p)
  {
    hide IsAtRest;
    hide Reachable;
    hide Context.Graph;
    hide Context.Firm;
    hide Inputs.Roots;
    hide Inputs.AllRoots;
    hide Inputs.NonDevRoots;
    hide Inputs.FirmRoots;
    hide IsBehindOptional;
    NeededArePublished(inputs, s3);
    FlagsAtRest(inputs.ctx, s3, p);
    if inputs.IsInProd(p) {
      ProdIsNonDev(inputs, p);
    }
    if s3.walked[p] {
      BehindInDev(inputs, p);
    } else {
      FirmInDev(inputs, p);
    }
  }

  lemma NeededArePublished(inputs: Inputs, s3: Progress)
    requires IsAtRest(inputs.ctx, s3) && s3.roots == inputs.AllRoots()
    ensures inputs.ctx.Valid()
    ensures forall q :: inputs.IsNeeded(q) ==> q in s3.walked && q in Versions(inputs.ctx.registry)
  {
    AtRestIsReach(inputs.ctx, s3);
    hide Context.Valid;
    hide Context.Graph;
    hide Reachable;
    hide Versions;
    hide Settled;
    hide FlagsJustified;
    hide Inputs.AllRoots;
  }

  /** How a package was first walked is never changed. */
  ghost predicate KeepsWalks(s: Progress, t: Progress) {
    forall p :: p in s.walked ==> p in t.walked && t.walked[p] == s.walked[p]
  }

  /** The states after each of the three passes. */
  ghost predicate ArePasses(inputs: Inputs, s1: Progress, s2: Progress, s3: Progress) {
    && IsAtRest(inputs.ctx, s1) && IsAtRest(inputs.ctx, s2) && IsAtRest(inputs.ctx, s3)
    && s1.roots == s1.firmRoots == inputs.Roots(Prod)
    && s2.roots == inputs.NonDevRoots() && s2.firmRoots == inputs.Roots(Prod)
    && s3.roots == inputs.AllRoots() && s3.firmRoots == inputs.FirmRoots()
    && KeepsWalks(s1, s2) && KeepsWalks(s2, s3)
    && OptionalIsBehind(inputs.ctx, {}, s1) && OptionalIsBehind(inputs.ctx, inputs.Roots(Optional), s3)
  }

  lemma Starts(inputs: Inputs, s1: Progress, s2: Progress, s3: Progress, p: PackageVersion)
    requires ArePasses(inputs, s1, s2, s3) && inputs.IsNeeded(p)
    ensures p in s3.walked
    ensures s3.walked[p] ==> inputs.MayStartOptional(p)
    ensures !s3.walked[p] ==> inputs.MayStartFirm(p)
  {
    hide IsAtRest;
    hide OptionalIsBehind;
    hide Inputs.IsNeeded;
    hide Inputs.IsInProd;
    hide Inputs.IsInNonDev;
    hide Inputs.MayStartOptional;
    hide Inputs.MayStartFirm;
    hide Inputs.Roots;
    hide Inputs.AllRoots;
    hide Inputs.NonDevRoots;
    hide Inputs.FirmRoots;
    if inputs.IsInProd(p) {
      StartsInProd(inputs, s1, p);
    } else if inputs.IsInNonDev(p) {
      StartsInOptional(inputs, s2, p);
    } else {
      StartsInDev(inputs, s3, p);
    }
  }

  lemma FinalOptional(inputs: Inputs, s1: Progress, s2: Progress, s: Progress)
    requires ArePasses(inputs, s1, s2, s)
    requires forall p :: inputs.IsNeeded(p) <==> p in s.walked
    ensures OptionalIsSound(inputs, s.packages)
    ensures OptionalIsLocal(inputs, s.packages, s.walked)
  {
    hide IsAtRest;
    hide Context.Firm;
    hide Reachable;
    hide KeyOf;
    hide OptionalOf;
    hide OptionalIsBehind;
    hide Inputs.FirmRoots;
    hide Inputs.AllRoots;
    hide Inputs.NonDevRoots;
    hide Inputs.Roots;
    hide Inputs.IsNeeded;
    hide Inputs.MayStartOptional;
    hide Inputs.MayStartFirm;
    forall p | p in s.walked
      ensures KeyOf(p) in s.packages && s.packages[KeyOf(p)].optional == Some(OptionalOf(s, p))
      ensures !s.walked[p] ==> !OptionalOf(s, p)
      ensures !OptionalOf(s, p) ==> Reachable(inputs.ctx.Firm(), s.firmRoots, p)
      ensures HasFirmReason(inputs.ctx, s, p) <==> !OptionalOf(s, p)
      ensures s.walked[p] ==> inputs.MayStartOptional(p)
      ensures !s.walked[p] ==> inputs.MayStartFirm(p)
    {
      FlagsAtRest(inputs.ctx, s, p);
      FirmReasonHolds(inputs.ctx, s, p);
      Starts(inputs, s1, s2, s, p);
    }
  }

  lemma DevPass(s: Progress, t: Progress)
    requires Continues(s, t, true) && forall p :: p in s.walked ==> !DevOf(s, p)
    ensures forall p :: p in t.walked ==> (DevOf(t, p) <==> p !in s.walked)
  {
    hide KeyOf;
  }

  lemma FinalDev(inputs: Inputs, s0: Progress, s1: Progress, s2: Progress, s3: Progress)
    requires s0 == Progress(map[], map[], {}, {}, {})
    requires Continues(s0, s1, false) && Continues(s1, s2, false) && Continues(s2, s3, true)
    requires IsAtRest(inputs.ctx, s2) && s2.roots == inputs.NonDevRoots()
    requires IsAtRest(inputs.ctx, s3)
    requires forall p :: inputs.IsNeeded(p) <==> p in s3.walked
    ensures DevIsExact(inputs, s3.packages)
  {
    hide IsAtRest;
    hide Continues;
    NoDevYet(inputs.ctx, s0, s1);
    NoDevYet(inputs.ctx, s1, s2);
    DevPass(s2, s3);
    hide DevOf;
    hide Reachable;
    hide Context.Graph;
    hide Inputs.NonDevRoots;
    hide Inputs.IsNeeded;
    hide KeyOf;
    AtRestIsReach(inputs.ctx, s2);
    forall p | inputs.IsNeeded(p)
      ensures KeyOf(p) in s3.packages && s3.packages[KeyOf(p)].dev == Some(DevOf(s3, p))
    {
      FlagsAtRest(inputs.ctx, s3, p);
    }
  }

  /** The three passes, put together. */
  lemma PassesOf(inputs: Inputs, s0: Progress, s1: Progress, s2: Progress, s3: Progress, project: ProjectSnapshot)
    requires s0 == Progress(map[], map[], {}, {}, {})
    requires HasBuiltGroup(inputs.ctx, s0, s1, inputs.Requested(Prod), project.dependencies, false, false)
    requires HasBuiltGroup(inputs.ctx, s1, s2, inputs.Requested(Optional), project.optionalDependencies, false, true)
    requires HasBuiltGroup(inputs.ctx, s2, s3, inputs.Requested(Dev), project.devDependencies, true, false)
    requires OptionalIsBehind(inputs.ctx, {}, s1) && OptionalIsBehind(inputs.ctx, inputs.Roots(Optional), s3)
    ensures ArePasses(inputs, s1, s2, s3)
  {
    hide IsAtRest;
    hide OptionalIsBehind;
    hide StoresRoots;
    hide AllResolve;
    hide DevOf;
    hide OptionalOf;
    hide Inputs.Requested;
    hide ResolveAll;
  }

  lemma Generated(inputs: Inputs, s0: Progress, s1: Progress, s2: Progress, s3: Progress, lockfile: Lockfile)
    requires s0 == Progress(map[], map[], {}, {}, {})
    requires lockfile.projectSnapshot.Single?
    requires var project := lockfile.projectSnapshot.project;
      && HasBuiltGroup(inputs.ctx, s0, s1, inputs.Requested(Prod), project.dependencies, false, false)
      && HasBuiltGroup(inputs.ctx, s1, s2, inputs.Requested(Optional), project.optionalDependencies, false, true)
      && HasBuiltGroup(inputs.ctx, s2, s3, inputs.Requested(Dev), project.devDependencies, true, false)
    requires OptionalIsBehind(inputs.ctx, {}, s1) && OptionalIsBehind(inputs.ctx, inputs.Roots(Optional), s3)
    requires lockfile.packages == if s3.packages == map[] then None else Some(s3.packages)
    ensures CanGenerate(inputs) && IsGenerated(inputs, lockfile)
  {
    hide IsAtRest;
    hide Continues;
    hide AllResolve;
    hide StoresRoots;
    hide IsGenerated;
    hide HoldsTheReachable;
    hide HoldsTheEdges;
    hide OptionalIsSound;
    hide OptionalIsLocal;
    hide DevIsExact;
    hide Inputs.IsNeeded;
    hide Inputs.Requested;
    hide OptionalIsBehind;
    PassesOf(inputs, s0, s1, s2, s3, lockfile.projectSnapshot.project);
    FinalFiles(inputs, s3);
    FinalOptional(inputs, s1, s2, s3);
    FinalDev(inputs, s0, s1, s2, s3);
    IsGeneratedFrom(inputs, s3.walked, lockfile);
  }

  lemma IsGeneratedFrom(inputs: Inputs, walked: map<PackageVersion, bool>, lockfile: Lockfile)
    requires CanGenerate(inputs) && lockfile.projectSnapshot.Single?
    requires HoldsTheGroups(inputs, lockfile.projectSnapshot.project) && lockfile.packages != Some(map[])
    requires var packages := OrEmpty(lockfile.packages);
      && HoldsTheReachable(inputs, packages) && HoldsTheEdges(inputs, packages) && DevIsExact(inputs, packages)
      && OptionalIsSound(inputs, packages) && OptionalIsLocal(inputs, packages, walked)
    ensures IsGenerated(inputs, lockfile)
  {
  }

  lemma EdgeOfName(ctx: Context, p: PackageVersion, a: map<PkgNames.PkgName, PackageSnapshotDependency>,
                   b: map<PkgNames.PkgName, PackageSnapshotDependency>, n: PkgNames.PkgName)
    requires StoresEdges(ctx, p, a) && StoresEdges(ctx, p, b) && n in a
    ensures n in b && a[n] == b[n]
  {
    hide EffectiveRange;
    hide Resolve;
    PkgNames.ParsePrint(n);
    var name := PkgNames.Print(n);
    assert NameOf(name) == n;
    hide NameOf;
    hide PkgNames.Parse;
    hide PkgNames.Print;
    hide PkgNames.IsParsed;
    var range := EffectiveRange(p, ctx.config.autoInstallPeers, name);
    assert StoresRange(ctx, a, name, range) && StoresRange(ctx, b, name, range);
  }

  lemma EdgesAreUnique(ctx: Context, p: PackageVersion, a: map<PkgNames.PkgName, PackageSnapshotDependency>,
                       b: map<PkgNames.PkgName, PackageSnapshotDependency>)
    requires StoresEdges(ctx, p, a) && StoresEdges(ctx, p, b)
    ensures a == b
  {
    hide StoresEdges;
    forall n
      ensures n in a ==> n in b && a[n] == b[n]
      ensures n in b ==> n in a
    {
      if n in a { EdgeOfName(ctx, p, a, b, n); }
      if n in b { EdgeOfName(ctx, p, b, a, n); }
    }
  }

  lemma RootOfName(ctx: Context, requests: set<Request>, a: ResolvedDependencyMap, b: ResolvedDependencyMap,
                   n: PkgNames.PkgName)
    requires StoresRoots(ctx, requests, a) && StoresRoots(ctx, requests, b) && n in a
    ensures n in b && a[n] == b[n]
  {
    hide Resolve;
    PkgNames.ParsePrint(n);
    assert NameOf(PkgNames.Print(n)) == n;
    hide NameOf;
    hide PkgNames.Parse;
    hide PkgNames.Print;
    hide PkgNames.IsParsed;
    var e :| e in requests && e.0 == PkgNames.Print(n);
    assert StoresRoot(ctx, a, e) && StoresRoot(ctx, b, e);
  }

  lemma RootsAreUnique(ctx: Context, requests: set<Request>, a: ResolvedDependencyMap, b: ResolvedDependencyMap)
    requires StoresRoots(ctx, requests, a) && StoresRoots(ctx, requests, b)
    ensures a == b
  {
    hide StoresRoots;
    forall n
      ensures n in a ==> n in b && a[n] == b[n]
      ensures n in b ==> n in a
    {
      if n in a { RootOfName(ctx, requests, a, b, n); }
      if n in b { RootOfName(ctx, requests, b, a, n); }
    }
  }

  lemma ProjectsAreUnique(inputs: Inputs, a: ProjectSnapshot, b: ProjectSnapshot)
    requires HoldsTheGroups(inputs, a) && HoldsTheGroups(inputs, b)
    ensures a == b
  {
    hide StoresRoots;
    forall group: DependencyGroup | group != Peer
      ensures a.GetMapByGroup(group) == b.GetMapByGroup(group)
    {
      RootsAreUnique(inputs.ctx, inputs.Requested(group), OrEmpty(a.GetMapByGroup(group)),
        OrEmpty(b.GetMapByGroup(group)));
    }
    assert a.GetMapByGroup(Prod) == b.GetMapByGroup(Prod) && a.GetMapByGroup(Dev) == b.GetMapByGroup(Dev)
        && a.GetMapByGroup(Optional) == b.GetMapByGroup(Optional);
  }

  /** Everything but the optional flags is a function of the inputs: the order in which maps are read cannot show. */
  lemma GenerationIsOrderFree(inputs: Inputs, a: Lockfile, b: Lockfile)
    requires IsGenerated(inputs, a) && IsGenerated(inputs, b)
    ensures a.projectSnapshot == b.projectSnapshot
    ensures OrEmpty(a.packages).Keys == OrEmpty(b.packages).Keys
    ensures forall k :: k in OrEmpty(a.packages) ==>
      OrEmpty(a.packages)[k].(optional := None) == OrEmpty(b.packages)[k].(optional := None)
  {
    hide HoldsTheGroups;
    hide CanGenerate;
    hide OptionalIsLocal;
    hide OptionalIsSound;
    hide Inputs.IsNeeded;
    hide KeyOf;
    hide Versions;
    hide Context.Resolution;
    hide StoresEdges;
    hide Reachable;
    ProjectsAreUnique(inputs, a.projectSnapshot.project, b.projectSnapshot.project);
    var x, y := OrEmpty(a.packages), OrEmpty(b.packages);
    assert forall p :: inputs.IsNeeded(p) ==> KeyOf(p) in x && KeyOf(p) in y;
    forall k | k in x
      ensures k in y && x[k].(optional := None) == y[k].(optional := None)
    {
      var p :| inputs.IsNeeded(p) && KeyOf(p) == k;
      EdgesAreUnique(inputs.ctx, p, OrEmpty(x[k].dependencies), OrEmpty(y[k].dependencies));
    }
    forall k | k in y
      ensures k in x
    {
      var p :| inputs.IsNeeded(p) && KeyOf(p) == k;
    }
  }
}
