/**
 * What the lockfile builder knows part way through its recursive walk of the dependency graph, and why each of its
 * steps keeps that knowledge. The graph may run in circles, so a placeholder is filed before the walk descends, and
 * a package met again only has its flags merged.
 */
module LockfileWalk {
  import opened Wrappers
  import opened PkgVerPeers
  import opened DependencyPaths
  import opened SnapshotReferences
  import opened Graphs
  import opened Registries
  import opened Lockfiles
  import opened DependencyContexts
  import PkgNames

  /**
   * What the walk has done so far. `walked` holds the versions whose walk has begun, each with the optional flag
   * it was walked with; `done` those whose walk has ended; `roots` and `firmRoots` the versions asked for from
   * outside, and those of them asked for as non-optional.
   */
  datatype Progress = Progress(
    packages: Packages,
    walked: map<PackageVersion, bool>,
    done: set<PackageVersion>,
    roots: set<PackageVersion>,
    firmRoots: set<PackageVersion>)

  /** A name and range whose resolved version is filed under that name. */
  predicate StoresEdge(ctx: Context, deps: map<PkgNames.PkgName, PackageSnapshotDependency>, name: string,
                       range: string) {
    && PkgNames.Parse(name).Ok?
    && Resolve(ctx.registry, (name, range)).Some?
    && NameOf(name) in deps
    && deps[NameOf(name)] == PkgVerPeerRef(PkgVerPeer(Resolve(ctx.registry, (name, range)).value.version, ""))
  }

  predicate StoresRange(ctx: Context, deps: map<PkgNames.PkgName, PackageSnapshotDependency>, name: string,
                        range: Option<string>) {
    range.Some? ==> StoresEdge(ctx, deps, name, range.value)
  }

  /** One entry for each name the version depends on, at the version its winning range resolves to. */
  ghost predicate StoresEdges(ctx: Context, p: PackageVersion, deps: map<PkgNames.PkgName, PackageSnapshotDependency>) {
    var peers := ctx.config.autoInstallPeers;
    && (forall name :: StoresRange(ctx, deps, name, EffectiveRange(p, peers, name)))
    && (forall n :: n in deps ==> PkgNames.IsParsed(n) && EffectiveRange(p, peers, PkgNames.Print(n)).Some?)
  }

  ghost predicate StoresListed(ctx: Context, entries: seq<Request>,
                               deps: map<PkgNames.PkgName, PackageSnapshotDependency>) {
    && (forall name :: StoresRange(ctx, deps, name, LastRange(entries, name)))
    && (forall n :: n in deps ==> PkgNames.IsParsed(n) && LastRange(entries, PkgNames.Print(n)).Some?)
  }

  predicate IsFiled(s: Progress, p: PackageVersion) {
    && p in s.walked
    && KeyOf(p) in s.packages
    && s.packages[KeyOf(p)].dev.Some?
    && s.packages[KeyOf(p)].optional.Some?
  }

  predicate DevOf(s: Progress, p: PackageVersion) {
    KeyOf(p) in s.packages && s.packages[KeyOf(p)].dev == Some(true)
  }

  predicate OptionalOf(s: Progress, p: PackageVersion) {
    KeyOf(p) in s.packages && s.packages[KeyOf(p)].optional == Some(true)
  }

  ghost predicate KeysMatch(ctx: Context, s: Progress) {
    && s.walked.Keys <= Versions(ctx.registry)
    && s.packages.Keys == (set p | p in s.walked :: KeyOf(p))
    && forall p :: p in s.walked ==> IsFiled(s, p) && IsSnapshotOf(ctx, p, s.packages[KeyOf(p)])
  }

  predicate IsSnapshotOf(ctx: Context, p: PackageVersion, snapshot: PackageSnapshot) {
    p.integrity.Some? && snapshot.resolution == ctx.Resolution(p) && snapshot.optionalDependencies == None
  }

  /**
   * A reason for the package to be non-optional: asked for so, or a firm edge from a version walked as non-optional.
   */
  ghost predicate HasFirmReason(ctx: Context, s: Progress, p: PackageVersion) {
    p in s.firmRoots || exists q :: q in s.walked && !s.walked[q] && Edge(ctx.Firm(), q, p)
  }

  ghost predicate FlagsJustified(ctx: Context, s: Progress) {
    forall p :: p in s.walked ==>
      && Reachable(ctx.Graph(), s.roots, p)
      && (!s.walked[p] ==> !OptionalOf(s, p))
      && (!OptionalOf(s, p) ==> HasFirmReason(ctx, s, p) && Reachable(ctx.Firm(), s.firmRoots, p))
  }

  /** A version whose walk has ended: every request resolved to a walked version, and the edges are on file. */
  ghost predicate Settled(ctx: Context, s: Progress, p: PackageVersion) {
    && KeyOf(p) in s.packages
    && AllResolve(ctx.registry, ctx.Needs(p))
    && (forall c :: Edge(ctx.Graph(), p, c) ==> c in s.walked)
    && (p in s.walked && !s.walked[p] ==> forall c :: Edge(ctx.Firm(), p, c) ==> !OptionalOf(s, c))
    && s.packages[KeyOf(p)].dependencies != Some(map[])
    && StoresEdges(ctx, p, OrEmpty(s.packages[KeyOf(p)].dependencies))
  }

  ghost predicate Consistent(ctx: Context, s: Progress) {
    && ctx.Valid()
    && KeysMatch(ctx, s)
    && FlagsJustified(ctx, s)
    && s.done <= s.walked.Keys
    && forall p :: p in s.done ==> Settled(ctx, s, p)
  }

  /** What one walk with the given `dev` flag may do to the work of earlier ones. */
  ghost predicate Extends(s: Progress, t: Progress, dev: bool) {
    && s.roots == t.roots && s.firmRoots == t.firmRoots
    && (forall p :: p in s.walked ==> p in t.walked && t.walked[p] == s.walked[p])
    && (forall p :: p in s.walked ==> (p in t.done <==> p in s.done))
    && (forall p :: p in s.walked ==> DevOf(t, p) == DevOf(s, p) || (!dev && !DevOf(t, p)))
    && (forall p :: p in s.walked && OptionalOf(t, p) ==> OptionalOf(s, p))
    && (forall p :: p in t.walked && p !in s.walked ==> p in t.done && DevOf(t, p) == dev)
  }

  lemma ExtendsTransitive(s: Progress, t: Progress, u: Progress, dev: bool)
    requires Extends(s, t, dev) && Extends(t, u, dev)
    ensures Extends(s, u, dev)
  {
  }

  lemma ExtendsReflexive(s: Progress, dev: bool)
    ensures Extends(s, s, dev)
  {
  }

  function MergePackageFlags(snapshot: PackageSnapshot, dev: bool, optional: bool): PackageSnapshot {
    snapshot.(dev := Some((snapshot.dev.None? || snapshot.dev.value) && dev),
              optional := Some((snapshot.optional.None? || snapshot.optional.value) && optional))
  }

  function Placeholder(ctx: Context, p: PackageVersion, dev: bool, optional: bool): PackageSnapshot
    requires p.integrity.Some?
  {
    PackageSnapshot(ctx.Resolution(p), None, None, Some(dev), Some(optional))
  }

  lemma KeyNotWalked(ctx: Context, s: Progress, p: PackageVersion)
    requires ctx.Valid() && KeysMatch(ctx, s) && p in Versions(ctx.registry)
    ensures KeyOf(p) in s.packages <==> p in s.walked
    ensures forall q :: q in s.walked && KeyOf(q) == KeyOf(p) ==> q == p
  {
    hide KeyOf;
    hide Versions;
    hide IsRegistry;
    hide IsSnapshotOf;
    forall q | q in s.walked && KeyOf(q) == KeyOf(p)
      ensures q == p
    {
      KeyInjective(ctx.semver, ctx.registry, p, q);
    }
  }

  lemma KeysKept(ctx: Context, s: Progress, t: Progress, p: PackageVersion, snapshot: PackageSnapshot)
    requires ctx.Valid() && KeysMatch(ctx, s) && p in Versions(ctx.registry)
    requires snapshot.dev.Some? && snapshot.optional.Some? && IsSnapshotOf(ctx, p, snapshot)
    requires t.packages == s.packages[KeyOf(p) := snapshot] && t.walked.Keys == s.walked.Keys + {p}
    ensures KeysMatch(ctx, t)
    ensures forall q :: q in s.walked && q != p ==>
      t.packages[KeyOf(q)] == s.packages[KeyOf(q)] && DevOf(t, q) == DevOf(s, q) && OptionalOf(t, q) == OptionalOf(s, q)
  {
    hide IsSnapshotOf;
    hide KeyOf;
    hide Versions;
    KeyNotWalked(ctx, s, p);
    assert t.packages.Keys == (set q | q in t.walked :: KeyOf(q));
  }

  /** Filing a snapshot leaves every settled version settled, as long as nothing walked becomes optional. */
  lemma SettledKept(ctx: Context, s: Progress, t: Progress, p: PackageVersion)
    requires Settled(ctx, s, p) && p in s.walked && p in t.walked && t.walked[p] == s.walked[p]
    requires s.walked.Keys <= t.walked.Keys
    requires KeyOf(p) in t.packages
    requires t.packages[KeyOf(p)].dependencies == s.packages[KeyOf(p)].dependencies
    requires forall q :: q in s.walked && OptionalOf(t, q) ==> OptionalOf(s, q)
    ensures Settled(ctx, t, p)
  {
    hide StoresEdges;
    hide KeyOf;
    hide OptionalOf;
    FirmEdgeIsEdge(ctx);
    hide Context.Graph;
    hide Context.Firm;
  }

  /** Flags stay justified when whatever became non-optional has a reason. */
  lemma FlagsKept(ctx: Context, s: Progress, t: Progress, p: PackageVersion)
    requires FlagsJustified(ctx, s)
    requires s.roots == t.roots && s.firmRoots == t.firmRoots
    requires t.walked.Keys == s.walked.Keys + {p}
    requires forall q :: q in s.walked ==> t.walked[q] == s.walked[q]
    requires forall q :: q in s.walked && q != p ==> OptionalOf(t, q) == OptionalOf(s, q)
    requires Reachable(ctx.Graph(), s.roots, p)
    requires !t.walked[p] ==> !OptionalOf(t, p)
    requires !OptionalOf(t, p) ==> HasFirmReason(ctx, s, p) && Reachable(ctx.Firm(), s.firmRoots, p)
    ensures FlagsJustified(ctx, t)
  {
    hide OptionalOf;
    hide Reachable;
    hide Context.Graph;
    hide Context.Firm;
    forall q | HasFirmReason(ctx, s, q)
      ensures HasFirmReason(ctx, t, q)
    {
    }
  }

  /** Filing a snapshot, new or changed, whose flags have their reasons. */
  lemma FileKeeps(ctx: Context, s: Progress, t: Progress, p: PackageVersion, snapshot: PackageSnapshot)
    requires Consistent(ctx, s) && p in Versions(ctx.registry)
    requires snapshot.dev.Some? && snapshot.optional.Some? && IsSnapshotOf(ctx, p, snapshot)
    requires t.packages == s.packages[KeyOf(p) := snapshot] && t.walked.Keys == s.walked.Keys + {p}
    requires t.done == s.done && t.roots == s.roots && t.firmRoots == s.firmRoots
    requires forall q :: q in s.walked ==> t.walked[q] == s.walked[q]
    requires p in s.done ==> snapshot.dependencies == s.packages[KeyOf(p)].dependencies
    requires p in s.walked && snapshot.optional.value ==> OptionalOf(s, p)
    requires Reachable(ctx.Graph(), s.roots, p)
    requires snapshot.optional.value ==> t.walked[p]
    requires !snapshot.optional.value ==> HasFirmReason(ctx, s, p) && Reachable(ctx.Firm(), s.firmRoots, p)
    ensures Consistent(ctx, t)
    ensures DevOf(t, p) == snapshot.dev.value && OptionalOf(t, p) == snapshot.optional.value
    ensures forall q :: q in s.walked && q != p ==> DevOf(t, q) == DevOf(s, q) && OptionalOf(t, q) == OptionalOf(s, q)
  {
    hide Versions;
    hide IsRegistry;
    hide Settled;
    hide HasFirmReason;
    hide Reachable;
    hide Context.Graph;
    hide Context.Firm;
    hide IsSnapshotOf;
    hide KeyOf;
    KeysKept(ctx, s, t, p, snapshot);
    assert OptionalOf(t, p) == snapshot.optional.value && DevOf(t, p) == snapshot.dev.value;
    hide OptionalOf;
    FlagsKept(ctx, s, t, p);
    AllSettledKept(ctx, s, t, p);
  }

  lemma AllSettledKept(ctx: Context, s: Progress, t: Progress, p: PackageVersion)
    requires KeysMatch(ctx, s) && KeysMatch(ctx, t) && s.done <= s.walked.Keys <= t.walked.Keys
    requires forall q :: q in s.walked ==> t.walked[q] == s.walked[q]
    requires forall q :: q in s.walked && q != p ==> t.packages[KeyOf(q)] == s.packages[KeyOf(q)]
    requires p in s.done ==> t.packages[KeyOf(p)].dependencies == s.packages[KeyOf(p)].dependencies
    requires forall q :: q in s.walked && OptionalOf(t, q) ==> OptionalOf(s, q)
    requires forall q :: q in s.done ==> Settled(ctx, s, q)
    ensures forall q :: q in s.done ==> Settled(ctx, t, q)
  {
    hide Versions;
    hide Settled;
    hide OptionalOf;
    hide KeyOf;
    hide IsSnapshotOf;
    forall q | q in s.done
      ensures Settled(ctx, t, q)
    {
      assert IsFiled(t, q);
      SettledKept(ctx, s, t, q);
    }
  }

  /** What is on file for a version whose walk has begun. */
  lemma FiledFacts(ctx: Context, s: Progress, p: PackageVersion)
    requires Consistent(ctx, s) && p in s.walked
    ensures p in Versions(ctx.registry) && KeyOf(p) in s.packages && Reachable(ctx.Graph(), s.roots, p)
    ensures var snapshot := s.packages[KeyOf(p)];
      && IsSnapshotOf(ctx, p, snapshot)
      && snapshot.dev == Some(DevOf(s, p)) && snapshot.optional == Some(OptionalOf(s, p))
    ensures !s.walked[p] ==> !OptionalOf(s, p)
    ensures !OptionalOf(s, p) ==> HasFirmReason(ctx, s, p) && Reachable(ctx.Firm(), s.firmRoots, p)
  {
    hide Versions;
    hide IsRegistry;
    hide Settled;
    hide HasFirmReason;
    hide Reachable;
    hide Context.Graph;
    hide Context.Firm;
    hide IsSnapshotOf;
    hide KeyOf;
    assert IsFiled(s, p);
    assert OptionalOf(s, p) == s.packages[KeyOf(p)].optional.value;
    assert DevOf(s, p) == s.packages[KeyOf(p)].dev.value;
  }

  /** Meeting a package again. */
  lemma MergeKeeps(ctx: Context, s: Progress, p: PackageVersion, dev: bool, optional: bool) returns (t: Progress)
    requires Consistent(ctx, s) && p in s.walked
    requires optional || (HasFirmReason(ctx, s, p) && Reachable(ctx.Firm(), s.firmRoots, p))
    ensures t == s.(packages := s.packages[KeyOf(p) := MergePackageFlags(s.packages[KeyOf(p)], dev, optional)])
    ensures Consistent(ctx, t) && Extends(s, t, dev)
    ensures DevOf(t, p) == (DevOf(s, p) && dev) && OptionalOf(t, p) == (OptionalOf(s, p) && optional)
  {
    hide Versions;
    hide Consistent;
    hide HasFirmReason;
    hide Reachable;
    hide Context.Graph;
    hide Context.Firm;
    hide Context.Resolution;
    hide KeyOf;
    FiledFacts(ctx, s, p);
    var snapshot := MergePackageFlags(s.packages[KeyOf(p)], dev, optional);
    t := s.(packages := s.packages[KeyOf(p) := snapshot]);
    FileKeeps(ctx, s, t, p, snapshot);
  }

  /** Filing the placeholder. */
  lemma PlaceholderKeeps(ctx: Context, s: Progress, p: PackageVersion, dev: bool, optional: bool) returns (t: Progress)
    requires Consistent(ctx, s) && p in Versions(ctx.registry) && p !in s.walked && p.integrity.Some?
    requires Reachable(ctx.Graph(), s.roots, p)
    requires optional || (HasFirmReason(ctx, s, p) && Reachable(ctx.Firm(), s.firmRoots, p))
    ensures t == s.(
      packages := s.packages[KeyOf(p) := Placeholder(ctx, p, dev, optional)], walked := s.walked[p := optional])
    ensures Consistent(ctx, t)
    ensures DevOf(t, p) == dev && OptionalOf(t, p) == optional && p !in t.done
    ensures forall q :: q in s.walked ==> DevOf(t, q) == DevOf(s, q) && OptionalOf(t, q) == OptionalOf(s, q)
  {
    hide Versions;
    hide IsRegistry;
    hide KeysMatch;
    hide FlagsJustified;
    hide Settled;
    hide Reachable;
    hide HasFirmReason;
    hide Context.Graph;
    hide Context.Firm;
    hide Context.Resolution;
    hide KeyOf;
    var snapshot := Placeholder(ctx, p, dev, optional);
    t := s.(packages := s.packages[KeyOf(p) := snapshot], walked := s.walked[p := optional]);
    assert IsSnapshotOf(ctx, p, snapshot);
    FileKeeps(ctx, s, t, p, snapshot);
  }

  /** Recording the edges once every dependency has been walked. */
  lemma FinishKeeps(ctx: Context, s: Progress, p: PackageVersion,
                    deps: map<PkgNames.PkgName, PackageSnapshotDependency>,
                    snapshot: PackageSnapshot, dev: bool, optional: bool) returns (t: Progress)
    requires Consistent(ctx, s) && p in s.walked && p !in s.done && s.walked[p] == optional
    requires AllResolve(ctx.registry, ctx.Needs(p)) && StoresEdges(ctx, p, deps)
    requires forall c :: Edge(ctx.Graph(), p, c) ==> c in s.walked
    requires !optional ==> forall c :: Edge(ctx.Firm(), p, c) ==> !OptionalOf(s, c)
    requires snapshot == s.packages[KeyOf(p)].(dependencies := if deps == map[] then None else Some(deps))
    ensures t == s.(
      packages := s.packages[KeyOf(p) := MergePackageFlags(snapshot, dev, optional)], done := s.done + {p})
    ensures Consistent(ctx, t)
    ensures DevOf(t, p) == (DevOf(s, p) && dev) && OptionalOf(t, p) == (OptionalOf(s, p) && optional)
    ensures forall q :: q in s.walked && q != p ==> DevOf(t, q) == DevOf(s, q) && OptionalOf(t, q) == OptionalOf(s, q)
  {
    hide Versions;
    hide Consistent;
    hide HasFirmReason;
    hide Reachable;
    hide AllResolve;
    hide StoresEdges;
    hide Context.Graph;
    hide Context.Firm;
    hide Context.Resolution;
    hide KeyOf;
    FiledFacts(ctx, s, p);
    var merged := MergePackageFlags(snapshot, dev, optional);
    var u := s.(packages := s.packages[KeyOf(p) := merged]);
    FileKeeps(ctx, s, u, p, merged);
    t := u.(done := s.done + {p});
    assert OrEmpty(merged.dependencies) == deps;
    FirmEdgeIsEdge(ctx);
    MarkDone(ctx, u, t, p);
  }

  lemma RootFlags(ctx: Context, s: Progress, t: Progress)
    requires FlagsJustified(ctx, s)
    requires t.packages == s.packages && t.walked == s.walked && s.roots <= t.roots && s.firmRoots <= t.firmRoots
    ensures FlagsJustified(ctx, t)
  {
    ReachMonotone(ctx.Graph(), s.roots, t.roots);
    ReachMonotone(ctx.Firm(), s.firmRoots, t.firmRoots);
    hide Reachable;
    hide KeyOf;
    hide Context.Graph;
    hide Context.Firm;
    forall q | q in s.walked
      ensures HasFirmReason(ctx, s, q) ==> HasFirmReason(ctx, t, q)
    {
    }
  }

  lemma SameFiles(ctx: Context, s: Progress, t: Progress)
    requires KeysMatch(ctx, s) && t.packages == s.packages && t.walked == s.walked
    ensures KeysMatch(ctx, t)
  {
    hide IsSnapshotOf;
    hide Versions;
    hide KeyOf;
    forall p | p in t.walked
      ensures IsFiled(t, p)
    {
      assert IsFiled(s, p);
    }
  }

  lemma SettledAlike(ctx: Context, s: Progress, t: Progress, p: PackageVersion)
    requires Settled(ctx, s, p) && t.packages == s.packages && t.walked == s.walked
    ensures Settled(ctx, t, p)
  {
    hide StoresEdges;
    hide AllResolve;
    hide KeyOf;
    hide Context.Graph;
    hide Context.Firm;
  }

  lemma MarkDone(ctx: Context, s: Progress, t: Progress, p: PackageVersion)
    requires Consistent(ctx, s) && p in s.walked
    requires t == s.(done := s.done + {p}) && Settled(ctx, s, p)
    ensures Consistent(ctx, t)
  {
    hide FlagsJustified;
    hide KeysMatch;
    hide Settled;
    hide IsRegistry;
    RootFlags(ctx, s, t);
    SameFiles(ctx, s, t);
    forall q | q in t.done
      ensures Settled(ctx, t, q)
    {
      SettledAlike(ctx, s, t, q);
    }
  }

  /** The requests looked at so far have been resolved and walked, the firm ones of a firm walk as non-optional. */
  ghost predicate ChildrenWalked(ctx: Context, s: Progress, p: PackageVersion, entries: seq<Request>) {
    p in s.walked && forall e | e in entries ::
      var child := Resolve(ctx.registry, e);
      && child.Some? && child.value in s.walked
      && (!s.walked[p] && e.0 !in p.optionalDependencies ==> !OptionalOf(s, child.value))
  }

  lemma LastRangeStep(entries: seq<Request>, i: nat, name: string)
    requires i < |entries|
    ensures LastRange(entries[..i + 1], name) ==
      if entries[i].0 == name then Some(entries[i].1) else LastRange(entries[..i], name)
  {
    assert entries[..i + 1][..i] == entries[..i];
  }

  lemma StoreRangeStep(ctx: Context, deps: map<PkgNames.PkgName, PackageSnapshotDependency>,
                       e: Request, c: PackageVersion, name: string, range: Option<string>)
    requires Resolve(ctx.registry, e) == Some(c) && PkgNames.Parse(e.0).Ok?
    requires StoresRange(ctx, deps, name, range)
    ensures StoresRange(ctx, deps[NameOf(e.0) := PkgVerPeerRef(PkgVerPeer(c.version, ""))], name,
                        if e.0 == name then Some(e.1) else range)
  {
    hide Resolve;
    if name != e.0 && PkgNames.Parse(name).Ok? && NameOf(name) == NameOf(e.0) {
      NameOfInjective(name, e.0);
    }
    assert e == (e.0, e.1);
  }

  lemma StoreStep(ctx: Context, entries: seq<Request>, i: nat, c: PackageVersion,
                  deps: map<PkgNames.PkgName, PackageSnapshotDependency>)
    requires i < |entries| && StoresListed(ctx, entries[..i], deps)
    requires Resolve(ctx.registry, entries[i]) == Some(c) && PkgNames.Parse(entries[i].0).Ok?
    ensures StoresListed(ctx, entries[..i + 1], deps[NameOf(entries[i].0) := PkgVerPeerRef(PkgVerPeer(c.version, ""))])
  {
    var name := entries[i].0;
    var after := deps[NameOf(name) := PkgVerPeerRef(PkgVerPeer(c.version, ""))];
    var listed := entries[..i + 1];
    PkgNames.PrintParse(name);
    assert PkgNames.IsParsed(NameOf(name)) && PkgNames.Print(NameOf(name)) == name;
    hide Resolve;
    hide LastRange;
    hide StoresRange;
    hide NameOf;
    hide PkgNames.Parse;
    hide PkgNames.Print;
    hide PkgNames.IsParsed;
    forall other: string
      ensures StoresRange(ctx, after, other, LastRange(listed, other))
    {
      LastRangeStep(entries, i, other);
      StoreRangeStep(ctx, deps, entries[i], c, other, LastRange(entries[..i], other));
    }
    forall n | n in after
      ensures PkgNames.IsParsed(n) && LastRange(listed, PkgNames.Print(n)).Some?
    {
      LastRangeStep(entries, i, PkgNames.Print(n));
    }
  }

  lemma ListingStored(ctx: Context, p: PackageVersion, entries: seq<Request>,
                      deps: map<PkgNames.PkgName, PackageSnapshotDependency>)
    requires ListsDependencies(p, ctx.config.autoInstallPeers, entries)
    requires StoresListed(ctx, entries, deps)
    ensures StoresEdges(ctx, p, deps)
  {
    ListingIsOrderFree(p, ctx.config.autoInstallPeers, entries);
    hide ListsDependencies;
    hide LastRange;
    hide EffectiveRange;
    hide StoresRange;
    hide PkgNames.IsParsed;
    hide PkgNames.Print;
    hide Requests;
  }

  /** Once every listed request is done, the package meets all that a settled one must. */
  lemma ListingDone(ctx: Context, s: Progress, p: PackageVersion, entries: seq<Request>)
    requires ListsDependencies(p, ctx.config.autoInstallPeers, entries)
    requires ChildrenWalked(ctx, s, p, entries)
    ensures AllResolve(ctx.registry, ctx.Needs(p))
    ensures forall c :: Edge(ctx.Graph(), p, c) ==> c in s.walked
    ensures !s.walked[p] ==> forall c :: Edge(ctx.Firm(), p, c) ==> !OptionalOf(s, c)
  {
    ListingIsOrderFree(p, ctx.config.autoInstallPeers, entries);
    hide ListsDependencies;
    hide OptionalOf;
    hide Resolve;
    hide LastRange;
    hide EffectiveRange;
    hide Requests;
  }

  /** A request that cannot be met, made by the manifest or by something the manifest leads to. */
  ghost predicate IsUnmet(ctx: Context, roots: set<PackageVersion>, e: Request) {
    Resolve(ctx.registry, e).None? && exists p :: Reachable(ctx.Graph(), roots, p) && e in ctx.Needs(p)
  }

  /** The walk of one package, from the state before the placeholder to the state after the edges are on file. */
  lemma WalkExtends(s: Progress, placed: Progress, walked: Progress, t: Progress, p: PackageVersion, dev: bool,
                    optional: bool)
    requires p !in s.walked && placed.walked == s.walked[p := optional]
    requires s.roots == placed.roots && s.firmRoots == placed.firmRoots && s.done == placed.done && p !in placed.done
    requires DevOf(placed, p) == dev
    requires forall q :: q in s.walked ==> DevOf(placed, q) == DevOf(s, q) && OptionalOf(placed, q) == OptionalOf(s, q)
    requires Extends(placed, walked, dev)
    requires t.walked == walked.walked && t.done == walked.done + {p} && t.roots == walked.roots
    requires t.firmRoots == walked.firmRoots
    requires DevOf(t, p) == (DevOf(walked, p) && dev)
    requires forall q :: q in walked.walked && q != p ==>
      DevOf(t, q) == DevOf(walked, q) && OptionalOf(t, q) == OptionalOf(walked, q)
    ensures Extends(s, t, dev) && DevOf(t, p) == dev
  {
    hide DevOf;
    hide OptionalOf;
  }

  lemma PackageFacts(ctx: Context, s: Progress, p: PackageVersion)
    requires Consistent(ctx, s) && p in Versions(ctx.registry)
    ensures IsPublished(ctx.semver, p) && p.integrity.Some?
    ensures DependencyPath(None, PackageSpecifier(ctx.semver, p)) == KeyOf(p)
    ensures KeyOf(p) in s.packages <==> p in s.walked
    ensures s.walked.Keys <= Versions(ctx.registry) && s.done <= s.walked.Keys
  {
    SpecifierIsKey(ctx.semver, p);
    KeyNotWalked(ctx, s, p);
  }

  /** A child may be walked next: it is reachable, and non-optional only for a reason. */
  lemma ChildMayBeWalked(ctx: Context, s: Progress, p: PackageVersion, e: Request, childOptional: bool)
    requires Consistent(ctx, s) && p in s.walked
    requires e in ctx.Needs(p) && Resolve(ctx.registry, e).Some?
    requires childOptional == (s.walked[p] || e.0 in p.optionalDependencies)
    ensures var c := Resolve(ctx.registry, e).value;
      && c in Versions(ctx.registry) && c.name == e.0 && IsPublished(ctx.semver, c)
      && Reachable(ctx.Graph(), s.roots, c)
      && (childOptional || (HasFirmReason(ctx, s, c) && Reachable(ctx.Firm(), s.firmRoots, c)))
  {
    RequestIsEdge(ctx, p, e);
    hide Versions;
    hide Context.Graph;
    hide Context.Firm;
    hide Reachable;
    hide Settled;
    hide KeyOf;
    hide OptionalOf;
    hide Resolve;
    hide Requests;
    hide IsPublished;
    var c := Resolve(ctx.registry, e).value;
    ReachStep(ctx.Graph(), s.roots, p, c);
    if !childOptional {
      ReachStep(ctx.Firm(), s.firmRoots, p, c);
    }
  }

  lemma ChildrenStep(ctx: Context, s: Progress, t: Progress, p: PackageVersion, entries: seq<Request>, i: nat,
                     dev: bool)
    requires i < |entries| && ChildrenWalked(ctx, s, p, entries[..i]) && Extends(s, t, dev)
    requires Resolve(ctx.registry, entries[i]).Some?
    requires Resolve(ctx.registry, entries[i]).value in t.walked
    requires !s.walked[p] && entries[i].0 !in p.optionalDependencies ==>
      !OptionalOf(t, Resolve(ctx.registry, entries[i]).value)
    ensures ChildrenWalked(ctx, t, p, entries[..i + 1])
  {
    hide Resolve;
    hide OptionalOf;
    hide DevOf;
    assert entries[..i + 1] == entries[..i] + [entries[i]];
  }

  lemma NothingListed(ctx: Context, s: Progress, p: PackageVersion)
    requires p in s.walked
    ensures ChildrenWalked(ctx, s, p, []) && StoresListed(ctx, [], map[])
  {
  }

  /** Each version walked leaves fewer to walk. */
  lemma FewerLeft(ctx: Context, s: Progress, t: Progress, u: Progress, p: PackageVersion, dev: bool)
    requires p in Versions(ctx.registry) && p !in s.walked && t.walked.Keys == s.walked.Keys + {p}
    requires Extends(t, u, dev)
    ensures |Versions(ctx.registry) - u.walked.Keys| < |Versions(ctx.registry) - s.walked.Keys|
  {
    hide Versions;
    var rest := Versions(ctx.registry) - s.walked.Keys;
    assert Versions(ctx.registry) - u.walked.Keys <= rest - {p};
    Smaller(Versions(ctx.registry) - u.walked.Keys, rest - {p});
  }

  lemma IsUnmetNow(ctx: Context, roots: set<PackageVersion>, p: PackageVersion, e: Request)
    requires Resolve(ctx.registry, e).None? && Reachable(ctx.Graph(), roots, p) && e in ctx.Needs(p)
    ensures IsUnmet(ctx, roots, e)
  {
  }

  lemma ExtendsShape(s: Progress, t: Progress, dev: bool)
    requires Extends(s, t, dev)
    ensures s.roots == t.roots && s.firmRoots == t.firmRoots
    ensures forall p :: p in s.walked ==> p in t.walked && t.walked[p] == s.walked[p] && (p in t.done <==> p in s.done)
  {
  }

  lemma ChildName(ctx: Context, c: PackageVersion)
    requires IsPublished(ctx.semver, c)
    ensures PkgNames.Parse(c.name) == Ok(NameOf(c.name))
    ensures PackageSpecifier(ctx.semver, c).suffix == PkgVerPeer(c.version, "")
  {
    SpecifierIsKey(ctx.semver, c);
  }

  /** A package may be walked: it is needed, and non-optional only for a reason. */
  ghost predicate MayWalk(ctx: Context, s: Progress, p: PackageVersion, optional: bool) {
    && p in Versions(ctx.registry)
    && Reachable(ctx.Graph(), s.roots, p)
    && (optional || (HasFirmReason(ctx, s, p) && Reachable(ctx.Firm(), s.firmRoots, p)))
  }

  /** What walking a package has changed: its own flags, and everything its dependencies led to. */
  ghost predicate HasWalked(ctx: Context, s: Progress, t: Progress, p: PackageVersion, dev: bool, optional: bool) {
    && Consistent(ctx, t) && p in t.walked && Extends(s, t, dev)
    && DevOf(t, p) == (dev && (p in s.walked ==> DevOf(s, p)))
    && (p in s.walked ==> OptionalOf(t, p) == (optional && OptionalOf(s, p)))
    && (p !in s.walked && optional ==> t.walked[p])
    && (!optional ==> !OptionalOf(t, p))
  }

  /** Where the walk of a package stands after its first dependencies. */
  ghost predicate IsWalking(ctx: Context, before: Progress, placed: Progress, s: Progress, p: PackageVersion,
                            entries: seq<Request>, deps: map<PkgNames.PkgName, PackageSnapshotDependency>, i: nat,
                            dev: bool, optional: bool)
  {
    && i <= |entries|
    && p in Versions(ctx.registry) && p !in before.walked
    && placed.walked == before.walked[p := optional] && placed.done == before.done
    && placed.roots == before.roots && placed.firmRoots == before.firmRoots
    && p !in placed.done && DevOf(placed, p) == dev && OptionalOf(placed, p) == optional
    && (forall q :: q in before.walked ==>
          DevOf(placed, q) == DevOf(before, q) && OptionalOf(placed, q) == OptionalOf(before, q))
    && Reachable(ctx.Graph(), before.roots, p)
    && Consistent(ctx, s) && Extends(placed, s, dev)
    && ListsDependencies(p, ctx.config.autoInstallPeers, entries)
    && ChildrenWalked(ctx, s, p, entries[..i])
    && StoresListed(ctx, entries[..i], deps)
  }

  lemma MayWalkFacts(ctx: Context, s: Progress, p: PackageVersion, optional: bool)
    requires Consistent(ctx, s) && MayWalk(ctx, s, p, optional)
    ensures IsPublished(ctx.semver, p) && p.integrity.Some?
    ensures DependencyPath(None, PackageSpecifier(ctx.semver, p)) == KeyOf(p)
    ensures KeyOf(p) in s.packages <==> p in s.walked
  {
    PackageFacts(ctx, s, p);
  }

  lemma MergeWalk(ctx: Context, s: Progress, p: PackageVersion, dev: bool, optional: bool) returns (t: Progress)
    requires Consistent(ctx, s) && p in s.walked && MayWalk(ctx, s, p, optional)
    ensures KeyOf(p) in s.packages
    ensures t.packages == s.packages[KeyOf(p) := MergePackageFlags(s.packages[KeyOf(p)], dev, optional)]
    ensures t.walked == s.walked && t.roots == s.roots
    ensures HasWalked(ctx, s, t, p, dev, optional)
  {
    PackageFacts(ctx, s, p);
    hide Versions;
    hide Reachable;
    hide HasFirmReason;
    hide Consistent;
    hide DevOf;
    hide OptionalOf;
    hide Extends;
    hide KeyOf;
    t := MergeKeeps(ctx, s, p, dev, optional);
    ExtendsShape(s, t, dev);
  }

  lemma StartWalking(ctx: Context, before: Progress, p: PackageVersion, entries: seq<Request>, dev: bool,
                     optional: bool)
    returns (placed: Progress)
    requires Consistent(ctx, before) && MayWalk(ctx, before, p, optional) && p !in before.walked && p.integrity.Some?
    requires ListsDependencies(p, ctx.config.autoInstallPeers, entries)
    ensures placed.packages == before.packages[KeyOf(p) := Placeholder(ctx, p, dev, optional)]
    ensures placed.walked == before.walked[p := optional] && placed.roots == before.roots
    ensures IsWalking(ctx, before, placed, placed, p, entries, map[], 0, dev, optional)
  {
    hide Consistent;
    hide Versions;
    hide Reachable;
    hide HasFirmReason;
    hide ListsDependencies;
    hide DevOf;
    hide OptionalOf;
    hide Extends;
    hide ChildrenWalked;
    hide StoresListed;
    hide Placeholder;
    hide KeyOf;
    placed := PlaceholderKeeps(ctx, before, p, dev, optional);
    ExtendsReflexive(placed, dev);
    NothingListed(ctx, placed, p);
    assert entries[..0] == [];
  }

  /** Before a dependency is walked: either its request cannot be met, or all that walking it asks for holds. */
  lemma BeforeChild(ctx: Context, before: Progress, placed: Progress, s: Progress, p: PackageVersion,
                    entries: seq<Request>, deps: map<PkgNames.PkgName, PackageSnapshotDependency>, i: nat,
                    dev: bool, optional: bool)
    requires IsWalking(ctx, before, placed, s, p, entries, deps, i, dev, optional) && i < |entries|
    ensures var resolved := Resolve(ctx.registry, entries[i]);
      if resolved.None? then IsUnmet(ctx, before.roots, entries[i])
      else
        var c := resolved.value;
        var childOptional := optional || entries[i].0 in p.optionalDependencies;
        && IsPublished(ctx.semver, c) && Consistent(ctx, s) && MayWalk(ctx, s, c, childOptional)
        && s.roots == before.roots && p in Versions(ctx.registry) && Reachable(ctx.Graph(), before.roots, p)
        && ListsDependencies(p, ctx.config.autoInstallPeers, entries)
        && PkgNames.Parse(entries[i].0) == Ok(NameOf(entries[i].0))
        && StoresListed(ctx, entries[..i + 1],
             deps[NameOf(entries[i].0) := PkgVerPeerRef(PackageSpecifier(ctx.semver, c).suffix)])
        && |Versions(ctx.registry) - s.walked.Keys| < |Versions(ctx.registry) - before.walked.Keys|
  {
    hide Versions;
    hide IsRegistry;
    hide IsPublished;
    hide Resolve;
    hide Requests;
    hide Context.Graph;
    hide Context.Firm;
    hide Context.Needs;
    hide Reachable;
    hide HasFirmReason;
    hide Consistent;
    hide KeyOf;
    hide DevOf;
    hide OptionalOf;
    hide Extends;
    hide StoresListed;
    hide ListsDependencies;
    hide NameOf;
    hide PkgNames.Parse;
    hide PackageSpecifier;
    ExtendsShape(placed, s, dev);
    ListedIsNeeded(ctx, p, entries);
    var resolved := Resolve(ctx.registry, entries[i]);
    if resolved.None? {
      IsUnmetNow(ctx, before.roots, p, entries[i]);
    } else {
      ChildMayBeWalked(ctx, s, p, entries[i], optional || entries[i].0 in p.optionalDependencies);
      ChildName(ctx, resolved.value);
      StoreStep(ctx, entries, i, resolved.value, deps);
      FewerLeft(ctx, before, placed, s, p, dev);
    }
  }

  /** After a dependency has been walked. */
  lemma AfterChild(ctx: Context, before: Progress, placed: Progress, s: Progress, t: Progress, p: PackageVersion,
                   entries: seq<Request>, deps: map<PkgNames.PkgName, PackageSnapshotDependency>,
                   more: map<PkgNames.PkgName, PackageSnapshotDependency>, i: nat, dev: bool, optional: bool)
    requires IsWalking(ctx, before, placed, s, p, entries, deps, i, dev, optional) && i < |entries|
    requires Resolve(ctx.registry, entries[i]).Some?
    requires var childOptional := optional || entries[i].0 in p.optionalDependencies;
      HasWalked(ctx, s, t, Resolve(ctx.registry, entries[i]).value, dev, childOptional)
    requires StoresListed(ctx, entries[..i + 1], more)
    ensures IsWalking(ctx, before, placed, t, p, entries, more, i + 1, dev, optional)
  {
    hide Versions;
    hide Resolve;
    hide Reachable;
    hide Consistent;
    hide DevOf;
    hide OptionalOf;
    hide Extends;
    hide ChildrenWalked;
    hide StoresListed;
    hide ListsDependencies;
    ExtendsShape(placed, s, dev);
    ExtendsTransitive(placed, s, t, dev);
    ChildrenStep(ctx, s, t, p, entries, i, dev);
  }

  lemma FinishWalk(ctx: Context, before: Progress, placed: Progress, s: Progress, p: PackageVersion,
                   entries: seq<Request>, deps: map<PkgNames.PkgName, PackageSnapshotDependency>,
                   dev: bool, optional: bool) returns (t: Progress)
    requires IsWalking(ctx, before, placed, s, p, entries, deps, |entries|, dev, optional)
    ensures KeyOf(p) in s.packages
    ensures t.packages == s.packages[KeyOf(p) := MergePackageFlags(
      s.packages[KeyOf(p)].(dependencies := if deps == map[] then None else Some(deps)), dev, optional)]
    ensures t.walked == s.walked && t.roots == s.roots
    ensures HasWalked(ctx, before, t, p, dev, optional)
  {
    hide Versions;
    hide Reachable;
    hide Consistent;
    hide DevOf;
    hide OptionalOf;
    hide Extends;
    hide ChildrenWalked;
    hide StoresListed;
    hide ListsDependencies;
    hide AllResolve;
    hide StoresEdges;
    hide KeyOf;
    hide MergePackageFlags;
    hide Context.Graph;
    hide Context.Firm;
    assert entries[..|entries|] == entries;
    ExtendsShape(placed, s, dev);
    ListingDone(ctx, s, p, entries);
    ListingStored(ctx, p, entries, deps);
    PackageFacts(ctx, s, p);
    var snapshot := s.packages[KeyOf(p)].(dependencies := if deps == map[] then None else Some(deps));
    t := FinishKeeps(ctx, s, p, deps, snapshot, dev, optional);
    WalkExtends(before, placed, s, t, p, dev, optional);
  }

  /** The packages one enabled group of the manifest asks for. */
  function RootRequests(manifest: Manifest, groups: seq<DependencyGroup>, group: DependencyGroup): set<Request> {
    if group in groups then manifest.Group(group).Items else {}
  }

  /** One direct dependency as the lockfile records it: the range asked for and the version picked. */
  predicate StoresRoot(ctx: Context, stored: ResolvedDependencyMap, e: Request) {
    && PkgNames.Parse(e.0).Ok?
    && Resolve(ctx.registry, e).Some?
    && NameOf(e.0) in stored
    && stored[NameOf(e.0)] == ResolvedDependencySpec(e.1, PkgVerPeer(Resolve(ctx.registry, e).value.version, ""))
  }

  ghost predicate StoresRoots(ctx: Context, requests: set<Request>, stored: ResolvedDependencyMap) {
    && (forall e :: e in requests ==> StoresRoot(ctx, stored, e))
    && (forall n :: n in stored ==> PkgNames.IsParsed(n) && exists e :: e in requests && e.0 == PkgNames.Print(n))
  }

  lemma StoreRootOne(ctx: Context, stored: ResolvedDependencyMap, e: Request, c: PackageVersion, f: Request)
    requires Resolve(ctx.registry, e) == Some(c) && PkgNames.Parse(e.0).Ok?
    requires f == e || (f.0 != e.0 && StoresRoot(ctx, stored, f))
    ensures StoresRoot(ctx, stored[NameOf(e.0) := ResolvedDependencySpec(e.1, PkgVerPeer(c.version, ""))], f)
  {
    hide Resolve;
    if f != e && NameOf(f.0) == NameOf(e.0) {
      NameOfInjective(f.0, e.0);
    }
  }

  lemma StoreRootStep(ctx: Context, requests: set<Request>, e: Request, c: PackageVersion,
                      stored: ResolvedDependencyMap)
    requires StoresRoots(ctx, requests, stored)
    requires forall f :: f in requests ==> f.0 != e.0
    requires Resolve(ctx.registry, e) == Some(c) && PkgNames.Parse(e.0).Ok?
    ensures var spec := ResolvedDependencySpec(e.1, PkgVerPeer(c.version, ""));
      StoresRoots(ctx, requests + {e}, stored[NameOf(e.0) := spec])
  {
    PkgNames.PrintParse(e.0);
    assert PkgNames.IsParsed(NameOf(e.0)) && PkgNames.Print(NameOf(e.0)) == e.0;
    hide Resolve;
    hide NameOf;
    hide StoresRoot;
    hide PkgNames.Parse;
    hide PkgNames.Print;
    hide PkgNames.IsParsed;
    var after := stored[NameOf(e.0) := ResolvedDependencySpec(e.1, PkgVerPeer(c.version, ""))];
    forall f | f in requests + {e}
      ensures StoresRoot(ctx, after, f)
    {
      StoreRootOne(ctx, stored, e, c, f);
    }
    assert e in requests + {e};
    forall n | n in after
      ensures PkgNames.IsParsed(n) && exists f :: f in requests + {e} && f.0 == PkgNames.Print(n)
    {
      if n != NameOf(e.0) {
        var f :| f in requests && f.0 == PkgNames.Print(n);
        assert f in requests + {e};
      }
    }
  }

  /** Between roots: nothing is left half done, and every package asked for so far is on file. */
  ghost predicate IsAtRest(ctx: Context, s: Progress) {
    && Consistent(ctx, s)
    && s.done == s.walked.Keys
    && s.roots <= s.walked.Keys
    && s.firmRoots <= s.roots
    && forall p :: p in s.firmRoots ==> !OptionalOf(s, p)
  }

  /** Like `Extends`, but new roots may have been asked for. */
  ghost predicate Continues(s: Progress, t: Progress, dev: bool) {
    && s.roots <= t.roots && s.firmRoots <= t.firmRoots
    && Extends(s.(roots := t.roots, firmRoots := t.firmRoots), t, dev)
  }

  function WithRoot(s: Progress, p: PackageVersion, optional: bool): Progress {
    s.(roots := s.roots + {p}, firmRoots := s.firmRoots + if optional then {} else {p})
  }

  lemma WithRootFiles(s: Progress, p: PackageVersion, optional: bool)
    ensures WithRoot(s, p, optional).packages == s.packages
  {
  }

  /** More roots take nothing away from what is on file. */
  lemma RootKeeps(ctx: Context, s: Progress, t: Progress)
    requires Consistent(ctx, s)
    requires t.packages == s.packages && t.walked == s.walked && t.done == s.done
    requires s.roots <= t.roots && s.firmRoots <= t.firmRoots
    ensures Consistent(ctx, t)
  {
    hide FlagsJustified;
    hide KeysMatch;
    hide Settled;
    hide IsRegistry;
    RootFlags(ctx, s, t);
    SameFiles(ctx, s, t);
    forall q | q in s.done
      ensures Settled(ctx, t, q)
    {
      SettledAlike(ctx, s, t, q);
    }
  }

  lemma AddRoot(ctx: Context, s: Progress, p: PackageVersion, optional: bool)
    requires Consistent(ctx, s) && p in Versions(ctx.registry)
    ensures Consistent(ctx, WithRoot(s, p, optional)) && MayWalk(ctx, WithRoot(s, p, optional), p, optional)
  {
    hide Consistent;
    hide Versions;
    var t := WithRoot(s, p, optional);
    RootKeeps(ctx, s, t);
    ReachRoot(ctx.Graph(), t.roots, p);
    if !optional {
      ReachRoot(ctx.Firm(), t.firmRoots, p);
    }
    hide Reachable;
  }

  lemma RootWalked(ctx: Context, start: Progress, s: Progress, t: Progress, p: PackageVersion, dev: bool,
                   optional: bool)
    requires IsAtRest(ctx, s) && Continues(start, s, dev)
    requires HasWalked(ctx, WithRoot(s, p, optional), t, p, dev, optional)
    ensures IsAtRest(ctx, t) && Continues(start, t, dev)
    ensures t.roots == s.roots + {p} && t.firmRoots == s.firmRoots + if optional then {} else {p}
  {
    hide KeyOf;
    hide KeysMatch;
    hide FlagsJustified;
    hide Settled;
    var asked := WithRoot(s, p, optional);
    ExtendsWithRoots(start, s, asked, dev);
    hide DevOf;
    hide OptionalOf;
    ExtendsTransitive(start.(roots := t.roots, firmRoots := t.firmRoots), asked, t, dev);
  }

  lemma ExtendsWithRoots(start: Progress, s: Progress, t: Progress, dev: bool)
    requires Continues(start, s, dev)
    requires t == s.(roots := t.roots, firmRoots := t.firmRoots)
    ensures Extends(start.(roots := t.roots, firmRoots := t.firmRoots), t, dev)
  {
    hide KeyOf;
  }

  /** Unresolvable, and asked for by these requests or by something they lead to. */
  ghost predicate IsUnmetFrom(ctx: Context, roots: set<PackageVersion>, requests: set<Request>, e: Request) {
    || (e in requests && Resolve(ctx.registry, e).None?)
    || IsUnmet(ctx, roots + ResolveAll(ctx.registry, requests), e)
  }

  lemma UnmetMonotone(ctx: Context, roots: set<PackageVersion>, more: set<PackageVersion>, e: Request)
    requires IsUnmet(ctx, roots, e) && roots <= more
    ensures IsUnmet(ctx, more, e)
  {
    ReachMonotone(ctx.Graph(), roots, more);
  }

  function FirstRequests(entries: seq<Request>, i: nat): set<Request>
    requires i <= |entries|
  {
    set e | e in entries[..i]
  }

  lemma ResolveAllStep(registry: Registry, requests: set<Request>, e: Request)
    requires Resolve(registry, e).Some?
    ensures ResolveAll(registry, requests + {e}) == ResolveAll(registry, requests) + {Resolve(registry, e).value}
  {
    hide Resolve;
  }

  /** Where the loop over one group's direct dependencies stands. */
  ghost predicate IsBuildingGroup(ctx: Context, start: Progress, s: Progress, stored: ResolvedDependencyMap,
                                  entries: seq<Request>, i: nat, dev: bool, optional: bool)
  {
    && i <= |entries|
    && (forall j, k :: 0 <= j < k < |entries| ==> entries[j].0 != entries[k].0)
    && IsAtRest(ctx, s) && Continues(start, s, dev)
    && AllResolve(ctx.registry, FirstRequests(entries, i))
    && s.roots == start.roots + ResolveAll(ctx.registry, FirstRequests(entries, i))
    && s.firmRoots == start.firmRoots + (if optional then {} else ResolveAll(ctx.registry, FirstRequests(entries, i)))
    && StoresRoots(ctx, FirstRequests(entries, i), stored)
  }

  lemma StartGroup(ctx: Context, s: Progress, m: map<string, string>, entries: seq<Request>, dev: bool, optional: bool)
    requires IsAtRest(ctx, s) && Lists(entries, m)
    ensures IsBuildingGroup(ctx, s, s, map[], entries, 0, dev, optional)
  {
    hide Consistent;
    hide OptionalOf;
    hide DevOf;
    hide Extends;
    ExtendsReflexive(s, dev);
    assert s.(roots := s.roots, firmRoots := s.firmRoots) == s;
    assert FirstRequests(entries, 0) == {};
  }

  lemma RootMayBeWalked(ctx: Context, start: Progress, s: Progress, stored: ResolvedDependencyMap,
                        entries: seq<Request>, i: nat, dev: bool, optional: bool)
    requires IsBuildingGroup(ctx, start, s, stored, entries, i, dev, optional) && i < |entries|
    ensures var resolved := Resolve(ctx.registry, entries[i]);
      resolved.Some? ==>
        && IsPublished(ctx.semver, resolved.value)
        && PkgNames.Parse(entries[i].0) == Ok(NameOf(entries[i].0))
        && PackageSpecifier(ctx.semver, resolved.value).suffix == PkgVerPeer(resolved.value.version, "")
        && Consistent(ctx, WithRoot(s, resolved.value, optional))
        && MayWalk(ctx, WithRoot(s, resolved.value, optional), resolved.value, optional)
  {
    var resolved := Resolve(ctx.registry, entries[i]);
    if resolved.Some? {
      ResolveIsPublished(ctx.semver, ctx.registry, entries[i]);
      ChildName(ctx, resolved.value);
      AddRoot(ctx, s, resolved.value, optional);
    }
  }

  lemma RootStep(ctx: Context, start: Progress, s: Progress, t: Progress, stored: ResolvedDependencyMap,
                 entries: seq<Request>, i: nat, dev: bool, optional: bool)
    requires IsBuildingGroup(ctx, start, s, stored, entries, i, dev, optional) && i < |entries|
    requires Resolve(ctx.registry, entries[i]).Some? && PkgNames.Parse(entries[i].0).Ok?
    requires var c := Resolve(ctx.registry, entries[i]).value;
      HasWalked(ctx, WithRoot(s, c, optional), t, c, dev, optional)
    ensures var c := Resolve(ctx.registry, entries[i]).value;
      var spec := ResolvedDependencySpec(entries[i].1, PkgVerPeer(c.version, ""));
      IsBuildingGroup(ctx, start, t, stored[NameOf(entries[i].0) := spec], entries, i + 1, dev, optional)
  {
    hide Resolve;
    hide NameOf;
    hide PkgNames.Parse;
    hide IsAtRest;
    hide Continues;
    hide HasWalked;
    hide StoresRoots;
    hide WithRoot;
    var c := Resolve(ctx.registry, entries[i]).value;
    RootWalked(ctx, start, s, t, c, dev, optional);
    var requests := FirstRequests(entries, i);
    assert FirstRequests(entries, i + 1) == requests + {entries[i]} by {
      assert entries[..i + 1] == entries[..i] + [entries[i]];
    }
    StoreRootStep(ctx, requests, entries[i], c, stored);
    ResolveAllStep(ctx.registry, requests, entries[i]);
  }

  /** What building one group has done. */
  ghost predicate HasBuiltGroup(ctx: Context, s: Progress, t: Progress, requests: set<Request>,
                                stored: Option<ResolvedDependencyMap>, dev: bool, optional: bool)
  {
    && IsAtRest(ctx, t) && Continues(s, t, dev)
    && AllResolve(ctx.registry, requests)
    && t.roots == s.roots + ResolveAll(ctx.registry, requests)
    && t.firmRoots == s.firmRoots + (if optional then {} else ResolveAll(ctx.registry, requests))
    && stored != Some(map[])
    && StoresRoots(ctx, requests, OrEmpty(stored))
  }

  lemma FinishGroup(ctx: Context, start: Progress, s: Progress, stored: ResolvedDependencyMap, m: map<string, string>,
                    entries: seq<Request>, dev: bool, optional: bool)
    requires IsBuildingGroup(ctx, start, s, stored, entries, |entries|, dev, optional) && Lists(entries, m)
    ensures HasBuiltGroup(ctx, start, s, m.Items, if stored == map[] then None else Some(stored), dev, optional)
  {
    hide IsAtRest;
    hide Continues;
    hide StoresRoots;
    hide Resolve;
    ListsItems(entries, m);
    assert entries[..|entries|] == entries;
    assert FirstRequests(entries, |entries|) == m.Items;
  }

  lemma SkipGroup(ctx: Context, s: Progress, dev: bool, optional: bool)
    requires IsAtRest(ctx, s)
    ensures HasBuiltGroup(ctx, s, s, {}, None, dev, optional)
  {
    hide IsAtRest;
    hide Extends;
    ExtendsReflexive(s, dev);
    assert s.(roots := s.roots, firmRoots := s.firmRoots) == s;
  }

  lemma UnmetRoot(ctx: Context, start: Progress, s: Progress, t: Progress, stored: ResolvedDependencyMap,
                  m: map<string, string>,
                  entries: seq<Request>, i: nat, dev: bool, optional: bool, e: Request)
    requires IsBuildingGroup(ctx, start, s, stored, entries, i, dev, optional) && i < |entries| && Lists(entries, m)
    requires (e == entries[i] && Resolve(ctx.registry, e).None?)
      || (Resolve(ctx.registry, entries[i]).Some?
          && t == WithRoot(s, Resolve(ctx.registry, entries[i]).value, optional) && IsUnmet(ctx, t.roots, e))
    ensures IsUnmetFrom(ctx, start.roots, m.Items, e)
  {
    hide Resolve;
    hide IsUnmet;
    hide IsAtRest;
    hide Continues;
    hide StoresRoots;
    ListsItems(entries, m);
    if !(e == entries[i] && Resolve(ctx.registry, e).None?) {
      assert forall f :: f in FirstRequests(entries, i) ==> f in entries;
      UnmetMonotone(ctx, t.roots, start.roots + ResolveAll(ctx.registry, m.Items), e);
    }
  }
}
