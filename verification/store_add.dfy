/** Filling the store with packages and all they need, one after the other, each under its store name once. */
module StoreAdd {
  import opened Wrappers
  import opened Graphs
  import opened Registries
  import opened DependencyContexts
  import opened StoreNames

  datatype StoreAddError = FetchFromRegistry(request: Request) | DownloadTarball(package: PackageVersion)

  /** `entered` holds the packages whose names have been taken, `stored` those whose dependencies are in as well. */
  datatype StoreProgress = StoreProgress(resolved: set<string>, entered: set<PackageVersion>,
                                         stored: set<PackageVersion>)

  ghost predicate IsIn(s: StoreProgress, e: Option<PackageVersion>) {
    e.Some? && StoreName(e.value) in s.resolved
  }

  ghost predicate HasAllItNeeds(ctx: Context, s: StoreProgress, p: PackageVersion) {
    forall e :: e in ctx.Needs(p) ==> IsIn(s, Resolve(ctx.registry, e))
  }

  ghost predicate IsStore(ctx: Context, roots: set<PackageVersion>, s: StoreProgress) {
    && s.resolved == (set p | p in s.entered :: StoreName(p))
    && (forall p, q :: p in s.entered && q in s.entered && StoreName(p) == StoreName(q) ==> p == q)
    && (forall p :: p in s.entered ==> p in Versions(ctx.registry) && Reachable(ctx.Graph(), roots, p))
    && s.stored <= s.entered
    && (forall p :: p in s.stored ==> HasAllItNeeds(ctx, s, p))
  }

  /** What one call may change: it takes new names and completes every package it takes. */
  ghost predicate Extends(s: StoreProgress, t: StoreProgress) {
    && s.resolved <= t.resolved && s.entered <= t.entered && s.stored <= t.stored
    && (forall p :: p in t.entered ==> p in s.entered || p in t.stored)
    && (forall p :: p in t.stored && p in s.entered ==> p in s.stored)
  }

  ghost predicate CannotBeMet(ctx: Context, roots: set<PackageVersion>, error: StoreAddError,
                              download: PackageVersion -> bool) {
    match error
    case FetchFromRegistry(e) =>
      Resolve(ctx.registry, e).None? && exists p :: Reachable(ctx.Graph(), roots, p) && e in ctx.Needs(p)
    case DownloadTarball(p) => Reachable(ctx.Graph(), roots, p) && !download(p)
  }

  lemma EnterKeeps(ctx: Context, roots: set<PackageVersion>, s: StoreProgress, p: PackageVersion)
    requires IsStore(ctx, roots, s) && StoreName(p) !in s.resolved
    requires p in Versions(ctx.registry) && Reachable(ctx.Graph(), roots, p)
    ensures IsStore(ctx, roots, s.(resolved := s.resolved + {StoreName(p)}, entered := s.entered + {p}))
    ensures p !in s.entered
  {
    hide Versions;
    hide Reachable;
    hide StoreName;
    var t := s.(resolved := s.resolved + {StoreName(p)}, entered := s.entered + {p});
    forall q | q in t.stored
      ensures HasAllItNeeds(ctx, t, q)
    {
      assert HasAllItNeeds(ctx, s, q);
    }
  }

  lemma StoreKeeps(ctx: Context, roots: set<PackageVersion>, s: StoreProgress, p: PackageVersion)
    requires IsStore(ctx, roots, s) && p in s.entered && HasAllItNeeds(ctx, s, p)
    ensures IsStore(ctx, roots, s.(stored := s.stored + {p}))
  {
    hide Versions;
    hide Reachable;
    hide StoreName;
    hide Context.Needs;
    hide Resolve;
  }

  lemma NeedIsReachable(ctx: Context, roots: set<PackageVersion>, p: PackageVersion, e: Request)
    requires ctx.Valid() && p in Versions(ctx.registry) && Reachable(ctx.Graph(), roots, p) && e in ctx.Needs(p)
    requires Resolve(ctx.registry, e).Some?
    ensures var c := Resolve(ctx.registry, e).value;
      c in Versions(ctx.registry) && Reachable(ctx.Graph(), roots, c)
  {
    RequestIsEdge(ctx, p, e);
    hide Reachable;
    ReachStep(ctx.Graph(), roots, p, Resolve(ctx.registry, e).value);
  }

  lemma FewerToEnter(versions: set<PackageVersion>, entered: set<PackageVersion>, more: set<PackageVersion>,
                     p: PackageVersion)
    requires p in versions && p !in entered && entered + {p} <= more
    ensures |versions - more| < |versions - entered|
  {
    assert versions - more <= (versions - entered) - {p};
    Smaller(versions - more, (versions - entered) - {p});
  }

  ghost predicate MayStore(ctx: Context, roots: set<PackageVersion>, s: StoreProgress, p: PackageVersion) {
    && ctx.Valid() && IsStore(ctx, roots, s)
    && p in Versions(ctx.registry) && Reachable(ctx.Graph(), roots, p)
  }

  ghost predicate HasStored(ctx: Context, roots: set<PackageVersion>, s: StoreProgress, t: StoreProgress,
                            p: PackageVersion) {
    IsStore(ctx, roots, t) && Extends(s, t) && StoreName(p) in t.resolved
  }

  predicate IsResolutionOf(ctx: Context, entries: seq<Request>, dependencies: seq<PackageVersion>) {
    |dependencies| == |entries| && forall i | 0 <= i < |entries| ::
      Resolve(ctx.registry, entries[i]) == Some(dependencies[i])
  }

  /** Where the loop over a package's dependencies stands. */
  ghost predicate IsStoring(ctx: Context, roots: set<PackageVersion>, before: StoreProgress, s: StoreProgress,
                            p: PackageVersion,
                            entries: seq<Request>, dependencies: seq<PackageVersion>, i: nat)
  {
    && MayStore(ctx, roots, s, p) && StoreName(p) !in before.resolved && p !in before.entered
    && Extends(Enter(before, p), s) && p !in before.stored && p !in s.stored
    && ListsDependencies(p, ctx.config.autoInstallPeers, entries) && IsResolutionOf(ctx, entries, dependencies)
    && i <= |entries|
    && forall j | 0 <= j < i :: StoreName(dependencies[j]) in s.resolved
  }

  ghost function Enter(s: StoreProgress, p: PackageVersion): StoreProgress {
    s.(resolved := s.resolved + {StoreName(p)}, entered := s.entered + {p})
  }

  lemma StartStoring(ctx: Context, roots: set<PackageVersion>, s: StoreProgress, p: PackageVersion,
                     entries: seq<Request>, dependencies: seq<PackageVersion>)
    requires MayStore(ctx, roots, s, p) && StoreName(p) !in s.resolved
    requires ListsDependencies(p, ctx.config.autoInstallPeers, entries) && IsResolutionOf(ctx, entries, dependencies)
    ensures IsStoring(ctx, roots, s, Enter(s, p), p, entries, dependencies, 0)
  {
    EnterKeeps(ctx, roots, s, p);
    hide ListsDependencies;
    hide IsResolutionOf;
    hide Versions;
    hide Reachable;
    hide StoreName;
    hide HasAllItNeeds;
  }

  lemma BeforeDependency(ctx: Context, roots: set<PackageVersion>, before: StoreProgress, s: StoreProgress,
                         p: PackageVersion,
                         entries: seq<Request>, dependencies: seq<PackageVersion>, i: nat)
    requires IsStoring(ctx, roots, before, s, p, entries, dependencies, i) && i < |entries|
    ensures i < |dependencies| && MayStore(ctx, roots, s, dependencies[i])
    ensures |Versions(ctx.registry) - s.entered| < |Versions(ctx.registry) - before.entered|
  {
    ListedIsNeeded(ctx, p, entries);
    hide Versions;
    hide Reachable;
    hide StoreName;
    hide IsStore;
    hide Context.Valid;
    hide Context.Needs;
    hide Resolve;
    NeedIsReachable(ctx, roots, p, entries[i]);
    FewerToEnter(Versions(ctx.registry), before.entered, s.entered, p);
  }

  lemma AfterDependency(ctx: Context, roots: set<PackageVersion>, before: StoreProgress, s: StoreProgress,
                        t: StoreProgress,
                        p: PackageVersion, entries: seq<Request>, dependencies: seq<PackageVersion>, i: nat)
    requires IsStoring(ctx, roots, before, s, p, entries, dependencies, i) && i < |dependencies|
    requires HasStored(ctx, roots, s, t, dependencies[i])
    ensures IsStoring(ctx, roots, before, t, p, entries, dependencies, i + 1)
  {
    hide Versions;
    hide Reachable;
    hide StoreName;
    hide IsStore;
    hide Context.Valid;
    hide ListsDependencies;
    hide Resolve;
  }

  lemma FinishStoring(ctx: Context, roots: set<PackageVersion>, before: StoreProgress, s: StoreProgress,
                      p: PackageVersion,
                      entries: seq<Request>, dependencies: seq<PackageVersion>)
    requires IsStoring(ctx, roots, before, s, p, entries, dependencies, |entries|)
    ensures HasStored(ctx, roots, before, s.(stored := s.stored + {p}), p)
  {
    NeedsAreIn(ctx, s, p, entries, dependencies);
    hide Versions;
    hide Reachable;
    hide StoreName;
    hide HasAllItNeeds;
    hide ListsDependencies;
    hide IsResolutionOf;
    hide IsStore;
    StoreKeeps(ctx, roots, s, p);
  }

  lemma NotNeeded(ctx: Context, roots: set<PackageVersion>, s: StoreProgress, p: PackageVersion, entries: seq<Request>,
                  error: StoreAddError, download: PackageVersion -> bool)
    requires MayStore(ctx, roots, s, p) && ListsDependencies(p, ctx.config.autoInstallPeers, entries)
    requires error.FetchFromRegistry? && error.request in entries && Resolve(ctx.registry, error.request).None?
    ensures CannotBeMet(ctx, roots, error, download)
  {
    ListedIsNeeded(ctx, p, entries);
    hide Resolve;
    hide Reachable;
  }

  /** The tarball of everything entered could be had. */
  predicate AllDownloaded(s: StoreProgress, download: PackageVersion -> bool) {
    forall p | p in s.entered :: download(p)
  }

  lemma OneMoreDownloaded(s: StoreProgress, p: PackageVersion, download: PackageVersion -> bool)
    requires AllDownloaded(s, download) && download(p)
    ensures AllDownloaded(Enter(s, p), download)
  {
  }

  lemma StoringChangesNoDownload(s: StoreProgress, p: PackageVersion, download: PackageVersion -> bool)
    requires AllDownloaded(s, download)
    ensures AllDownloaded(s.(stored := s.stored + {p}), download)
  {
  }

  /** `download` tells which tarballs can be had. */
  class StoreAdder {
    const ctx: Context
    const download: PackageVersion -> bool
    var resolvedPackages: set<string>
    ghost var progress: StoreProgress

    constructor (ctx: Context, download: PackageVersion -> bool)
      ensures this.ctx == ctx && this.download == download
      ensures resolvedPackages == progress.resolved && progress == StoreProgress({}, {}, {})
    {
      this.ctx := ctx;
      this.download := download;
      resolvedPackages := {};
      progress := StoreProgress({}, {}, {});
    }

    /** Resolves all dependencies before storing the first of them. */
    method ResolveDependencies(entries: seq<Request>) returns (r: Result<seq<PackageVersion>, StoreAddError>)
      ensures r.Ok? ==> IsResolutionOf(ctx, entries, r.value)
      ensures r.Err? ==> r.error.FetchFromRegistry?
      ensures r.Err? ==> r.error.request in entries && Resolve(ctx.registry, r.error.request).None?
    {
      hide Resolve;
      var dependencies := [];
      for i := 0 to |entries|
        invariant |dependencies| == i
        invariant forall j | 0 <= j < i :: Resolve(ctx.registry, entries[j]) == Some(dependencies[j])
      {
        var resolved := Resolve(ctx.registry, entries[i]);
        if resolved.None? {
          return Err(FetchFromRegistry(entries[i]));
        }
        dependencies := dependencies + [resolved.value];
      }
      return Ok(dependencies);
    }

    /** Stores a package and all it needs; one whose name is taken is skipped. */
    method StorePackageAndDependencies(package: PackageVersion, ghost roots: set<PackageVersion>)
      returns (r: Result<(), StoreAddError>)
      requires resolvedPackages == progress.resolved && MayStore(ctx, roots, progress, package)
      requires AllDownloaded(progress, download)
      modifies this
      ensures r.Ok? ==> resolvedPackages == progress.resolved && HasStored(ctx, roots, old(progress), progress, package)
      ensures r.Ok? ==> AllDownloaded(progress, download)
      ensures r.Err? ==> CannotBeMet(ctx, roots, r.error, download)
      decreases |Versions(ctx.registry) - progress.entered|
    {
      hide *;
      if StoreName(package) in resolvedPackages {
        Skipped(ctx, roots, progress, package);
        return Ok(());
      }
      ghost var before := progress;
      resolvedPackages := resolvedPackages + {StoreName(package)};
      if !download(package) {
        CannotDownload(ctx, roots, before, package, download);
        return Err(DownloadTarball(package));
      }
      var entries := Dependencies(package, ctx.config.autoInstallPeers);
      var dependencies := ResolveDependencies(entries);
      if dependencies.Err? {
        NotNeeded(ctx, roots, before, package, entries, dependencies.error, download);
        return Err(dependencies.error);
      }
      StartStoring(ctx, roots, before, package, entries, dependencies.value);
      OneMoreDownloaded(before, package, download);
      progress := Enter(progress, package);
      Entered(before, package);
      for i := 0 to |entries|
        invariant resolvedPackages == progress.resolved && AllDownloaded(progress, download)
        invariant IsStoring(ctx, roots, before, progress, package, entries, dependencies.value, i)
      {
        BeforeDependency(ctx, roots, before, progress, package, entries, dependencies.value, i);
        ghost var reached := progress;
        r := StorePackageAndDependencies(dependencies.value[i], roots);
        if r.Err? {
          return r;
        }
        AfterDependency(ctx, roots, before, reached, progress, package, entries, dependencies.value, i);
      }
      FinishStoring(ctx, roots, before, progress, package, entries, dependencies.value);
      StoringChangesNoDownload(progress, package, download);
      progress := progress.(stored := progress.stored + {package});
      return Ok(());
    }
  }

  lemma Entered(s: StoreProgress, p: PackageVersion)
    ensures Enter(s, p).resolved == s.resolved + {StoreName(p)}
  {
  }

  lemma Skipped(ctx: Context, roots: set<PackageVersion>, s: StoreProgress, p: PackageVersion)
    requires MayStore(ctx, roots, s, p) && StoreName(p) in s.resolved
    ensures HasStored(ctx, roots, s, s, p)
  {
  }

  lemma CannotDownload(ctx: Context, roots: set<PackageVersion>, s: StoreProgress, p: PackageVersion,
                       download: PackageVersion -> bool)
    requires MayStore(ctx, roots, s, p) && !download(p)
    ensures CannotBeMet(ctx, roots, DownloadTarball(p), download)
  {
  }

  lemma NeedsAreIn(ctx: Context, s: StoreProgress, p: PackageVersion, entries: seq<Request>,
                   dependencies: seq<PackageVersion>)
    requires ListsDependencies(p, ctx.config.autoInstallPeers, entries) && IsResolutionOf(ctx, entries, dependencies)
    requires forall i | 0 <= i < |entries| :: StoreName(dependencies[i]) in s.resolved
    ensures HasAllItNeeds(ctx, s, p)
  {
    ListingIsOrderFree(p, ctx.config.autoInstallPeers, entries);
    hide Resolve;
    hide StoreName;
    hide ListsDependencies;
    hide EffectiveRange;
    hide LastRange;
    hide Requests;
    forall e | e in ctx.Needs(p)
      ensures IsIn(s, Resolve(ctx.registry, e))
    {
      assert e in entries;
      var i :| 0 <= i < |entries| && entries[i] == e;
    }
  }

  /** All that was asked for is in, with all it needs. */
  ghost predicate IsFilled(ctx: Context, roots: set<PackageVersion>, s: StoreProgress) {
    && IsStore(ctx, roots, s) && s.stored == s.entered
    && forall p :: p in roots ==> StoreName(p) in s.resolved
  }

  lemma AddedOne(ctx: Context, roots: set<PackageVersion>, s: StoreProgress, t: StoreProgress, p: PackageVersion)
    requires IsStore(ctx, roots, s) && s.stored == s.entered && HasStored(ctx, roots, s, t, p)
    ensures IsStore(ctx, roots, t) && t.stored == t.entered && s.resolved <= t.resolved && StoreName(p) in t.resolved
  {
    hide Versions;
    hide Reachable;
    hide StoreName;
    hide HasAllItNeeds;
  }

  lemma NothingIn(ctx: Context, roots: set<PackageVersion>)
    ensures IsStore(ctx, roots, StoreProgress({}, {}, {}))
  {
  }

  lemma RootMayBeStored(ctx: Context, roots: set<PackageVersion>, s: StoreProgress, requests: seq<Request>,
                        p: PackageVersion, i: nat)
    requires ctx.Valid() && IsStore(ctx, roots, s) && i < |requests| && Resolve(ctx.registry, requests[i]) == Some(p)
    requires roots == ResolveAll(ctx.registry, set e | e in requests)
    ensures p in roots && MayStore(ctx, roots, s, p)
  {
    ResolveIsPublished(ctx.semver, ctx.registry, requests[i]);
    hide Resolve;
    assert requests[i] in (set e | e in requests);
    ReachRoot(ctx.Graph(), roots, p);
  }

  function RootsOf(ctx: Context, requests: seq<Request>): set<PackageVersion> {
    ResolveAll(ctx.registry, set e | e in requests)
  }

  /** Every request, of the command line or of anything it leads to, can be met, and every tarball can be had. */
  ghost predicate CanBeStored(ctx: Context, download: PackageVersion -> bool, requests: seq<Request>) {
    && (forall e :: e in requests ==> Resolve(ctx.registry, e).Some?)
    && (forall p :: Reachable(ctx.Graph(), RootsOf(ctx, requests), p) ==>
          download(p) && AllResolve(ctx.registry, ctx.Needs(p)))
  }

  lemma UnresolvedIsUnmet(ctx: Context, download: PackageVersion -> bool, requests: seq<Request>, e: Request)
    requires e in requests && Resolve(ctx.registry, e).None?
    ensures !CanBeStored(ctx, download, requests)
  {
    hide Resolve;
    hide Reachable;
  }

  lemma UnmetStops(ctx: Context, download: PackageVersion -> bool, requests: seq<Request>, error: StoreAddError)
    requires CannotBeMet(ctx, RootsOf(ctx, requests), error, download)
    ensures !CanBeStored(ctx, download, requests)
  {
    hide Resolve;
    hide Reachable;
    hide Context.Graph;
    hide Context.Needs;
    hide RootsOf;
  }

  lemma FilledMeetsAll(ctx: Context, download: PackageVersion -> bool, requests: seq<Request>, s: StoreProgress)
    requires IsFilled(ctx, RootsOf(ctx, requests), s) && NamesTellApart(ctx, RootsOf(ctx, requests))
    requires forall e :: e in requests ==> Resolve(ctx.registry, e).Some?
    requires forall p :: p in s.stored ==> download(p)
    ensures CanBeStored(ctx, download, requests)
  {
    ReachableIsStored(ctx, RootsOf(ctx, requests), s);
    hide Resolve;
    hide Reachable;
    hide Context.Graph;
    hide Context.Needs;
    hide RootsOf;
    hide NamesTellApart;
    hide StoreName;
    hide Versions;
    forall p, e | Reachable(ctx.Graph(), RootsOf(ctx, requests), p) && e in ctx.Needs(p)
      ensures Resolve(ctx.registry, e).Some?
    {
      assert HasAllItNeeds(ctx, s, p);
      assert IsIn(s, Resolve(ctx.registry, e));
    }
  }

  /** Resolves all packages named on the command line, then stores them one after the other. */
  method Run(ctx: Context, download: PackageVersion -> bool, requests: seq<Request>)
    returns (r: Result<set<string>, StoreAddError>, ghost final: StoreProgress)
    requires ctx.Valid()
    ensures NamesTellApart(ctx, RootsOf(ctx, requests)) ==> (r.Ok? <==> CanBeStored(ctx, download, requests))
    ensures r.Ok? ==> r.value == final.resolved && IsFilled(ctx, ResolveAll(ctx.registry, set e | e in requests), final)
    ensures r.Ok? ==> forall p :: p in final.stored ==> download(p)
    ensures r.Ok? ==> forall e :: e in requests ==> Resolve(ctx.registry, e).Some?
    ensures r.Err? ==>
      || (exists e :: e in requests && Resolve(ctx.registry, e).None? && r.error == FetchFromRegistry(e))
      || CannotBeMet(ctx, ResolveAll(ctx.registry, set e | e in requests), r.error, download)
  {
    hide Resolve;
    hide ResolveAll;
    hide IsStore;
    hide MayStore;
    hide HasStored;
    hide CannotBeMet;
    hide StoreName;
    hide NamesTellApart;
    hide CanBeStored;
    ghost var roots := ResolveAll(ctx.registry, set e | e in requests);
    var adder := new StoreAdder(ctx, download);
    final := adder.progress;
    NothingIn(ctx, roots);
    var packages := adder.ResolveDependencies(requests);
    if packages.Err? {
      UnresolvedIsUnmet(ctx, download, requests, packages.error.request);
      return Err(packages.error), final;
    }
    for i := 0 to |requests|
      invariant adder.resolvedPackages == adder.progress.resolved && AllDownloaded(adder.progress, download)
      invariant IsStore(ctx, roots, adder.progress) && adder.progress.stored == adder.progress.entered
      invariant forall j | 0 <= j < i :: StoreName(packages.value[j]) in adder.progress.resolved
    {
      ghost var before := adder.progress;
      RootMayBeStored(ctx, roots, before, requests, packages.value[i], i);
      var added := adder.StorePackageAndDependencies(packages.value[i], roots);
      if added.Err? {
        UnmetStops(ctx, download, requests, added.error);
        return Err(added.error), final;
      }
      AddedOne(ctx, roots, before, adder.progress, packages.value[i]);
    }
    final := adder.progress;
    assert forall e :: e in requests ==> Resolve(ctx.registry, e).Some?;
    RootsAreIn(ctx, requests, packages.value, final);
    if NamesTellApart(ctx, roots) {
      FilledMeetsAll(ctx, download, requests, final);
    }
    return Ok(adder.resolvedPackages), final;
  }

  lemma RootsAreIn(ctx: Context, requests: seq<Request>, packages: seq<PackageVersion>, s: StoreProgress)
    requires IsResolutionOf(ctx, requests, packages)
    requires forall j | 0 <= j < |requests| :: StoreName(packages[j]) in s.resolved
    ensures forall p :: p in ResolveAll(ctx.registry, set e | e in requests) ==> StoreName(p) in s.resolved
  {
    hide Resolve;
    hide StoreName;
    forall p | p in ResolveAll(ctx.registry, set e | e in requests)
      ensures StoreName(p) in s.resolved
    {
      var e :| e in requests && Resolve(ctx.registry, e) == Some(p);
      var j :| 0 <= j < |requests| && requests[j] == e;
      assert packages[j] == p;
    }
  }

  lemma StoredUnderName(ctx: Context, roots: set<PackageVersion>, s: StoreProgress, p: PackageVersion)
    requires IsFilled(ctx, roots, s) && NamesTellApart(ctx, roots)
    requires Reachable(ctx.Graph(), roots, p) && StoreName(p) in s.resolved
    ensures p in s.stored
  {
    hide Context.Graph;
    hide Reachable;
    hide StoreName;
    hide HasAllItNeeds;
    hide Versions;
    var q :| q in s.entered && StoreName(q) == StoreName(p);
  }

  lemma ReachableIsStored(ctx: Context, roots: set<PackageVersion>, s: StoreProgress)
    requires IsFilled(ctx, roots, s) && NamesTellApart(ctx, roots)
    ensures forall p :: Reachable(ctx.Graph(), roots, p) ==> p in s.stored
  {
    hide Context.Graph;
    hide Reachable;
    hide StoreName;
    hide HasAllItNeeds;
    hide Versions;
    hide NamesTellApart;
    forall p | p in roots
      ensures p in s.stored
    {
      ReachRoot(ctx.Graph(), roots, p);
      StoredUnderName(ctx, roots, s, p);
    }
    forall p, c | p in s.stored && Edge(ctx.Graph(), p, c)
      ensures c in s.stored
    {
      ReachStep(ctx.Graph(), roots, p, c);
      EdgeIsIn(ctx, s, p, c);
      StoredUnderName(ctx, roots, s, c);
    }
    ReachStaysInside(ctx.Graph(), roots, s.stored);
  }

  /** What is stored are exactly the reachable packages if and only if no two of those share a store name. */
  lemma FilledIsReachable(ctx: Context, roots: set<PackageVersion>, s: StoreProgress)
    requires IsFilled(ctx, roots, s)
    ensures (forall p :: p in s.stored <==> Reachable(ctx.Graph(), roots, p)) <==> NamesTellApart(ctx, roots)
  {
    if NamesTellApart(ctx, roots) {
      ReachableIsStored(ctx, roots, s);
    }
    hide Context.Graph;
    hide Reachable;
    hide StoreName;
    hide HasAllItNeeds;
    hide Versions;
  }

  lemma EdgeIsIn(ctx: Context, s: StoreProgress, p: PackageVersion, c: PackageVersion)
    requires HasAllItNeeds(ctx, s, p) && Edge(ctx.Graph(), p, c)
    ensures StoreName(c) in s.resolved
  {
    hide StoreName;
    var e :| e in ctx.Needs(p) && Resolve(ctx.registry, e) == Some(c);
    assert IsIn(s, Resolve(ctx.registry, e));
  }
}
