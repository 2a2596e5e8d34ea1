/** Generating a lockfile: one pass over the dependency graph for each group of the manifest. */
module GenerateLockfile {
  import opened Wrappers
  import opened DependencyPaths
  import opened SnapshotReferences
  import opened Registries
  import opened Lockfiles
  import opened DependencyContexts
  import opened LockfileWalk
  import opened GeneratedLockfiles
  import opened Generation
  import opened GenerationHolds
  import PkgNames

  /** `orders` tells how the maps of dependencies happen to be listed. */
  class LockfileBuilder {
    const ctx: Context
    const orders: Orders
    var packages: Packages

    constructor (ctx: Context, orders: Orders)
      ensures this.ctx == ctx && this.orders == orders && packages == map[]
    {
      this.ctx := ctx;
      this.orders := orders;
      packages := map[];
    }

    /** Walks a package and all it needs. */
    method BuildPackageSnapshot(package: PackageVersion, dev: bool, optional: bool) returns (r: Result<(), Request>)
      requires ctx.Valid() && package in Versions(ctx.registry)
      modifies this
      ensures var walked := Walk(ctx, orders.packages, old(packages), package, dev, optional);
        if walked.Ok? then r == Ok(()) && packages == walked.value else r == Err(walked.error)
      decreases |AllKeys(ctx) - packages.Keys|, 0
    {
      hide *;
      ghost var before := packages;
      KeyIsSpecifier(ctx, package);
      var dependencyPath := DependencyPath(None, PackageSpecifier(ctx.semver, package));
      if dependencyPath in packages {
        WalkAgain(ctx, orders.packages, packages, package, dev, optional);
        packages := packages[dependencyPath := MergePackageFlags(packages[dependencyPath], dev, optional)];
        return Ok(());
      }

      WalkAnew(ctx, orders.packages, packages, package, dev, optional);
      packages := packages[dependencyPath := Placeholder(ctx, package, dev, optional)];
      ghost var placed := packages;
      FewerKeys(ctx, before, package, placed);
      var dependencies: Edges := map[];
      var entries := orders.packages(package);
      WholeListing(entries);
      for i := 0 to |entries|
        invariant WalkEntries(ctx, orders.packages, placed, package, entries, map[], dev, optional)
               == WalkEntries(ctx, orders.packages, packages, package, entries[i..], dependencies, dev, optional)
        invariant placed.Keys <= packages.Keys
      {
        NoMoreKeys(ctx, placed, packages);
        r, dependencies := BuildDependency(package, entries, dependencies, i, dev, optional);
        if r.Err? {
          return r;
        }
      }

      NoEntries(ctx, orders.packages, packages, package, dependencies, dev, optional);
      FinishedAs(packages, dependencyPath, dependencies, dev, optional);
      var snapshot := packages[dependencyPath].(
        dependencies := if dependencies == map[] then None else Some(dependencies));
      packages := packages[dependencyPath := MergePackageFlags(snapshot, dev, optional)];
      return Ok(());
    }

    /** One turn of the loop over a package's dependencies. */
    method BuildDependency(package: PackageVersion, entries: seq<Request>, listed: Edges, i: nat, dev: bool,
                           optional: bool)
      returns (r: Result<(), Request>, dependencies: Edges)
      requires ctx.Valid() && i < |entries|
      modifies this
      ensures
        var rest := WalkEntries(ctx, orders.packages, old(packages), package, entries[i..], listed, dev, optional);
        if r.Err? then rest == Err(r.error)
        else
          && old(packages).Keys <= packages.Keys
          && rest == WalkEntries(ctx, orders.packages, packages, package, entries[i + 1..], dependencies, dev, optional)
      decreases |AllKeys(ctx) - packages.Keys|, 1
    {
      hide *;
      dependencies := listed;
      var name := entries[i].0;
      var resolved := Resolve(ctx.registry, entries[i]);
      if resolved.None? {
        EntryUnmet(ctx, orders.packages, packages, package, entries, i, dependencies, dev, optional);
        return Err(entries[i]), dependencies;
      }
      var child := resolved.value;
      var childOptional := optional || name in package.optionalDependencies;
      EntryStep(ctx, orders.packages, packages, package, entries, i, dependencies, dev, optional);
      NameReads(ctx, entries[i]);
      EdgeAs(ctx, dependencies, entries[i], child);
      dependencies := dependencies[PkgNames.Parse(name).value :=
        PkgVerPeerRef(PackageSpecifier(ctx.semver, child).suffix)];
      r := BuildPackageSnapshot(child, dev, childOptional);
    }

    /** Walks the direct dependencies of one group and returns them as the lockfile records them. */
    method BuildRootGroup(inputs: Inputs, group: DependencyGroup)
      returns (r: Result<Option<ResolvedDependencyMap>, Request>)
      requires ctx.Valid() && inputs.ctx == ctx
      modifies this
      ensures var walked := WalkGroup(inputs, orders, old(packages), group);
        if walked.Ok? then r == Ok(walked.value.1) && packages == walked.value.0 else r == Err(walked.error)
    {
      hide *;
      ghost var before := packages;
      GroupOf(inputs, orders, packages, group);
      if group !in inputs.groups {
        return Ok(None);
      }

      var dependencies: ResolvedDependencyMap := map[];
      var entries := orders.groups(group);
      var dev, optional := group == Dev, group == Optional;
      WholeListing(entries);
      for i := 0 to |entries|
        invariant WalkRoots(ctx, orders.packages, before, entries, map[], dev, optional)
               == WalkRoots(ctx, orders.packages, packages, entries[i..], dependencies, dev, optional)
      {
        var (name, specifier) := entries[i];
        var resolved := Resolve(ctx.registry, entries[i]);
        if resolved.None? {
          RootIsUnmet(ctx, orders.packages, packages, entries, i, dependencies, dev, optional);
          return Err(entries[i]);
        }
        var package := resolved.value;
        RootIsWalked(ctx, orders.packages, packages, entries, i, dependencies, dev, optional);
        NameReads(ctx, entries[i]);
        RecordAs(ctx, dependencies, entries[i], package);
        dependencies := dependencies[PkgNames.Parse(name).value :=
          ResolvedDependencySpec(specifier, PackageSpecifier(ctx.semver, package).suffix)];
        var walk := BuildPackageSnapshot(package, dev, optional);
        if walk.Err? {
          return Err(walk.error);
        }
      }
      NoRoots(ctx, orders.packages, packages, dependencies, dev, optional);
      return Ok(if dependencies == map[] then None else Some(dependencies));
    }
  }

  lemma KeyIsSpecifier(ctx: Context, p: PackageVersion)
    requires ctx.Valid() && p in Versions(ctx.registry)
    ensures IsPublished(ctx.semver, p) && p.integrity.Some?
    ensures DependencyPath(None, PackageSpecifier(ctx.semver, p)) == KeyOf(p)
  {
    SpecifierIsKey(ctx.semver, p);
  }

  lemma NameReads(ctx: Context, e: Request)
    requires ctx.Valid() && Resolve(ctx.registry, e).Some?
    ensures IsPublished(ctx.semver, Resolve(ctx.registry, e).value)
    ensures PkgNames.Parse(e.0) == Ok(NameOf(e.0))
  {
    ResolveIsPublished(ctx.semver, ctx.registry, e);
  }

  lemma RecordAs(ctx: Context, stored: ResolvedDependencyMap, e: Request, c: PackageVersion)
    requires IsPublished(ctx.semver, c)
    ensures stored[NameOf(e.0) := ResolvedDependencySpec(e.1, PackageSpecifier(ctx.semver, c).suffix)]
      == WithRange(stored, e, c)
  {
    SpecifierIsKey(ctx.semver, c);
  }

  /** Production dependencies first, then optional ones, then those of development. */
  method Run(inputs: Inputs, orders: Orders) returns (r: Result<Lockfile, Request>)
    requires inputs.ctx.Valid() && AreOrders(inputs, orders)
    ensures r == Generate(inputs, orders)
    ensures r.Ok? <==> CanGenerate(inputs)
    ensures r.Ok? ==> IsGenerated(inputs, r.value)
    ensures r.Err? ==> Resolve(inputs.ctx.registry, r.error).None?
  {
    hide *;
    PassesAre(inputs, orders);
    GenerateHolds(inputs, orders);
    var builder := new LockfileBuilder(inputs.ctx, orders);
    var dependencies := builder.BuildRootGroup(inputs, Prod);
    if dependencies.Err? {
      return Err(dependencies.error);
    }
    var optionalDependencies := builder.BuildRootGroup(inputs, Optional);
    if optionalDependencies.Err? {
      return Err(optionalDependencies.error);
    }
    var devDependencies := builder.BuildRootGroup(inputs, Dev);
    if devDependencies.Err? {
      return Err(devDependencies.error);
    }
    LockfileAs(dependencies.value, optionalDependencies.value, devDependencies.value, builder.packages);
    var projectSnapshot := ProjectSnapshot(dependencies.value, optionalDependencies.value, devDependencies.value);
    return Ok(Lockfile(Single(projectSnapshot), if builder.packages == map[] then None else Some(builder.packages)));
  }

  lemma LockfileAs(a: Option<ResolvedDependencyMap>, b: Option<ResolvedDependencyMap>,
                   c: Option<ResolvedDependencyMap>, packages: Packages)
    ensures LockfileOf(a, b, c, packages)
         == Lockfile(Single(ProjectSnapshot(a, b, c)), if packages == map[] then None else Some(packages))
  {
  }
}
