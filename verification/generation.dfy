/**
 * Generating a lockfile as a function of the manifest, the registry, and the orders in which the maps of dependencies
 * happen to be listed.
 */
module Generation {
  import opened Wrappers
  import opened PkgVerPeers
  import opened DependencyPaths
  import opened SnapshotReferences
  import opened Graphs
  import opened Registries
  import opened Lockfiles
  import opened DependencyContexts
  import opened LockfileWalk
  import opened GeneratedLockfiles
  import PkgNames

  type Order = PackageVersion -> seq<Request>

  type Edges = map<PkgNames.PkgName, PackageSnapshotDependency>

  /** The order in which each package lists what it asks for, and each group of the manifest. */
  datatype Orders = Orders(packages: Order, groups: DependencyGroup -> seq<Request>)

  ghost predicate IsOrder(ctx: Context, order: Order) {
    forall p :: ListsDependencies(p, ctx.config.autoInstallPeers, order(p))
  }

  ghost predicate AreOrders(inputs: Inputs, orders: Orders) {
    IsOrder(inputs.ctx, orders.packages) && forall group :: Lists(orders.groups(group), inputs.manifest.Group(group))
  }

  function AllKeys(ctx: Context): set<DependencyPath> {
    set p | p in Versions(ctx.registry) :: KeyOf(p)
  }

  lemma FewerKeys(ctx: Context, packages: Packages, p: PackageVersion, more: Packages)
    requires p in Versions(ctx.registry) && KeyOf(p) !in packages && more.Keys == packages.Keys + {KeyOf(p)}
    ensures |AllKeys(ctx) - more.Keys| < |AllKeys(ctx) - packages.Keys|
  {
    hide KeyOf;
    hide Versions;
    assert KeyOf(p) in AllKeys(ctx);
    assert AllKeys(ctx) - packages.Keys == (AllKeys(ctx) - more.Keys) + {KeyOf(p)};
  }

  lemma NoMoreKeys(ctx: Context, packages: Packages, more: Packages)
    requires packages.Keys <= more.Keys
    ensures |AllKeys(ctx) - more.Keys| <= |AllKeys(ctx) - packages.Keys|
  {
    Smaller(AllKeys(ctx) - more.Keys, AllKeys(ctx) - packages.Keys);
  }

  lemma HasIntegrity(ctx: Context, p: PackageVersion)
    requires ctx.Valid() && p in Versions(ctx.registry)
    ensures p.integrity.Some?
  {
  }

  /** A snapshot with its edges filled in. */
  function Finished(snapshot: PackageSnapshot, edges: Edges, dev: bool, optional: bool): PackageSnapshot {
    MergePackageFlags(snapshot.(dependencies := if edges == map[] then None else Some(edges)), dev, optional)
  }

  /** A package met again has its flags merged, and is not walked again. */
  function Revisited(packages: Packages, k: DependencyPath, dev: bool, optional: bool): (r: Packages)
    requires k in packages
    ensures r.Keys == packages.Keys
  {
    packages[k := MergePackageFlags(packages[k], dev, optional)]
  }

  /** A placeholder is filed before the walk descends. */
  function Placed(ctx: Context, packages: Packages, p: PackageVersion, dev: bool, optional: bool): (r: Packages)
    requires p.integrity.Some?
    ensures r.Keys == packages.Keys + {KeyOf(p)}
  {
    packages[KeyOf(p) := Placeholder(ctx, p, dev, optional)]
  }

  /** The walk of a package ends by filling in its snapshot. */
  function Closed(k: DependencyPath, walked: Result<(Packages, Edges), Request>, dev: bool, optional: bool):
    (r: Result<Packages, Request>)
    requires walked.Ok? ==> k in walked.value.0
    ensures r.Ok? <==> walked.Ok?
    ensures r.Ok? ==> r.value.Keys == walked.value.0.Keys
  {
    match walked
    case Err(e) => Err(e)
    case Ok((packages, edges)) => Ok(packages[k := Finished(packages[k], edges, dev, optional)])
  }

  /** The packages on file once `p` and all it needs have been walked. */
  ghost function Walk(ctx: Context, order: Order, packages: Packages, p: PackageVersion, dev: bool, optional: bool):
    (r: Result<Packages, Request>)
    requires ctx.Valid() && p in Versions(ctx.registry)
    ensures r.Ok? ==> packages.Keys <= r.value.Keys && KeyOf(p) in r.value
    decreases |AllKeys(ctx) - packages.Keys|, 0
  {
    HasIntegrity(ctx, p);
    hide Context.Valid;
    hide Versions;
    hide KeyOf;
    hide AllKeys;
    hide Closed;
    hide Revisited;
    hide Placed;
    var k := KeyOf(p);
    if k in packages then Ok(Revisited(packages, k, dev, optional))
    else
      var placed := Placed(ctx, packages, p, dev, optional);
      FewerKeys(ctx, packages, p, placed);
      Closed(k, WalkEntries(ctx, order, placed, p, order(p), map[], dev, optional), dev, optional)
  }

  /** The packages on file and the edges of `p` once these of its entries have been dealt with. */
  ghost function WalkEntries(ctx: Context, order: Order, packages: Packages, p: PackageVersion, entries: seq<Request>,
                             edges: Edges, dev: bool, optional: bool): (r: Result<(Packages, Edges), Request>)
    requires ctx.Valid()
    ensures r.Ok? ==> packages.Keys <= r.value.0.Keys
    decreases |AllKeys(ctx) - packages.Keys|, |entries|
  {
    if entries == [] then Ok((packages, edges))
    else
      var e := entries[0];
      match Resolve(ctx.registry, e)
      case None => Err(e)
      case Some(c) =>
        ResolveIsPublished(ctx.semver, ctx.registry, e);
        match Walk(ctx, order, packages, c, dev, optional || e.0 in p.optionalDependencies)
        case Err(f) => Err(f)
        case Ok(walked) =>
          NoMoreKeys(ctx, packages, walked);
          WalkEntries(ctx, order, walked, p, entries[1..], WithEdge(edges, e, c), dev, optional)
  }

  function WithEdge(edges: Edges, e: Request, c: PackageVersion): Edges {
    edges[NameOf(e.0) := PkgVerPeerRef(PkgVerPeer(c.version, ""))]
  }

  /** The packages on file and the direct dependencies recorded once these of them have been walked. */
  ghost function WalkRoots(ctx: Context, order: Order, packages: Packages, entries: seq<Request>,
                           stored: ResolvedDependencyMap, dev: bool, optional: bool):
    Result<(Packages, ResolvedDependencyMap), Request>
    requires ctx.Valid()
    decreases |entries|
  {
    if entries == [] then Ok((packages, stored))
    else
      var e := entries[0];
      match Resolve(ctx.registry, e)
      case None => Err(e)
      case Some(c) =>
        ResolveIsPublished(ctx.semver, ctx.registry, e);
        match Walk(ctx, order, packages, c, dev, optional)
        case Err(f) => Err(f)
        case Ok(walked) => WalkRoots(ctx, order, walked, entries[1..], WithRange(stored, e, c), dev, optional)
  }

  function WithRange(stored: ResolvedDependencyMap, e: Request, c: PackageVersion): ResolvedDependencyMap {
    stored[NameOf(e.0) := ResolvedDependencySpec(e.1, PkgVerPeer(c.version, ""))]
  }

  ghost function WalkGroup(inputs: Inputs, orders: Orders, packages: Packages, group: DependencyGroup):
    Result<(Packages, Option<ResolvedDependencyMap>), Request>
    requires inputs.ctx.Valid()
  {
    if group !in inputs.groups then Ok((packages, None))
    else
      var dev, optional := group == Dev, group == Optional;
      match WalkRoots(inputs.ctx, orders.packages, packages, orders.groups(group), map[], dev, optional)
      case Err(e) => Err(e)
      case Ok((walked, stored)) => Ok((walked, if stored == map[] then None else Some(stored)))
  }

  /** Production first, then optional, then development. */
  ghost function Generate(inputs: Inputs, orders: Orders): Result<Lockfile, Request>
    requires inputs.ctx.Valid()
  {
    match WalkGroup(inputs, orders, map[], Prod)
    case Err(e) => Err(e)
    case Ok((first, dependencies)) =>
      match WalkGroup(inputs, orders, first, Optional)
      case Err(e) => Err(e)
      case Ok((second, optionalDependencies)) =>
        match WalkGroup(inputs, orders, second, Dev)
        case Err(e) => Err(e)
        case Ok((third, devDependencies)) =>
          Ok(LockfileOf(dependencies, optionalDependencies, devDependencies, third))
  }

  function LockfileOf(dependencies: Option<ResolvedDependencyMap>, optionalDependencies: Option<ResolvedDependencyMap>,
                      devDependencies: Option<ResolvedDependencyMap>, packages: Packages): Lockfile {
    Lockfile(
      Single(ProjectSnapshot(dependencies, optionalDependencies, devDependencies)),
      if packages == map[] then None else Some(packages))
  }
}
