/** What every walk of the registry is given: the registry itself, how versions are read, and the settings. */
module DependencyContexts {
  import opened Wrappers
  import opened PkgVerPeers
  import opened Graphs
  import opened Registries
  import opened Lockfiles

  datatype Config = Config(autoInstallPeers: bool, lockfileIncludeTarballUrl: bool)

  datatype Context = Context(semver: Semver, registry: Registry, config: Config) {
    ghost predicate Valid() { IsRegistry(semver, registry) }

    function Needs(p: PackageVersion): set<Request> { Requests(p, config.autoInstallPeers) }

    function Graph(): map<PackageVersion, set<PackageVersion>> {
      DependencyGraph(registry, config.autoInstallPeers)
    }

    function Firm(): map<PackageVersion, set<PackageVersion>> {
      FirmGraph(registry, config.autoInstallPeers)
    }

    function Resolution(p: PackageVersion): LockfileResolution
      requires p.integrity.Some?
    {
      if config.lockfileIncludeTarballUrl then TarballResolution(p.tarball, Some(p.integrity.value))
      else RegistryResolution(p.integrity.value)
    }
  }

  /** A request of a package that resolves is an edge, and a firm edge unless the package lists it as optional. */
  lemma RequestIsEdge(ctx: Context, p: PackageVersion, e: Request)
    requires ctx.Valid() && p in Versions(ctx.registry)
    requires e in ctx.Needs(p) && Resolve(ctx.registry, e).Some?
    ensures var c := Resolve(ctx.registry, e).value;
      && c in Versions(ctx.registry) && c.name == e.0 && IsPublished(ctx.semver, c)
      && Edge(ctx.Graph(), p, c)
      && (e.0 !in p.optionalDependencies ==> Edge(ctx.Firm(), p, c))
  {
    ResolveIsPublished(ctx.semver, ctx.registry, e);
  }

  lemma FirmEdgeIsEdge(ctx: Context)
    ensures forall p, c :: Edge(ctx.Firm(), p, c) ==> Edge(ctx.Graph(), p, c)
  {
  }

  lemma ListedIsNeeded(ctx: Context, p: PackageVersion, entries: seq<Request>)
    requires ListsDependencies(p, ctx.config.autoInstallPeers, entries)
    ensures forall e :: e in entries ==> e in ctx.Needs(p)
  {
    ListingIsOrderFree(p, ctx.config.autoInstallPeers, entries);
  }
}
