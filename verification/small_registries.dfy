/** Registries of a few packages, in which a range names the one version it stands for. */
module SmallRegistries {
  import opened Wrappers
  import opened PkgVerPeers
  import opened Registries
  import opened Lockfiles
  import opened DependencyContexts
  import opened GeneratedLockfiles
  import opened StoreNames

  function Package(name: string, version: string, dependencies: map<string, string>,
                   optional: map<string, string>): PackageVersion {
    PackageVersion(name, version, "", Some(""), dependencies, optional, map[])
  }

  function ContextOf(semver: Semver, metadata: map<string, map<string, PackageVersion>>): Context {
    Context(semver, Registry(metadata, (name, range) => Some(range)), Config(false, false))
  }

  lemma OnlyItem(name: string, range: string)
    ensures forall e: Request :: e in map[name := range].Items <==> e == (name, range)
  {
  }

  lemma OnlyElement(requests: set<Request>, e: Request)
    requires forall f :: f in requests <==> f == e
    ensures requests == {e}
  {
  }

  lemma ItemOf(name: string, range: string)
    ensures map[name := range].Items == {(name, range)}
  {
    OnlyItem(name, range);
    OnlyElement(map[name := range].Items, (name, range));
  }

  lemma NeededIn(inputs: Inputs)
    requires inputs.ctx.Valid() && inputs.AllRoots() <= Versions(inputs.ctx.registry)
    ensures forall p :: inputs.IsNeeded(p) ==> p in Versions(inputs.ctx.registry)
  {
    ReachableIsPublished(inputs.ctx, inputs.AllRoots());
  }

  /** A lockfile can be generated when all that is published can be met. */
  lemma AllMet(inputs: Inputs)
    requires inputs.ctx.Valid() && inputs.AllRoots() <= Versions(inputs.ctx.registry)
    requires forall group :: group != Peer ==> AllResolve(inputs.ctx.registry, inputs.Requested(group))
    requires forall p :: p in Versions(inputs.ctx.registry) ==> AllResolve(inputs.ctx.registry, inputs.ctx.Needs(p))
    ensures CanGenerate(inputs)
  {
    NeededIn(inputs);
    hide Inputs.IsNeeded;
    hide Inputs.Requested;
    hide AllResolve;
    hide Versions;
    hide Context.Needs;
  }
}
