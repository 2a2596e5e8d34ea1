/** Three ways of walking the registry, and one of walking the lockfile, end with the same packages. */
module OneClosure {
  import opened Wrappers
  import opened Graphs
  import opened Registries
  import opened Lockfiles
  import opened DependencyContexts
  import opened GeneratedLockfiles
  import opened StoreNames
  import VirtualStoreNames
  import InstallWithoutLockfile
  import StoreAdd

  /** The directories that a lockfile's packages get in the virtual store. */
  function LockfileStoreNames(packages: Packages): set<string> {
    set k | k in packages :: VirtualStoreNames.VirtualStoreName(k.packageSpecifier)
  }

  /** All direct dependencies of the enabled production, optional and development groups. */
  function AllRequested(inputs: Inputs): set<Request> {
    inputs.Requested(Prod) + inputs.Requested(Optional) + inputs.Requested(Dev)
  }

  lemma RootsAreRequested(inputs: Inputs)
    requires inputs.ctx.Valid()
    ensures ResolveAll(inputs.ctx.registry, AllRequested(inputs)) == inputs.AllRoots()
    ensures inputs.AllRoots() <= Versions(inputs.ctx.registry)
  {
    hide Inputs.Requested;
    assert ResolveAll(inputs.ctx.registry, AllRequested(inputs)) == inputs.AllRoots() by { hide Resolve; }
    forall p | p in inputs.AllRoots()
      ensures p in Versions(inputs.ctx.registry)
    {
      var e :| e in AllRequested(inputs) && Resolve(inputs.ctx.registry, e) == Some(p);
      ResolveIsPublished(inputs.ctx.semver, inputs.ctx.registry, e);
    }
  }

  lemma FiledUnderStoreNames(inputs: Inputs, packages: Packages, needed: set<PackageVersion>)
    requires inputs.ctx.Valid() && HasPlainNames(inputs.ctx.registry) && HoldsTheReachable(inputs, packages)
    requires forall p :: p in needed <==> inputs.IsNeeded(p)
    ensures LockfileStoreNames(packages) == set p | p in needed :: StoreName(p)
  {
    hide Inputs.IsNeeded;
    hide KeyOf;
    forall p | p in needed
      ensures StoreName(p) == VirtualStoreNames.VirtualStoreName(KeyOf(p).packageSpecifier)
    {
      assert IsPublished(inputs.ctx.semver, p);
      StoreNameOfKey(inputs.ctx.semver, p);
    }
    hide StoreName;
    hide VirtualStoreNames.VirtualStoreName;
    hide Versions;
    hide HasPlainNames;
  }

  /**
   * With plain names, for the same manifest and groups: the lockfile's keys, the packages expanded by any
   * interleaving of the installer, and the packages put in the store are one and the same set, and so are the names
   * they go by.
   */
  lemma SamePackages(inputs: Inputs, lockfile: Lockfile, requests: seq<Request>,
                     installed: InstallWithoutLockfile.State, added: StoreAdd.StoreProgress)
    requires inputs.ctx.Valid() && HasPlainNames(inputs.ctx.registry) && IsGenerated(inputs, lockfile)
    requires InstallWithoutLockfile.Asked(requests) == AllRequested(inputs)
    requires InstallWithoutLockfile.Invariant(inputs.ctx, requests, installed)
    requires InstallWithoutLockfile.IsQuiet(installed)
    requires StoreAdd.IsFilled(inputs.ctx, inputs.AllRoots(), added)
    ensures forall p :: p in installed.expanded <==> inputs.IsNeeded(p)
    ensures forall p :: p in added.stored <==> inputs.IsNeeded(p)
    ensures installed.resolved == added.resolved == LockfileStoreNames(OrEmpty(lockfile.packages))
  {
    hide NamesTellApart;
    hide Context.Graph;
    hide Reachable;
    hide Inputs.AllRoots;
    hide Versions;
    hide StoreName;
    hide HasPlainNames;
    hide IsGenerated;
    hide AllRequested;
    RootsAreRequested(inputs);
    PlainNamesTellApart(inputs.ctx, inputs.AllRoots());
    InstallWithoutLockfile.QuietIsReachable(inputs.ctx, requests, installed);
    StoreAdd.FilledIsReachable(inputs.ctx, inputs.AllRoots(), added);
    GeneratedKeys(inputs, lockfile);
    FiledUnderStoreNames(inputs, OrEmpty(lockfile.packages), set p | p in installed.expanded);
    NamesOfPackages(inputs.ctx, requests, installed, inputs.AllRoots(), added);
  }

  lemma GeneratedKeys(inputs: Inputs, lockfile: Lockfile)
    requires IsGenerated(inputs, lockfile)
    ensures HoldsTheReachable(inputs, OrEmpty(lockfile.packages))
  {
  }

  lemma NamesOfPackages(ctx: Context, requests: seq<Request>, installed: InstallWithoutLockfile.State,
                        roots: set<PackageVersion>, added: StoreAdd.StoreProgress)
    requires InstallWithoutLockfile.Invariant(ctx, requests, installed) && StoreAdd.IsFilled(ctx, roots, added)
    requires forall p :: p in installed.expanded <==> p in added.stored
    ensures var needed := set p | p in installed.expanded;
      installed.resolved == added.resolved == set p | p in needed :: StoreName(p)
  {
    hide StoreName;
    hide Versions;
    hide Reachable;
    hide StoreAdd.HasAllItNeeds;
    hide InstallWithoutLockfile.IsPending;
    hide InstallWithoutLockfile.IsAskedFor;
  }
}
