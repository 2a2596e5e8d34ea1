/** What the optional flags of a generated lockfile say, and when they are exact whatever the order of the walk. */
module OptionalFlags {
  import opened Wrappers
  import opened DependencyPaths
  import opened Graphs
  import opened Registries
  import opened Lockfiles
  import opened DependencyContexts
  import opened BehindOptional
  import opened GeneratedLockfiles

  /** A firm direct dependency, or firmly needed by a package that is first walked as non-optional on every order. */
  ghost predicate HasFirmSupport(inputs: Inputs, p: PackageVersion) {
    || p in inputs.FirmRoots()
    || exists q :: inputs.IsNeeded(q) && !inputs.MayStartOptional(q) && Edge(inputs.ctx.Firm(), q, p)
  }

  /** A firm direct dependency, or firmly needed by a package that some order may walk as non-optional first. */
  ghost predicate MayHaveFirmSupport(inputs: Inputs, p: PackageVersion) {
    || p in inputs.FirmRoots()
    || exists q :: inputs.IsNeeded(q) && inputs.MayStartFirm(q) && Edge(inputs.ctx.Firm(), q, p)
  }

  predicate IsOptional(packages: Packages, k: DependencyPath)
    requires k in packages
  {
    packages[k].optional == Some(true)
  }

  /** The flag, the way the package was first walked, and the package's reason to be non-optional. */
  lemma FlagAndReason(inputs: Inputs, packages: Packages, walked: map<PackageVersion, bool>, p: PackageVersion)
    requires OptionalIsSound(inputs, packages) && OptionalIsLocal(inputs, packages, walked)
    requires inputs.IsNeeded(p) && KeyOf(p) in packages
    ensures !IsOptional(packages, KeyOf(p)) ==> Reachable(inputs.ctx.Firm(), inputs.FirmRoots(), p)
    ensures !inputs.MayStartOptional(p) ==> !IsOptional(packages, KeyOf(p))
    ensures IsOptional(packages, KeyOf(p)) <==>
      !(p in inputs.FirmRoots() || exists q :: q in walked && !walked[q] && Edge(inputs.ctx.Firm(), q, p))
  {
    hide Inputs.IsNeeded;
    hide Inputs.MayStartOptional;
    hide Inputs.MayStartFirm;
    hide Inputs.FirmRoots;
    hide KeyOf;
    hide Reachable;
    hide Context.Firm;
    var flag := packages[KeyOf(p)].optional;
    assert flag.Some?;
    if flag.value {
      assert flag == Some(true);
    } else {
      assert flag == Some(false);
    }
  }

  lemma SupportIsReason(inputs: Inputs, packages: Packages, walked: map<PackageVersion, bool>, p: PackageVersion)
    requires HoldsTheReachable(inputs, packages) && OptionalIsLocal(inputs, packages, walked)
    requires HasFirmSupport(inputs, p)
    ensures p in inputs.FirmRoots() || exists q :: q in walked && !walked[q] && Edge(inputs.ctx.Firm(), q, p)
  {
    hide Inputs.IsNeeded;
    hide Inputs.MayStartOptional;
    hide Inputs.MayStartFirm;
    hide Inputs.FirmRoots;
    hide KeyOf;
    hide Versions;
    hide Context.Firm;
    if p !in inputs.FirmRoots() {
      var q :| inputs.IsNeeded(q) && !inputs.MayStartOptional(q) && Edge(inputs.ctx.Firm(), q, p);
      assert KeyOf(q) in packages;
      assert q in walked && !walked[q];
    }
  }

  /** Two bounds for the optional flag, each with the pass taken into account in which a package is first met. */
  lemma FlagsOf(inputs: Inputs, lockfile: Lockfile, p: PackageVersion)
    requires IsGenerated(inputs, lockfile) && inputs.IsNeeded(p)
    ensures var packages := OrEmpty(lockfile.packages);
      && KeyOf(p) in packages && packages[KeyOf(p)].optional.Some?
      && (!IsOptional(packages, KeyOf(p)) ==> Reachable(inputs.ctx.Firm(), inputs.FirmRoots(), p))
      && (!IsOptional(packages, KeyOf(p)) ==> MayHaveFirmSupport(inputs, p))
      && (HasFirmSupport(inputs, p) || !inputs.MayStartOptional(p) ==> !IsOptional(packages, KeyOf(p)))
  {
    var packages := OrEmpty(lockfile.packages);
    var walked := PartsOf(inputs, lockfile);
    hide Inputs.IsNeeded;
    hide KeyOf;
    hide Versions;
    hide OptionalIsLocal;
    FlagAndReason(inputs, packages, walked, p);
    if HasFirmSupport(inputs, p) {
      SupportIsReason(inputs, packages, walked, p);
    }
    if !IsOptional(packages, KeyOf(p)) {
      ReasonMayBeSupport(inputs, packages, walked, p);
    }
  }

  lemma PartsOf(inputs: Inputs, lockfile: Lockfile) returns (walked: map<PackageVersion, bool>)
    requires IsGenerated(inputs, lockfile)
    ensures HoldsTheReachable(inputs, OrEmpty(lockfile.packages)) && OptionalIsSound(inputs, OrEmpty(lockfile.packages))
    ensures OptionalIsLocal(inputs, OrEmpty(lockfile.packages), walked)
    ensures forall q :: q in walked ==> inputs.IsNeeded(q)
  {
    walked :| OptionalIsLocal(inputs, OrEmpty(lockfile.packages), walked);
  }

  lemma ReasonMayBeSupport(inputs: Inputs, packages: Packages, walked: map<PackageVersion, bool>, p: PackageVersion)
    requires HoldsTheReachable(inputs, packages) && OptionalIsLocal(inputs, packages, walked)
    requires forall q :: q in walked ==> inputs.IsNeeded(q)
    requires p in inputs.FirmRoots() || exists q :: q in walked && !walked[q] && Edge(inputs.ctx.Firm(), q, p)
    ensures MayHaveFirmSupport(inputs, p)
  {
    hide Inputs.IsNeeded;
    hide Inputs.MayStartOptional;
    hide Inputs.MayStartFirm;
    hide Inputs.FirmRoots;
    hide KeyOf;
    hide Versions;
    hide Context.Firm;
    if p !in inputs.FirmRoots() {
      var q :| q in walked && !walked[q] && Edge(inputs.ctx.Firm(), q, p);
      assert KeyOf(q) in packages;
    }
  }

  /**
   * The optional flags are a function of the inputs, whatever the order of the walk, when no package hangs on how
   * another one is first met.
   */
  lemma OptionalIsDetermined(inputs: Inputs, lockfile: Lockfile)
    requires IsGenerated(inputs, lockfile)
    requires forall p :: inputs.IsNeeded(p) && MayHaveFirmSupport(inputs, p) ==> HasFirmSupport(inputs, p)
    ensures forall p :: inputs.IsNeeded(p) ==>
      && KeyOf(p) in OrEmpty(lockfile.packages)
      && (IsOptional(OrEmpty(lockfile.packages), KeyOf(p)) <==> !HasFirmSupport(inputs, p))
  {
    hide *;
    forall p | inputs.IsNeeded(p)
      ensures KeyOf(p) in OrEmpty(lockfile.packages)
      ensures IsOptional(OrEmpty(lockfile.packages), KeyOf(p)) <==> !HasFirmSupport(inputs, p)
    {
      FlagsOf(inputs, lockfile, p);
    }
  }

  /**
   * The optional flags are exact, whatever the order of the walk, when every package that firm edges lead to has firm
   * support.
   */
  lemma OptionalIsExact(inputs: Inputs, lockfile: Lockfile)
    requires IsGenerated(inputs, lockfile)
    requires forall p ::
      inputs.IsNeeded(p) && Reachable(inputs.ctx.Firm(), inputs.FirmRoots(), p) ==> HasFirmSupport(inputs, p)
    ensures forall p :: inputs.IsNeeded(p) ==>
      && KeyOf(p) in OrEmpty(lockfile.packages)
      && (IsOptional(OrEmpty(lockfile.packages), KeyOf(p)) <==> !Reachable(inputs.ctx.Firm(), inputs.FirmRoots(), p))
  {
    hide *;
    forall p | inputs.IsNeeded(p)
      ensures KeyOf(p) in OrEmpty(lockfile.packages)
      ensures IsOptional(OrEmpty(lockfile.packages), KeyOf(p)) <==> !Reachable(inputs.ctx.Firm(), inputs.FirmRoots(), p)
    {
      FlagsOf(inputs, lockfile, p);
    }
  }

  /**
   * A package is marked optional on every order if whatever needs it firmly is first met in the optional pass, or in
   * another pass that does not reach it along firm edges.
   */
  lemma LateSupportIsLost(inputs: Inputs, lockfile: Lockfile, p: PackageVersion)
    requires IsGenerated(inputs, lockfile) && inputs.IsNeeded(p) && p !in inputs.FirmRoots()
    requires forall q :: inputs.IsNeeded(q) && Edge(inputs.ctx.Firm(), q, p) ==>
      || (inputs.IsInProd(q) && !Reachable(inputs.ctx.Firm(), inputs.Roots(Prod), q))
      || (!inputs.IsInProd(q) && inputs.IsInNonDev(q))
      || (!inputs.IsInProd(q) && !Reachable(inputs.ctx.Firm(), inputs.Roots(Dev), q))
    ensures KeyOf(p) in OrEmpty(lockfile.packages) && IsOptional(OrEmpty(lockfile.packages), KeyOf(p))
  {
    FlagsOf(inputs, lockfile, p);
    hide IsGenerated;
    hide Inputs.IsNeeded;
    hide Inputs.IsInProd;
    hide Inputs.IsInNonDev;
    hide Inputs.FirmRoots;
    hide KeyOf;
    hide Reachable;
    hide HasFirmSupport;
    hide Context.Firm;
  }

  lemma NothingBehindIt(inputs: Inputs, p: PackageVersion)
    requires inputs.Roots(Optional) == {} && inputs.IsNeeded(p)
    requires forall q :: inputs.IsNeeded(q) ==> q.optionalDependencies == map[]
    ensures !inputs.MayStartOptional(p)
  {
    var g := inputs.ctx.Graph();
    assert forall q, c :: inputs.IsNeeded(q) ==> !IsOptionalEdge(inputs.ctx, q, c);
    hide Context.Graph;
    hide IsOptionalEdge;
    ReachMonotone(g, inputs.Roots(Prod), inputs.AllRoots());
    ReachMonotone(g, inputs.Roots(Dev), inputs.AllRoots());
    hide Inputs.Roots;
    assert inputs.NonDevRoots() == inputs.Roots(Prod);
    assert !Reachable(g, {}, p);
    hide Reachable;
  }

  /** With nothing optional in the manifest or among the needed packages, no package is marked optional. */
  lemma NothingIsOptional(inputs: Inputs, lockfile: Lockfile)
    requires IsGenerated(inputs, lockfile)
    requires Optional !in inputs.groups || inputs.manifest.optionalDependencies == map[]
    requires forall p :: inputs.IsNeeded(p) ==> p.optionalDependencies == map[]
    ensures forall p :: inputs.IsNeeded(p) ==>
      KeyOf(p) in OrEmpty(lockfile.packages) && !IsOptional(OrEmpty(lockfile.packages), KeyOf(p))
  {
    NothingOptionalAsked(inputs);
    hide *;
    forall p | inputs.IsNeeded(p)
      ensures KeyOf(p) in OrEmpty(lockfile.packages) && !IsOptional(OrEmpty(lockfile.packages), KeyOf(p))
    {
      NothingBehindIt(inputs, p);
      FlagsOf(inputs, lockfile, p);
    }
  }

  lemma NothingOptionalAsked(inputs: Inputs)
    requires Optional !in inputs.groups || inputs.manifest.optionalDependencies == map[]
    ensures inputs.Roots(Optional) == {}
  {
    assert inputs.Requested(Optional) == {};
  }
}
