/** Every step of the generating function keeps what is known of the walk, so its result is a generated lockfile. */
module GenerationHolds {
  import opened Wrappers
  import opened PkgVerPeers
  import opened DependencyPaths
  import opened SnapshotReferences
  import opened Registries
  import opened Lockfiles
  import opened DependencyContexts
  import opened LockfileWalk
  import opened BehindOptional
  import opened GeneratedLockfiles
  import opened Generation
  import opened StoreNames

  lemma WalkAgain(ctx: Context, order: Order, packages: Packages, p: PackageVersion, dev: bool, optional: bool)
    requires ctx.Valid() && p in Versions(ctx.registry) && KeyOf(p) in packages
    ensures Walk(ctx, order, packages, p, dev, optional)
      == Ok(packages[KeyOf(p) := MergePackageFlags(packages[KeyOf(p)], dev, optional)])
  {
  }

  lemma WalkAnew(ctx: Context, order: Order, packages: Packages, p: PackageVersion, dev: bool, optional: bool)
    requires ctx.Valid() && p in Versions(ctx.registry) && KeyOf(p) !in packages
    ensures p.integrity.Some?
    ensures var placed := packages[KeyOf(p) := Placeholder(ctx, p, dev, optional)];
      var inner := WalkEntries(ctx, order, placed, p, order(p), map[], dev, optional);
      var outer := Walk(ctx, order, packages, p, dev, optional);
      if inner.Err? then outer == Err(inner.error)
      else
        && KeyOf(p) in inner.value.0
        && outer == Ok(inner.value.0[KeyOf(p) := Finished(inner.value.0[KeyOf(p)], inner.value.1, dev, optional)])
  {
    HasIntegrity(ctx, p);
    hide Context.Valid;
    hide Versions;
    hide KeyOf;
    hide WalkEntries;
    hide Finished;
    var placed := Placed(ctx, packages, p, dev, optional);
    var inner := WalkEntries(ctx, order, placed, p, order(p), map[], dev, optional);
    assert Walk(ctx, order, packages, p, dev, optional) == Closed(KeyOf(p), inner, dev, optional);
  }

  lemma NoEntries(ctx: Context, order: Order, packages: Packages, p: PackageVersion, edges: Edges, dev: bool,
                  optional: bool)
    requires ctx.Valid()
    ensures WalkEntries(ctx, order, packages, p, [], edges, dev, optional) == Ok((packages, edges))
  {
  }

  lemma EntryUnmet(ctx: Context, order: Order, packages: Packages, p: PackageVersion, entries: seq<Request>, i: nat,
                   edges: Edges, dev: bool, optional: bool)
    requires ctx.Valid() && i < |entries| && Resolve(ctx.registry, entries[i]).None?
    ensures WalkEntries(ctx, order, packages, p, entries[i..], edges, dev, optional) == Err(entries[i])
  {
    hide Context.Valid;
    hide Resolve;
  }

  lemma EntryStep(ctx: Context, order: Order, packages: Packages, p: PackageVersion, entries: seq<Request>, i: nat,
                  edges: Edges, dev: bool, optional: bool)
    requires ctx.Valid() && i < |entries| && Resolve(ctx.registry, entries[i]).Some?
    ensures var c := Resolve(ctx.registry, entries[i]).value;
      && c in Versions(ctx.registry)
      && var walked := Walk(ctx, order, packages, c, dev, optional || entries[i].0 in p.optionalDependencies);
      && WalkEntries(ctx, order, packages, p, entries[i..], edges, dev, optional)
        == if walked.Err? then Err(walked.error)
           else WalkEntries(ctx, order, walked.value, p, entries[i + 1..], WithEdge(edges, entries[i], c), dev,
             optional)
  {
    ResolveIsPublished(ctx.semver, ctx.registry, entries[i]);
    hide Context.Valid;
    hide Resolve;
    hide Versions;
    hide Walk;
    hide WithEdge;
    assert entries[i..][0] == entries[i] && entries[i..][1..] == entries[i + 1..];
  }

  lemma NoRoots(ctx: Context, order: Order, packages: Packages, stored: ResolvedDependencyMap, dev: bool,
                optional: bool)
    requires ctx.Valid()
    ensures WalkRoots(ctx, order, packages, [], stored, dev, optional) == Ok((packages, stored))
  {
  }

  lemma RootIsUnmet(ctx: Context, order: Order, packages: Packages, entries: seq<Request>, i: nat,
                    stored: ResolvedDependencyMap, dev: bool, optional: bool)
    requires ctx.Valid() && i < |entries| && Resolve(ctx.registry, entries[i]).None?
    ensures WalkRoots(ctx, order, packages, entries[i..], stored, dev, optional) == Err(entries[i])
  {
    hide Context.Valid;
    hide Resolve;
  }

  lemma RootIsWalked(ctx: Context, order: Order, packages: Packages, entries: seq<Request>, i: nat,
                     stored: ResolvedDependencyMap, dev: bool, optional: bool)
    requires ctx.Valid() && i < |entries| && Resolve(ctx.registry, entries[i]).Some?
    ensures var c := Resolve(ctx.registry, entries[i]).value;
      && c in Versions(ctx.registry)
      && var walked := Walk(ctx, order, packages, c, dev, optional);
      && WalkRoots(ctx, order, packages, entries[i..], stored, dev, optional)
        == if walked.Err? then Err(walked.error)
           else WalkRoots(ctx, order, walked.value, entries[i + 1..], WithRange(stored, entries[i], c), dev, optional)
  {
    ResolveIsPublished(ctx.semver, ctx.registry, entries[i]);
    hide Context.Valid;
    hide Resolve;
    hide Versions;
    hide Walk;
    hide WithRange;
    assert entries[i..][0] == entries[i] && entries[i..][1..] == entries[i + 1..];
  }

  /** Walking one package: terminates on cycles, completes what it starts, and fails only over an unmet request. */
  lemma {:induction false} WalkHolds(ctx: Context, order: Order, s: Progress, p: PackageVersion, dev: bool,
                                     optional: bool, soft: set<PackageVersion>) returns (t: Progress)
    requires IsOrder(ctx, order) && ctx.Valid() && p in Versions(ctx.registry)
    requires Consistent(ctx, s) && MayWalk(ctx, s, p, optional)
    requires OptionalIsBehind(ctx, soft, s) && (optional ==> IsBehindOptional(ctx, s.roots, soft, p))
    ensures var walked := Walk(ctx, order, s.packages, p, dev, optional);
      if walked.Err? then IsUnmet(ctx, s.roots, walked.error)
      else t.packages == walked.value && HasWalked(ctx, s, t, p, dev, optional) && OptionalIsBehind(ctx, soft, t)
    decreases |Versions(ctx.registry) - s.walked.Keys|, 1, 0
  {
    hide *;
    MayWalkFacts(ctx, s, p, optional);
    if KeyOf(p) in s.packages {
      WalkAgain(ctx, order, s.packages, p, dev, optional);
      t := MergeWalk(ctx, s, p, dev, optional);
      SameBehind(ctx, soft, s, t);
    } else {
      WalkAnew(ctx, order, s.packages, p, dev, optional);
      ListingOf(ctx, order, p);
      var placed := StartWalking(ctx, s, p, order(p), dev, optional);
      StartBehind(ctx, soft, s, placed, p, optional);
      WholeListing(order(p));
      var walked, edges := EntriesHold(ctx, order, s, placed, placed, p, order(p), map[], 0, dev, optional, soft);
      t := walked;
      if WalkEntries(ctx, order, placed.packages, p, order(p), map[], dev, optional).Ok? {
        t := FinishWalk(ctx, s, placed, walked, p, order(p), edges, dev, optional);
        FinishedAs(walked.packages, KeyOf(p), edges, dev, optional);
        SameBehind(ctx, soft, walked, t);
      }
    }
  }

  lemma ListingOf(ctx: Context, order: Order, p: PackageVersion)
    requires IsOrder(ctx, order)
    ensures ListsDependencies(p, ctx.config.autoInstallPeers, order(p))
  {
  }

  lemma WholeListing(entries: seq<Request>)
    ensures entries[0..] == entries && entries[|entries|..] == []
  {
  }

  lemma FinishedAs(packages: Packages, k: DependencyPath, edges: Edges, dev: bool, optional: bool)
    requires k in packages
    ensures Finished(packages[k], edges, dev, optional) == MergePackageFlags(
      packages[k].(dependencies := if edges == map[] then None else Some(edges)), dev, optional)
  {
  }

  /** The loop over a package's dependencies, from the one at `i` on. */
  lemma {:induction false} EntriesHold(ctx: Context, order: Order, before: Progress, placed: Progress, s: Progress,
                                       p: PackageVersion, entries: seq<Request>, edges: Edges, i: nat, dev: bool,
                                       optional: bool, soft: set<PackageVersion>) returns (t: Progress, all: Edges)
    requires IsOrder(ctx, order) && ctx.Valid() && i <= |entries|
    requires IsWalking(ctx, before, placed, s, p, entries, edges, i, dev, optional)
    requires OptionalIsBehind(ctx, soft, s) && (optional ==> IsBehindOptional(ctx, before.roots, soft, p))
    ensures var walked := WalkEntries(ctx, order, s.packages, p, entries[i..], edges, dev, optional);
      if walked.Err? then IsUnmet(ctx, before.roots, walked.error)
      else
        && walked.value == (t.packages, all) && OptionalIsBehind(ctx, soft, t)
        && IsWalking(ctx, before, placed, t, p, entries, all, |entries|, dev, optional)
    decreases |Versions(ctx.registry) - before.walked.Keys|, 0, |entries| - i
  {
    hide *;
    t, all := s, edges;
    if i == |entries| {
      WholeListing(entries);
      NoEntries(ctx, order, s.packages, p, edges, dev, optional);
    } else {
      BeforeChild(ctx, before, placed, s, p, entries, edges, i, dev, optional);
      if Resolve(ctx.registry, entries[i]).None? {
        EntryUnmet(ctx, order, s.packages, p, entries, i, edges, dev, optional);
      } else {
        var c := Resolve(ctx.registry, entries[i]).value;
        EntryStep(ctx, order, s.packages, p, entries, i, edges, dev, optional);
        ListedChildBehind(ctx, before, s, soft, p, entries, i, optional);
        var childOptional := optional || entries[i].0 in p.optionalDependencies;
        var walked := WalkHolds(ctx, order, s, c, dev, childOptional, soft);
        if Walk(ctx, order, s.packages, c, dev, childOptional).Ok? {
          EdgeAs(ctx, edges, entries[i], c);
          AfterChild(ctx, before, placed, s, walked, p, entries, edges, WithEdge(edges, entries[i], c), i, dev,
            optional);
          t, all := EntriesHold(ctx, order, before, placed, walked, p, entries, WithEdge(edges, entries[i], c), i + 1,
                                dev, optional, soft);
        }
      }
    }
  }

  lemma EdgeAs(ctx: Context, edges: Edges, e: Request, c: PackageVersion)
    requires IsPublished(ctx.semver, c)
    ensures edges[NameOf(e.0) := PkgVerPeerRef(PackageSpecifier(ctx.semver, c).suffix)] == WithEdge(edges, e, c)
  {
    SpecifierIsKey(ctx.semver, c);
  }

  /** The loop over the direct dependencies of one group, from the one at `i` on. */
  lemma {:induction false} RootsHold(ctx: Context, order: Order, start: Progress, s: Progress, m: map<string, string>,
                                     entries: seq<Request>, stored: ResolvedDependencyMap, i: nat, dev: bool,
                                     optional: bool, soft: set<PackageVersion>)
    returns (t: Progress, all: ResolvedDependencyMap)
    requires IsOrder(ctx, order) && ctx.Valid() && i <= |entries| && Lists(entries, m)
    requires IsBuildingGroup(ctx, start, s, stored, entries, i, dev, optional) && OptionalIsBehind(ctx, soft, s)
    requires optional ==> ResolveAll(ctx.registry, m.Items) <= soft
    ensures var walked := WalkRoots(ctx, order, s.packages, entries[i..], stored, dev, optional);
      if walked.Err? then IsUnmetFrom(ctx, start.roots, m.Items, walked.error)
      else
        && walked.value == (t.packages, all) && OptionalIsBehind(ctx, soft, t)
        && IsBuildingGroup(ctx, start, t, all, entries, |entries|, dev, optional)
    decreases |entries| - i
  {
    hide *;
    t, all := s, stored;
    if i == |entries| {
      WholeListing(entries);
      NoRoots(ctx, order, s.packages, stored, dev, optional);
    } else {
      RootMayBeWalked(ctx, start, s, stored, entries, i, dev, optional);
      if Resolve(ctx.registry, entries[i]).None? {
        RootIsUnmet(ctx, order, s.packages, entries, i, stored, dev, optional);
        UnmetRoot(ctx, start, s, s, stored, m, entries, i, dev, optional, entries[i]);
      } else {
        var c := Resolve(ctx.registry, entries[i]).value;
        var asked := WithRoot(s, c, optional);
        WithRootFiles(s, c, optional);
        RootIsWalked(ctx, order, s.packages, entries, i, stored, dev, optional);
        if optional {
          ListedRoot(ctx, m, entries, i);
        }
        RootBehind(ctx, soft, s, c, optional);
        var walked := WalkHolds(ctx, order, asked, c, dev, optional, soft);
        if Walk(ctx, order, s.packages, c, dev, optional).Err? {
          UnmetRoot(ctx, start, s, asked, stored, m, entries, i, dev, optional,
                    Walk(ctx, order, s.packages, c, dev, optional).error);
        } else {
          RootStep(ctx, start, s, walked, stored, entries, i, dev, optional);
          RangeAs(stored, entries[i], c);
          t, all := RootsHold(ctx, order, start, walked, m, entries, WithRange(stored, entries[i], c), i + 1, dev,
                              optional, soft);
        }
      }
    }
  }

  lemma RangeAs(stored: ResolvedDependencyMap, e: Request, c: PackageVersion)
    ensures stored[NameOf(e.0) := ResolvedDependencySpec(e.1, PkgVerPeer(c.version, ""))] == WithRange(stored, e, c)
  {
  }

  lemma GroupOf(inputs: Inputs, orders: Orders, packages: Packages, group: DependencyGroup)
    requires inputs.ctx.Valid()
    ensures var dev, optional := group == Dev, group == Optional;
      if group !in inputs.groups then
        inputs.Requested(group) == {} && WalkGroup(inputs, orders, packages, group) == Ok((packages, None))
      else
        && inputs.Requested(group) == inputs.manifest.Group(group).Items
        && var walked := WalkRoots(inputs.ctx, orders.packages, packages, orders.groups(group), map[], dev, optional);
        && WalkGroup(inputs, orders, packages, group)
          == if walked.Err? then Err(walked.error)
             else Ok((walked.value.0, if walked.value.1 == map[] then None else Some(walked.value.1)))
  {
    hide WalkRoots;
    hide Context.Valid;
  }

  lemma OrdersOf(inputs: Inputs, orders: Orders, group: DependencyGroup)
    requires AreOrders(inputs, orders)
    ensures IsOrder(inputs.ctx, orders.packages) && Lists(orders.groups(group), inputs.manifest.Group(group))
  {
  }

  lemma RootsOfGroup(inputs: Inputs, group: DependencyGroup)
    ensures inputs.Roots(group) == ResolveAll(inputs.ctx.registry, inputs.Requested(group))
  {
  }

  /** One pass. */
  lemma GroupHolds(inputs: Inputs, orders: Orders, s: Progress, group: DependencyGroup, soft: set<PackageVersion>)
    returns (t: Progress)
    requires inputs.ctx.Valid() && AreOrders(inputs, orders)
    requires IsAtRest(inputs.ctx, s) && OptionalIsBehind(inputs.ctx, soft, s)
    requires group == Optional ==> inputs.Roots(group) <= soft
    ensures var walked := WalkGroup(inputs, orders, s.packages, group);
      if walked.Err? then IsUnmetFrom(inputs.ctx, s.roots, inputs.Requested(group), walked.error)
      else
        && walked.value.0 == t.packages && OptionalIsBehind(inputs.ctx, soft, t)
        && HasBuiltGroup(inputs.ctx, s, t, inputs.Requested(group), walked.value.1, group == Dev, group == Optional)
  {
    hide *;
    var ctx, dev, optional := inputs.ctx, group == Dev, group == Optional;
    t := s;
    GroupOf(inputs, orders, s.packages, group);
    if group !in inputs.groups {
      SkipGroup(ctx, s, dev, optional);
    } else {
      var m, entries := inputs.manifest.Group(group), orders.groups(group);
      OrdersOf(inputs, orders, group);
      RootsOfGroup(inputs, group);
      StartGroup(ctx, s, m, entries, dev, optional);
      WholeListing(entries);
      var walked, all := RootsHold(ctx, orders.packages, s, s, m, entries, map[], 0, dev, optional, soft);
      t := walked;
      if WalkRoots(ctx, orders.packages, s.packages, entries, map[], dev, optional).Ok? {
        FinishGroup(ctx, s, walked, all, m, entries, dev, optional);
      }
    }
  }

  /** The three passes of the function, one after the other. */
  lemma PassesAre(inputs: Inputs, orders: Orders)
    requires inputs.ctx.Valid()
    ensures var first := WalkGroup(inputs, orders, map[], Prod);
      var whole := Generate(inputs, orders);
      if first.Err? then whole == Err(first.error)
      else
        var second := WalkGroup(inputs, orders, first.value.0, Optional);
        if second.Err? then whole == Err(second.error)
        else
          var third := WalkGroup(inputs, orders, second.value.0, Dev);
          if third.Err? then whole == Err(third.error)
          else whole == Ok(LockfileOf(first.value.1, second.value.1, third.value.1, third.value.0))
  {
    hide WalkGroup;
    hide Context.Valid;
  }

  /**
   * Whatever the orders, generation succeeds exactly when every request of the manifest and of all it leads to can be
   * met, and then its result is a generated lockfile.
   */
  lemma GenerateHolds(inputs: Inputs, orders: Orders)
    requires inputs.ctx.Valid() && AreOrders(inputs, orders)
    ensures Generate(inputs, orders).Ok? <==> CanGenerate(inputs)
    ensures Generate(inputs, orders).Ok? ==> IsGenerated(inputs, Generate(inputs, orders).value)
    ensures Generate(inputs, orders).Err? ==> Resolve(inputs.ctx.registry, Generate(inputs, orders).error).None?
  {
    hide *;
    var ctx := inputs.ctx;
    var s0 := Progress(map[], map[], {}, {}, {});
    var soft := inputs.Roots(Optional);
    StartsAtRest(ctx);
    NothingBehind(ctx, {}, s0);
    PassesAre(inputs, orders);
    RootSets(inputs);
    var s1 := GroupHolds(inputs, orders, s0, Prod, {});
    var first := WalkGroup(inputs, orders, map[], Prod);
    if first.Err? {
      CannotGenerate(inputs, {}, Prod, first.error);
    } else {
      BuiltGroup(inputs, s0, s1, first.value.1, Prod);
      MoreBehind(ctx, {}, soft, s1);
      var s2 := GroupHolds(inputs, orders, s1, Optional, soft);
      var second := WalkGroup(inputs, orders, s1.packages, Optional);
      if second.Err? {
        CannotGenerate(inputs, s1.roots, Optional, second.error);
      } else {
        BuiltGroup(inputs, s1, s2, second.value.1, Optional);
        var s3 := GroupHolds(inputs, orders, s2, Dev, soft);
        var third := WalkGroup(inputs, orders, s2.packages, Dev);
        if third.Err? {
          CannotGenerate(inputs, s2.roots, Dev, third.error);
        } else {
          var lockfile := LockfileOf(first.value.1, second.value.1, third.value.1, s3.packages);
          PartsOfLockfile(first.value.1, second.value.1, third.value.1, s3.packages);
          Generated(inputs, s0, s1, s2, s3, lockfile);
        }
      }
    }
  }

  lemma RootSets(inputs: Inputs)
    ensures {} + inputs.Roots(Prod) <= inputs.AllRoots()
    ensures {} + inputs.Roots(Prod) + inputs.Roots(Optional) <= inputs.AllRoots()
  {
  }

  lemma PartsOfLockfile(a: Option<ResolvedDependencyMap>, b: Option<ResolvedDependencyMap>,
                        c: Option<ResolvedDependencyMap>, packages: Packages)
    ensures var lockfile := LockfileOf(a, b, c, packages);
      && lockfile.projectSnapshot == Single(ProjectSnapshot(a, b, c))
      && lockfile.packages == if packages == map[] then None else Some(packages)
  {
  }

  /** There is some order for every package and group. */
  lemma SomeOrders(inputs: Inputs) returns (orders: Orders)
    ensures AreOrders(inputs, orders)
  {
    var peers := inputs.ctx.config.autoInstallPeers;
    orders := Orders(p => ListRequests(p, peers), group => ListMap(inputs.manifest.Group(group)));
    hide ListRequests;
    forall p
      ensures ListsDependencies(p, peers, orders.packages(p))
    {
      ListRequestsMembers(p, peers);
    }
  }

  /** Different orders give the same outcome, and the same lockfile but for its optional flags. */
  lemma OrdersShowInFlagsOnly(inputs: Inputs, x: Orders, y: Orders)
    requires inputs.ctx.Valid() && AreOrders(inputs, x) && AreOrders(inputs, y)
    ensures Generate(inputs, x).Ok? <==> Generate(inputs, y).Ok?
    ensures Generate(inputs, x).Ok? ==>
      var a, b := Generate(inputs, x).value, Generate(inputs, y).value;
      && a.projectSnapshot == b.projectSnapshot && OrEmpty(a.packages).Keys == OrEmpty(b.packages).Keys
      && forall k :: k in OrEmpty(a.packages) ==>
           OrEmpty(a.packages)[k].(optional := None) == OrEmpty(b.packages)[k].(optional := None)
  {
    hide *;
    GenerateHolds(inputs, x);
    GenerateHolds(inputs, y);
    if CanGenerate(inputs) {
      GenerationIsOrderFree(inputs, Generate(inputs, x).value, Generate(inputs, y).value);
    }
  }
}
