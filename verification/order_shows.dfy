/**
 * A registry whose lockfile depends on an order. The manifest asks for `r`, which needs `a` and `b`; `a` lists `b` as
 * optional, and `b` needs `d`. When `r` lists `a` first, `b` and `d` are walked as optional by way of `a`, and meeting
 * `b` again by way of `r` changes its flag and not that of `d`. When `r` lists `b` first, neither is optional.
 */
module OrderShows {
  import opened Wrappers
  import opened PkgVerPeers
  import opened DependencyPaths
  import opened Registries
  import opened Lockfiles
  import opened DependencyContexts
  import opened LockfileWalk
  import opened GeneratedLockfiles
  import opened Generation
  import opened GenerationHolds
  import opened SmallRegistries
  import opened StoreNames
  import opened OptionalFlags

  function R(v: string): PackageVersion { Package("r", v, map["a" := v, "b" := v], map[]) }

  function A(v: string): PackageVersion { Package("a", v, map[], map["b" := v]) }

  function B(v: string): PackageVersion { Package("b", v, map["d" := v], map[]) }

  function D(v: string): PackageVersion { Package("d", v, map[], map[]) }

  function Example(semver: Semver, v: string): Inputs {
    var metadata := map["r" := map[v := R(v)], "a" := map[v := A(v)], "b" := map[v := B(v)], "d" := map[v := D(v)]];
    Inputs(ContextOf(semver, metadata), Manifest(map["r" := v], map[], map[], map[]), [Prod])
  }

  function All(v: string): set<PackageVersion> { {R(v), A(v), B(v), D(v)} }

  lemma VersionsOf(semver: Semver, v: string)
    ensures Versions(Example(semver, v).ctx.registry) == All(v)
  {
    var metadata := Example(semver, v).ctx.registry.metadata;
    assert "r" in metadata && "a" in metadata && "b" in metadata && "d" in metadata;
    assert v in metadata["r"] && v in metadata["a"] && v in metadata["b"] && v in metadata["d"];
    assert metadata["r"][v] == R(v) && metadata["a"][v] == A(v) && metadata["b"][v] == B(v) && metadata["d"][v] == D(v);
  }

  lemma ResolutionsOf(semver: Semver, v: string)
    ensures var registry := Example(semver, v).ctx.registry;
      && Resolve(registry, ("r", v)) == Some(R(v)) && Resolve(registry, ("a", v)) == Some(A(v))
      && Resolve(registry, ("b", v)) == Some(B(v)) && Resolve(registry, ("d", v)) == Some(D(v))
  {
  }

  lemma TwoItems(v: string)
    ensures forall e: Request :: e in map["a" := v, "b" := v].Items <==> e == ("a", v) || e == ("b", v)
  {
  }

  lemma TwoElements(requests: set<Request>, e: Request, f: Request)
    requires forall g :: g in requests <==> g == e || g == f
    ensures requests == {e, f}
  {
  }

  lemma RequestsOf(v: string)
    ensures Requests(R(v), false) == {("a", v), ("b", v)} && Requests(A(v), false) == {("b", v)}
    ensures Requests(B(v), false) == {("d", v)} && Requests(D(v), false) == {}
  {
    TwoItems(v);
    TwoElements(map["a" := v, "b" := v].Items, ("a", v), ("b", v));
    ItemOf("b", v);
    ItemOf("d", v);
  }

  lemma RootsOf(semver: Semver, v: string)
    ensures var inputs := Example(semver, v);
      && inputs.Requested(Prod) == {("r", v)} && inputs.Requested(Optional) == inputs.Requested(Dev) == {}
      && inputs.Roots(Prod) == {R(v)} && inputs.Roots(Optional) == inputs.Roots(Dev) == {}
  {
    ResolutionsOf(semver, v);
    ItemOf("r", v);
  }

  lemma IsExampleRegistry(semver: Semver, v: string)
    requires SemverLibrary(semver) && IsCanonical(semver, v)
    ensures Example(semver, v).ctx.Valid()
  {
    assert IsSoundOn(semver, v);
  }

  lemma NeedsAreMet(semver: Semver, v: string, p: PackageVersion)
    requires p in All(v)
    ensures AllResolve(Example(semver, v).ctx.registry, Example(semver, v).ctx.Needs(p))
  {
    ResolutionsOf(semver, v);
    RequestsOf(v);
    hide Resolve;
    hide Requests;
  }

  lemma RequestedAreMet(semver: Semver, v: string, group: DependencyGroup)
    requires group != Peer
    ensures AllResolve(Example(semver, v).ctx.registry, Example(semver, v).Requested(group))
  {
    ResolutionsOf(semver, v);
    RootsOf(semver, v);
    hide Resolve;
    hide Inputs.Requested;
    hide Inputs.Roots;
  }

  lemma RootIsPublished(semver: Semver, v: string)
    ensures Example(semver, v).AllRoots() <= Versions(Example(semver, v).ctx.registry)
  {
    VersionsOf(semver, v);
    RootSetsOf(semver, v);
    hide Versions;
    hide Inputs.AllRoots;
  }

  lemma CanBeGenerated(semver: Semver, v: string)
    requires SemverLibrary(semver) && IsCanonical(semver, v)
    ensures Example(semver, v).ctx.Valid() && CanGenerate(Example(semver, v))
  {
    hide *;
    var inputs := Example(semver, v);
    IsExampleRegistry(semver, v);
    VersionsOf(semver, v);
    RootIsPublished(semver, v);
    forall p | p in Versions(inputs.ctx.registry)
      ensures AllResolve(inputs.ctx.registry, inputs.ctx.Needs(p))
    {
      NeedsAreMet(semver, v, p);
    }
    forall group: DependencyGroup | group != Peer
      ensures AllResolve(inputs.ctx.registry, inputs.Requested(group))
    {
      RequestedAreMet(semver, v, group);
    }
    AllMet(inputs);
  }

  lemma RootSetsOf(semver: Semver, v: string)
    ensures var inputs := Example(semver, v);
      inputs.AllRoots() == inputs.FirmRoots() == {R(v)} && inputs.Roots(Optional) == {}
  {
    RootsOf(semver, v);
    hide Inputs.Roots;
  }

  lemma FrontLists(entries: seq<Request>, m: map<string, string>)
    requires Lists(entries, m) && entries != []
    ensures entries[|entries| - 1].0 in m
    ensures Lists(entries[..|entries| - 1], m - {entries[|entries| - 1].0})
  {
    var front, last := entries[..|entries| - 1], entries[|entries| - 1];
    var rest := m - {last.0};
    forall name | name in rest
      ensures (name, rest[name]) in front
    {
      assert (name, m[name]) in entries;
    }
    assert forall i | 0 <= i < |front| :: front[i] == entries[i];
  }

  lemma {:induction false} ListingSize(entries: seq<Request>, m: map<string, string>)
    requires Lists(entries, m)
    ensures |entries| == |m|
  {
    if entries == [] {
      assert m.Keys == {};
    } else {
      var last := entries[|entries| - 1].0;
      FrontLists(entries, m);
      hide Lists;
      ListingSize(entries[..|entries| - 1], m - {last});
      assert m.Keys == (m - {last}).Keys + {last};
    }
  }

  lemma NoListing(entries: seq<Request>)
    requires Lists(entries, map[])
    ensures entries == []
  {
    ListingSize(entries, map[]);
  }

  lemma OneListing(entries: seq<Request>, name: string, range: string)
    requires Lists(entries, map[name := range])
    ensures entries == [(name, range)]
  {
    ListingSize(entries, map[name := range]);
    assert |map[name := range]| == 1;
    assert entries[0].0 in map[name := range];
  }

  lemma TwoListing(entries: seq<Request>, v: string)
    requires Lists(entries, map["a" := v, "b" := v])
    ensures entries == [("a", v), ("b", v)] || entries == [("b", v), ("a", v)]
  {
    var m := map["a" := v, "b" := v];
    ListingSize(entries, m);
    assert m.Keys == {"a", "b"};
    assert entries[0].0 in m && entries[1].0 in m && entries[0].0 != entries[1].0;
  }

  lemma DependenciesOnly(p: PackageVersion, entries: seq<Request>)
    requires ListsDependencies(p, false, entries) && p.optionalDependencies == map[]
    ensures Lists(entries, p.dependencies)
  {
    var a, b, c :| entries == a + b + c && Lists(a, p.dependencies) && Lists(b, p.optionalDependencies)
      && Lists(c, map[]);
    NoListing(b);
    NoListing(c);
    hide Lists;
    assert entries == a;
  }

  lemma OptionalOnly(p: PackageVersion, entries: seq<Request>)
    requires ListsDependencies(p, false, entries) && p.dependencies == map[]
    ensures Lists(entries, p.optionalDependencies)
  {
    var a, b, c :| entries == a + b + c && Lists(a, p.dependencies) && Lists(b, p.optionalDependencies)
      && Lists(c, map[]);
    NoListing(a);
    NoListing(c);
    hide Lists;
    assert entries == b;
  }

  /** All listings but that of `r` are settled, and that one is one of two. */
  lemma ListingsOf(semver: Semver, v: string, orders: Orders)
    requires AreOrders(Example(semver, v), orders)
    ensures orders.packages(A(v)) == [("b", v)] && orders.packages(B(v)) == [("d", v)] && orders.packages(D(v)) == []
    ensures orders.packages(R(v)) == [("a", v), ("b", v)] || orders.packages(R(v)) == [("b", v), ("a", v)]
    ensures orders.groups(Prod) == [("r", v)]
  {
    hide Lists;
    hide ListsDependencies;
    DependenciesOnly(R(v), orders.packages(R(v)));
    OptionalOnly(A(v), orders.packages(A(v)));
    DependenciesOnly(B(v), orders.packages(B(v)));
    DependenciesOnly(D(v), orders.packages(D(v)));
    TwoListing(orders.packages(R(v)), v);
    OneListing(orders.packages(A(v)), "b", v);
    OneListing(orders.packages(B(v)), "d", v);
    NoListing(orders.packages(D(v)));
    assert Lists(orders.groups(Prod), Example(semver, v).manifest.Group(Prod));
    OneListing(orders.groups(Prod), "r", v);
  }

  lemma KeysDiffer(semver: Semver, v: string, p: PackageVersion, q: PackageVersion)
    requires SemverLibrary(semver) && IsCanonical(semver, v) && p in All(v) && q in All(v) && p != q
    ensures KeyOf(p) != KeyOf(q)
  {
    if KeyOf(p) == KeyOf(q) {
      IsExampleRegistry(semver, v);
      VersionsOf(semver, v);
      KeyInjective(semver, Example(semver, v).ctx.registry, p, q);
    }
  }

  /** Other keys are as before. */
  ghost predicate ChangesOnly(before: Packages, after: Packages, keys: set<DependencyPath>) {
    forall k :: k !in keys ==> (k in after <==> k in before) && (k in before ==> after[k] == before[k])
  }

  function FlagOf(packages: Packages, k: DependencyPath): Option<bool>
    requires k in packages
  {
    packages[k].optional
  }

  /** What the walks below are given. */
  ghost predicate IsSetup(semver: Semver, v: string, orders: Orders) {
    SemverLibrary(semver) && IsCanonical(semver, v) && AreOrders(Example(semver, v), orders)
  }

  lemma SetupFacts(semver: Semver, v: string, orders: Orders)
    requires IsSetup(semver, v, orders)
    ensures Example(semver, v).ctx.Valid() && Versions(Example(semver, v).ctx.registry) == All(v)
    ensures R(v) in All(v) && A(v) in All(v) && B(v) in All(v) && D(v) in All(v)
  {
    IsExampleRegistry(semver, v);
    VersionsOf(semver, v);
  }

  /** Meeting a package again changes its own snapshot only. */
  lemma Again(semver: Semver, v: string, orders: Orders, packages: Packages, p: PackageVersion, optional: bool)
    requires IsSetup(semver, v, orders) && p in All(v) && KeyOf(p) in packages
    ensures Example(semver, v).ctx.Valid() && p in Versions(Example(semver, v).ctx.registry)
    ensures var r := Walk(Example(semver, v).ctx, orders.packages, packages, p, false, optional);
      r.Ok? && ChangesOnly(packages, r.value, {KeyOf(p)})
  {
    SetupFacts(semver, v, orders);
    hide Walk;
    hide KeyOf;
    hide IsSetup;
    hide Versions;
    WalkAgain(Example(semver, v).ctx, orders.packages, packages, p, false, optional);
  }

  /** The walk of a package that has not been met, in terms of the walk of its entries. */
  lemma Anew(ctx: Context, order: Order, packages: Packages, p: PackageVersion, optional: bool)
    returns (placed: Packages)
    requires ctx.Valid() && p in Versions(ctx.registry) && KeyOf(p) !in packages
    ensures ChangesOnly(packages, placed, {KeyOf(p)})
    ensures KeyOf(p) in placed && FlagOf(placed, KeyOf(p)) == Some(optional)
    ensures var inner := WalkEntries(ctx, order, placed, p, order(p), map[], false, optional);
      var outer := Walk(ctx, order, packages, p, false, optional);
      inner.Ok? ==>
        && outer.Ok? && KeyOf(p) in inner.value.0 && KeyOf(p) in outer.value
        && ChangesOnly(inner.value.0, outer.value, {KeyOf(p)})
        && (FlagOf(inner.value.0, KeyOf(p)) == Some(optional) ==> FlagOf(outer.value, KeyOf(p)) == Some(optional))
  {
    hide Walk;
    hide WalkEntries;
    hide KeyOf;
    hide Context.Valid;
    hide Versions;
    hide Resolve;
    WalkAnew(ctx, order, packages, p, false, optional);
    placed := packages[KeyOf(p) := Placeholder(ctx, p, false, optional)];
  }

  /** `d` needs nothing. */
  lemma WalkD(semver: Semver, v: string, orders: Orders, packages: Packages, optional: bool)
    requires IsSetup(semver, v, orders) && KeyOf(D(v)) !in packages
    ensures Example(semver, v).ctx.Valid() && D(v) in Versions(Example(semver, v).ctx.registry)
    ensures var r := Walk(Example(semver, v).ctx, orders.packages, packages, D(v), false, optional);
      && r.Ok? && KeyOf(D(v)) in r.value && FlagOf(r.value, KeyOf(D(v))) == Some(optional)
      && ChangesOnly(packages, r.value, {KeyOf(D(v))})
  {
    hide *;
    SetupFacts(semver, v, orders);
    EntryFacts(semver, v, orders);
    var ctx, order, k := Example(semver, v).ctx, orders.packages, KeyOf(D(v));
    var placed := Anew(ctx, order, packages, D(v), optional);
    NoEntries(ctx, order, placed, D(v), map[], false, optional);
    ChangedTwice(packages, placed, Walk(ctx, order, packages, D(v), false, optional).value, {k});
  }

  lemma ChangedTwice(a: Packages, b: Packages, c: Packages, keys: set<DependencyPath>)
    requires ChangesOnly(a, b, keys) && ChangesOnly(b, c, keys)
    ensures ChangesOnly(a, c, keys)
  {
  }

  /** The one dependency of a package: how it is walked settles how the package is. */
  lemma OneEntry(ctx: Context, order: Order, packages: Packages, p: PackageVersion, e: Request, c: PackageVersion,
                 optional: bool, childOptional: bool) returns (placed: Packages)
    requires ctx.Valid() && p in Versions(ctx.registry) && KeyOf(p) !in packages
    requires order(p) == [e] && Resolve(ctx.registry, e) == Some(c)
    requires childOptional == (optional || e.0 in p.optionalDependencies)
    ensures c in Versions(ctx.registry)
    ensures ChangesOnly(packages, placed, {KeyOf(p)})
    ensures var inner := Walk(ctx, order, placed, c, false, childOptional);
      var outer := Walk(ctx, order, packages, p, false, optional);
      inner.Ok? ==> outer.Ok? && KeyOf(p) in outer.value && ChangesOnly(inner.value, outer.value, {KeyOf(p)})
  {
    hide *;
    placed := Anew(ctx, order, packages, p, optional);
    EntryStep(ctx, order, placed, p, [e], 0, map[], false, optional);
    TakenApart(e, e);
    var inner := Walk(ctx, order, placed, c, false, childOptional);
    if inner.Ok? {
      NoEntries(ctx, order, inner.value, p, WithEdge(map[], e, c), false, optional);
    }
  }

  lemma TakenApart(e: Request, f: Request)
    ensures [e][0] == e && [e][0..] == [e] && [e][1..] == [] && |[e]| == 1
    ensures [e, f][0] == e && [e, f][1] == f && [e, f][0..] == [e, f] && [e, f][2..] == [] && |[e, f]| == 2
  {
  }

  lemma Outside(before: Packages, after: Packages, keys: set<DependencyPath>, k: DependencyPath)
    requires ChangesOnly(before, after, keys) && k !in keys
    ensures k in after <==> k in before
    ensures k in before ==> FlagOf(after, k) == FlagOf(before, k)
  {
  }

  lemma Composed(a: Packages, b: Packages, c: Packages, d: Packages, k: DependencyPath, keys: set<DependencyPath>)
    requires ChangesOnly(a, b, {k}) && ChangesOnly(b, c, keys) && ChangesOnly(c, d, {k})
    ensures ChangesOnly(a, d, {k} + keys)
  {
  }

  /** A dependency of the example is found, and is optional for `a` only. */
  lemma EntryFacts(semver: Semver, v: string, orders: Orders)
    requires IsSetup(semver, v, orders)
    ensures var ctx, order := Example(semver, v).ctx, orders.packages;
      && order(A(v)) == [("b", v)] && order(B(v)) == [("d", v)] && order(D(v)) == []
      && Resolve(ctx.registry, ("b", v)) == Some(B(v)) && Resolve(ctx.registry, ("d", v)) == Some(D(v))
      && "b" in A(v).optionalDependencies && "d" !in B(v).optionalDependencies
  {
    ListingsOf(semver, v, orders);
    ResolutionsOf(semver, v);
    hide Resolve;
    hide AreOrders;
    hide Example;
  }

  /** A first walk of `b` hands its flag to `d`. */
  lemma WalkB(semver: Semver, v: string, orders: Orders, packages: Packages, optional: bool)
    requires IsSetup(semver, v, orders) && KeyOf(B(v)) !in packages && KeyOf(D(v)) !in packages
    ensures Example(semver, v).ctx.Valid() && B(v) in Versions(Example(semver, v).ctx.registry)
    ensures var r := Walk(Example(semver, v).ctx, orders.packages, packages, B(v), false, optional);
      && r.Ok? && KeyOf(B(v)) in r.value && KeyOf(D(v)) in r.value && FlagOf(r.value, KeyOf(D(v))) == Some(optional)
      && ChangesOnly(packages, r.value, {KeyOf(B(v))} + {KeyOf(D(v))})
  {
    hide *;
    SetupFacts(semver, v, orders);
    SetupKeys(semver, v, orders);
    EntryFacts(semver, v, orders);
    var ctx, order := Example(semver, v).ctx, orders.packages;
    var placed := OneEntry(ctx, order, packages, B(v), ("d", v), D(v), optional, optional);
    Outside(packages, placed, {KeyOf(B(v))}, KeyOf(D(v)));
    WalkD(semver, v, orders, placed, optional);
    var inner := Walk(ctx, order, placed, D(v), false, optional).value;
    var outer := Walk(ctx, order, packages, B(v), false, optional).value;
    Outside(inner, outer, {KeyOf(B(v))}, KeyOf(D(v)));
    Composed(packages, placed, inner, outer, KeyOf(B(v)), {KeyOf(D(v))});
  }

  lemma SetupKeys(semver: Semver, v: string, orders: Orders)
    requires IsSetup(semver, v, orders)
    ensures KeyOf(R(v)) !in {KeyOf(A(v)), KeyOf(B(v)), KeyOf(D(v))}
    ensures KeyOf(A(v)) !in {KeyOf(B(v)), KeyOf(D(v))} && KeyOf(B(v)) != KeyOf(D(v))
  {
    AllKeysDiffer(semver, v);
  }

  /** By way of `a` first, `d` is optional. */
  lemma WalkAFirst(semver: Semver, v: string, orders: Orders, packages: Packages)
    requires IsSetup(semver, v, orders)
    requires KeyOf(A(v)) !in packages && KeyOf(B(v)) !in packages && KeyOf(D(v)) !in packages
    ensures Example(semver, v).ctx.Valid() && A(v) in Versions(Example(semver, v).ctx.registry)
    ensures var r := Walk(Example(semver, v).ctx, orders.packages, packages, A(v), false, false);
      && r.Ok? && KeyOf(B(v)) in r.value && KeyOf(D(v)) in r.value && FlagOf(r.value, KeyOf(D(v))) == Some(true)
      && ChangesOnly(packages, r.value, {KeyOf(A(v))} + ({KeyOf(B(v))} + {KeyOf(D(v))}))
  {
    hide *;
    SetupFacts(semver, v, orders);
    SetupKeys(semver, v, orders);
    EntryFacts(semver, v, orders);
    var ctx, order := Example(semver, v).ctx, orders.packages;
    var placed := OneEntry(ctx, order, packages, A(v), ("b", v), B(v), false, true);
    Outside(packages, placed, {KeyOf(A(v))}, KeyOf(B(v)));
    Outside(packages, placed, {KeyOf(A(v))}, KeyOf(D(v)));
    WalkB(semver, v, orders, placed, true);
    var inner := Walk(ctx, order, placed, B(v), false, true).value;
    var outer := Walk(ctx, order, packages, A(v), false, false).value;
    Outside(inner, outer, {KeyOf(A(v))}, KeyOf(B(v)));
    Outside(inner, outer, {KeyOf(A(v))}, KeyOf(D(v)));
    Composed(packages, placed, inner, outer, KeyOf(A(v)), {KeyOf(B(v))} + {KeyOf(D(v))});
  }

  /** Once `b` has been walked, `a` leaves `d` alone. */
  lemma WalkALater(semver: Semver, v: string, orders: Orders, packages: Packages)
    requires IsSetup(semver, v, orders) && KeyOf(A(v)) !in packages && KeyOf(B(v)) in packages
    ensures Example(semver, v).ctx.Valid() && A(v) in Versions(Example(semver, v).ctx.registry)
    ensures var r := Walk(Example(semver, v).ctx, orders.packages, packages, A(v), false, false);
      r.Ok? && ChangesOnly(packages, r.value, {KeyOf(A(v))} + {KeyOf(B(v))})
  {
    hide *;
    SetupFacts(semver, v, orders);
    SetupKeys(semver, v, orders);
    EntryFacts(semver, v, orders);
    var ctx, order := Example(semver, v).ctx, orders.packages;
    var placed := OneEntry(ctx, order, packages, A(v), ("b", v), B(v), false, true);
    Outside(packages, placed, {KeyOf(A(v))}, KeyOf(B(v)));
    Again(semver, v, orders, placed, B(v), true);
    var inner := Walk(ctx, order, placed, B(v), false, true).value;
    var outer := Walk(ctx, order, packages, A(v), false, false).value;
    Composed(packages, placed, inner, outer, KeyOf(A(v)), {KeyOf(B(v))});
  }

  /** Two dependencies, walked one after the other. */
  lemma TwoEntries(ctx: Context, order: Order, packages: Packages, p: PackageVersion, e: Request, f: Request,
                   c: PackageVersion, d: PackageVersion) returns (placed: Packages)
    requires ctx.Valid() && p in Versions(ctx.registry) && KeyOf(p) !in packages && order(p) == [e, f]
    requires Resolve(ctx.registry, e) == Some(c) && Resolve(ctx.registry, f) == Some(d)
    requires e.0 !in p.optionalDependencies && f.0 !in p.optionalDependencies
    ensures c in Versions(ctx.registry) && d in Versions(ctx.registry)
    ensures ChangesOnly(packages, placed, {KeyOf(p)})
    ensures var first := Walk(ctx, order, placed, c, false, false);
      first.Ok? ==>
        var second := Walk(ctx, order, first.value, d, false, false);
        var outer := Walk(ctx, order, packages, p, false, false);
        second.Ok? ==>
          outer.Ok? && ChangesOnly(second.value, outer.value, {KeyOf(p)})
  {
    hide *;
    placed := Anew(ctx, order, packages, p, false);
    EntryStep(ctx, order, placed, p, [e, f], 0, map[], false, false);
    TakenApart(e, f);
    IsVersion(ctx, f);
    var first := Walk(ctx, order, placed, c, false, false);
    if first.Ok? {
      EntryStep(ctx, order, first.value, p, [e, f], 1, WithEdge(map[], e, c), false, false);
      var second := Walk(ctx, order, first.value, d, false, false);
      if second.Ok? {
        NoEntries(ctx, order, second.value, p, WithEdge(WithEdge(map[], e, c), f, d), false, false);
      }
    }
  }

  lemma IsVersion(ctx: Context, e: Request)
    requires ctx.Valid() && Resolve(ctx.registry, e).Some?
    ensures Resolve(ctx.registry, e).value in Versions(ctx.registry)
  {
    ResolveIsPublished(ctx.semver, ctx.registry, e);
  }

  lemma AllKeysDiffer(semver: Semver, v: string)
    requires SemverLibrary(semver) && IsCanonical(semver, v)
    ensures KeyOf(R(v)) !in {KeyOf(A(v)), KeyOf(B(v)), KeyOf(D(v))}
    ensures KeyOf(A(v)) !in {KeyOf(B(v)), KeyOf(D(v))} && KeyOf(B(v)) != KeyOf(D(v))
  {
    hide KeyOf;
    assert R(v) != A(v) && R(v) != B(v) && R(v) != D(v) && A(v) != B(v) && A(v) != D(v) && B(v) != D(v);
    KeysDiffer(semver, v, R(v), A(v));
    KeysDiffer(semver, v, R(v), B(v));
    KeysDiffer(semver, v, R(v), D(v));
    KeysDiffer(semver, v, A(v), B(v));
    KeysDiffer(semver, v, A(v), D(v));
    KeysDiffer(semver, v, B(v), D(v));
  }

  lemma RFacts(semver: Semver, v: string)
    ensures var registry := Example(semver, v).ctx.registry;
      && Resolve(registry, ("a", v)) == Some(A(v)) && Resolve(registry, ("b", v)) == Some(B(v))
      && "a" !in R(v).optionalDependencies && "b" !in R(v).optionalDependencies
  {
    ResolutionsOf(semver, v);
  }

  lemma NothingOutside(packages: Packages, keys: set<DependencyPath>, k: DependencyPath)
    requires ChangesOnly(map[], packages, keys) && k !in keys
    ensures k !in packages
  {
  }

  /** When `r` lists `a` first. */
  lemma WalkRByA(semver: Semver, v: string, orders: Orders)
    requires IsSetup(semver, v, orders) && orders.packages(R(v)) == [("a", v), ("b", v)]
    ensures Example(semver, v).ctx.Valid() && R(v) in Versions(Example(semver, v).ctx.registry)
    ensures var r := Walk(Example(semver, v).ctx, orders.packages, map[], R(v), false, false);
      r.Ok? && KeyOf(D(v)) in r.value && FlagOf(r.value, KeyOf(D(v))) == Some(true)
  {
    hide *;
    SetupFacts(semver, v, orders);
    SetupKeys(semver, v, orders);
    RFacts(semver, v);
    var ctx, order := Example(semver, v).ctx, orders.packages;
    var placed := TwoEntries(ctx, order, map[], R(v), ("a", v), ("b", v), A(v), B(v));
    NothingOutside(placed, {KeyOf(R(v))}, KeyOf(A(v)));
    NothingOutside(placed, {KeyOf(R(v))}, KeyOf(B(v)));
    NothingOutside(placed, {KeyOf(R(v))}, KeyOf(D(v)));
    WalkAFirst(semver, v, orders, placed);
    var first := Walk(ctx, order, placed, A(v), false, false).value;
    Again(semver, v, orders, first, B(v), false);
    var second := Walk(ctx, order, first, B(v), false, false).value;
    Outside(first, second, {KeyOf(B(v))}, KeyOf(D(v)));
    Outside(second, Walk(ctx, order, map[], R(v), false, false).value, {KeyOf(R(v))}, KeyOf(D(v)));
  }

  /** When `r` lists `b` first. */
  lemma WalkRByB(semver: Semver, v: string, orders: Orders)
    requires IsSetup(semver, v, orders) && orders.packages(R(v)) == [("b", v), ("a", v)]
    ensures Example(semver, v).ctx.Valid() && R(v) in Versions(Example(semver, v).ctx.registry)
    ensures var r := Walk(Example(semver, v).ctx, orders.packages, map[], R(v), false, false);
      r.Ok? && KeyOf(D(v)) in r.value && FlagOf(r.value, KeyOf(D(v))) == Some(false)
  {
    hide *;
    SetupFacts(semver, v, orders);
    SetupKeys(semver, v, orders);
    RFacts(semver, v);
    var ctx, order := Example(semver, v).ctx, orders.packages;
    var placed := TwoEntries(ctx, order, map[], R(v), ("b", v), ("a", v), B(v), A(v));
    NothingOutside(placed, {KeyOf(R(v))}, KeyOf(A(v)));
    NothingOutside(placed, {KeyOf(R(v))}, KeyOf(B(v)));
    NothingOutside(placed, {KeyOf(R(v))}, KeyOf(D(v)));
    WalkB(semver, v, orders, placed, false);
    var first := Walk(ctx, order, placed, B(v), false, false).value;
    Outside(placed, first, {KeyOf(B(v))} + {KeyOf(D(v))}, KeyOf(A(v)));
    WalkALater(semver, v, orders, first);
    var second := Walk(ctx, order, first, A(v), false, false).value;
    Outside(first, second, {KeyOf(A(v))} + {KeyOf(B(v))}, KeyOf(D(v)));
    Outside(second, Walk(ctx, order, map[], R(v), false, false).value, {KeyOf(R(v))}, KeyOf(D(v)));
  }

  /** The walk of `r` is all there is to generation. */
  lemma GeneratesWalk(semver: Semver, v: string, orders: Orders)
    requires IsSetup(semver, v, orders)
    ensures Example(semver, v).ctx.Valid() && R(v) in Versions(Example(semver, v).ctx.registry)
    ensures var walked := Walk(Example(semver, v).ctx, orders.packages, map[], R(v), false, false);
      walked.Ok? && walked.value != map[] ==>
        && Generate(Example(semver, v), orders).Ok?
        && Generate(Example(semver, v), orders).value.packages == Some(walked.value)
  {
    hide *;
    SetupFacts(semver, v, orders);
    GroupFacts(semver, v, orders);
    var inputs := Example(semver, v);
    var ctx, order := inputs.ctx, orders.packages;
    RootIsWalked(ctx, order, map[], [("r", v)], 0, map[], false, false);
    TakenApart(("r", v), ("r", v));
    var walked := Walk(ctx, order, map[], R(v), false, false);
    if walked.Ok? {
      var stored := WithRange(map[], ("r", v), R(v));
      NoRoots(ctx, order, walked.value, stored, false, false);
      GroupOf(inputs, orders, map[], Prod);
      GroupOf(inputs, orders, walked.value, Optional);
      GroupOf(inputs, orders, walked.value, Dev);
      PassesAre(inputs, orders);
      PartsOfLockfile(if stored == map[] then None else Some(stored), None, None, walked.value);
    }
  }

  lemma GroupFacts(semver: Semver, v: string, orders: Orders)
    requires IsSetup(semver, v, orders)
    ensures var inputs := Example(semver, v);
      && Prod in inputs.groups && Optional !in inputs.groups && Dev !in inputs.groups
      && orders.groups(Prod) == [("r", v)] && Resolve(inputs.ctx.registry, ("r", v)) == Some(R(v))
  {
    ListingsOf(semver, v, orders);
    ResolutionsOf(semver, v);
    hide Resolve;
    hide AreOrders;
  }

  /** Which of its two dependencies `r` lists first decides whether `d` is marked optional. */
  lemma OrderDecides(semver: Semver, v: string, orders: Orders)
    requires SemverLibrary(semver) && IsCanonical(semver, v) && AreOrders(Example(semver, v), orders)
    ensures Example(semver, v).ctx.Valid() && Generate(Example(semver, v), orders).Ok?
    ensures var packages := OrEmpty(Generate(Example(semver, v), orders).value.packages);
      && KeyOf(D(v)) in packages
      && (IsOptional(packages, KeyOf(D(v))) <==> orders.packages(R(v)) == [("a", v), ("b", v)])
  {
    SetupFacts(semver, v, orders);
    ListingsOf(semver, v, orders);
    GeneratesWalk(semver, v, orders);
    hide Walk;
    hide Generate;
    hide KeyOf;
    hide Example;
    hide R;
    hide D;
    if orders.packages(R(v)) == [("a", v), ("b", v)] {
      WalkRByA(semver, v, orders);
    } else {
      WalkRByB(semver, v, orders);
      assert [("b", v), ("a", v)][0] != [("a", v), ("b", v)][0];
    }
  }

  /** The orders of the example in which `r` lists its dependencies like this. */
  ghost function Listing(semver: Semver, v: string, entries: seq<Request>): Orders {
    Orders(
      p => if p == R(v) then entries else ListRequests(p, false),
      group => ListMap(Example(semver, v).manifest.Group(group)))
  }

  lemma IsListing(semver: Semver, v: string, entries: seq<Request>)
    requires Lists(entries, map["a" := v, "b" := v])
    ensures AreOrders(Example(semver, v), Listing(semver, v, entries))
    ensures Listing(semver, v, entries).packages(R(v)) == entries
  {
    var orders := Listing(semver, v, entries);
    hide ListRequests;
    hide Lists;
    NothingMore(R(v), entries);
    forall p
      ensures ListsDependencies(p, false, orders.packages(p))
    {
      ListRequestsMembers(p, false);
    }
  }

  lemma NothingMore(p: PackageVersion, entries: seq<Request>)
    requires Lists(entries, p.dependencies) && p.optionalDependencies == map[]
    ensures ListsDependencies(p, false, entries)
  {
    assert Lists([], p.optionalDependencies) && Lists([], map[]);
    assert entries == entries + [] + [];
  }

  lemma BothList(v: string)
    ensures Lists([("a", v), ("b", v)], map["a" := v, "b" := v]) && Lists([("b", v), ("a", v)], map["a" := v, "b" := v])
  {
    var m := map["a" := v, "b" := v];
    var x, y := [("a", v), ("b", v)], [("b", v), ("a", v)];
    assert x[0] == ("a", m["a"]) && x[1] == ("b", m["b"]);
    assert y[0] == ("b", m["b"]) && y[1] == ("a", m["a"]);
  }

  /** Both listings are possible, and the lockfiles they lead to differ in the flag of `d`. */
  lemma FlagHangsOnOrder(semver: Semver, v: string) returns (x: Orders, y: Orders)
    requires SemverLibrary(semver) && IsCanonical(semver, v)
    ensures Example(semver, v).ctx.Valid() && AreOrders(Example(semver, v), x) && AreOrders(Example(semver, v), y)
    ensures Generate(Example(semver, v), x).Ok? && Generate(Example(semver, v), y).Ok?
    ensures var a := OrEmpty(Generate(Example(semver, v), x).value.packages);
      var b := OrEmpty(Generate(Example(semver, v), y).value.packages);
      KeyOf(D(v)) in a && KeyOf(D(v)) in b && IsOptional(a, KeyOf(D(v))) && !IsOptional(b, KeyOf(D(v)))
  {
    hide *;
    x, y := Listing(semver, v, [("a", v), ("b", v)]), Listing(semver, v, [("b", v), ("a", v)]);
    BothList(v);
    IsListing(semver, v, [("a", v), ("b", v)]);
    IsListing(semver, v, [("b", v), ("a", v)]);
    OrderDecides(semver, v, x);
    OrderDecides(semver, v, y);
    assert [("b", v), ("a", v)][0] != [("a", v), ("b", v)][0];
  }
}
