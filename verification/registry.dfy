/** The registry: published versions, and a resolver that picks one of them for a name and a range. */
module Registries {
  import opened Wrappers
  import opened PkgVerPeers
  import opened DependencyPaths
  import PkgNames
  import PkgNameSuffixes

  /** A name and the range asked for. */
  type Request = (string, string)

  datatype PackageVersion = PackageVersion(
    name: string,
    version: string,
    tarball: string,
    integrity: Option<string>,
    dependencies: map<string, string>,
    optionalDependencies: map<string, string>,
    peerDependencies: map<string, string>)

  /** `pick` stands for range matching and tags: it names one of the published versions, or none. */
  datatype Registry = Registry(
    metadata: map<string, map<string, PackageVersion>>,
    pick: (string, string) -> Option<string>)

  function Resolve(registry: Registry, request: Request): Option<PackageVersion> {
    var (name, range) := request;
    if name !in registry.metadata then None
    else match registry.pick(name, range)
      case None => None
      case Some(version) =>
        var versions := registry.metadata[name];
        if version in versions then Some(versions[version]) else None
  }

  function Versions(registry: Registry): set<PackageVersion> {
    set name, version | name in registry.metadata && version in registry.metadata[name]
      :: registry.metadata[name][version]
  }

  /** What the code's `expect` calls ask of published metadata. */
  predicate IsPublished(semver: Semver, p: PackageVersion) {
    && PkgNames.Parse(p.name).Ok?
    && IsCanonical(semver, p.version)
    && IsPlain(p.version)
    && p.integrity.Some?
  }

  /** Metadata is filed under the name and version it carries. */
  ghost predicate IsRegistry(semver: Semver, registry: Registry) {
    forall name, version :: name in registry.metadata && version in registry.metadata[name] ==>
      && registry.metadata[name][version].name == name
      && registry.metadata[name][version].version == version
      && IsPublished(semver, registry.metadata[name][version])
  }

  lemma ResolveIsPublished(semver: Semver, registry: Registry, request: Request)
    requires IsRegistry(semver, registry)
    requires Resolve(registry, request).Some?
    ensures var p := Resolve(registry, request).value;
      p in Versions(registry) && p.name == request.0 && IsPublished(semver, p)
  {
  }

  /** The requests a version makes, with those for peers when they are installed automatically. */
  function Requests(p: PackageVersion, withPeers: bool): set<Request> {
    p.dependencies.Items + p.optionalDependencies.Items + (if withPeers then p.peerDependencies.Items else {})
  }

  /** The requests under a name that the version does not list as optional. */
  function FirmRequests(p: PackageVersion, withPeers: bool): set<Request> {
    set request | request in Requests(p, withPeers) && request.0 !in p.optionalDependencies
  }

  function ResolveAll(registry: Registry, requests: set<Request>): set<PackageVersion> {
    set request | request in requests && Resolve(registry, request).Some? :: Resolve(registry, request).value
  }

  predicate AllResolve(registry: Registry, requests: set<Request>) {
    forall request | request in requests :: Resolve(registry, request).Some?
  }

  function DependencyGraph(registry: Registry, withPeers: bool): map<PackageVersion, set<PackageVersion>> {
    map p | p in Versions(registry) :: ResolveAll(registry, Requests(p, withPeers))
  }

  function FirmGraph(registry: Registry, withPeers: bool): map<PackageVersion, set<PackageVersion>> {
    map p | p in Versions(registry) :: ResolveAll(registry, FirmRequests(p, withPeers))
  }

  /** The last range listed for a name, which is the one a map filled in this order ends up with. */
  function LastRange(entries: seq<Request>, name: string): Option<string> {
    if entries == [] then None
    else
      var last := entries[|entries| - 1];
      if last.0 == name then Some(last.1) else LastRange(entries[..|entries| - 1], name)
  }

  /** A listing of a map's entries, in any order. */
  ghost predicate Lists(entries: seq<Request>, m: map<string, string>) {
    && (forall i | 0 <= i < |entries| :: entries[i].0 in m && m[entries[i].0] == entries[i].1)
    && (forall i, j | 0 <= i < j < |entries| :: entries[i].0 != entries[j].0)
    && (forall name | name in m :: (name, m[name]) in entries)
  }

  /** Dependencies, then optional dependencies, then peers when asked for, each in any order. */
  ghost predicate ListsDependencies(p: PackageVersion, withPeers: bool, entries: seq<Request>) {
    exists a, b, c ::
      && entries == a + b + c
      && Lists(a, p.dependencies)
      && Lists(b, p.optionalDependencies)
      && Lists(c, if withPeers then p.peerDependencies else map[])
  }

  /** The range that wins when a name is listed more than once. */
  function EffectiveRange(p: PackageVersion, withPeers: bool, name: string): Option<string> {
    if withPeers && name in p.peerDependencies then Some(p.peerDependencies[name])
    else if name in p.optionalDependencies then Some(p.optionalDependencies[name])
    else if name in p.dependencies then Some(p.dependencies[name])
    else None
  }

  /** Iterates over a map in an order that nothing may depend on. */
  method List(m: map<string, string>) returns (entries: seq<Request>)
    ensures Lists(entries, m)
  {
    entries := [];
    var rest := m.Keys;
    while rest != {}
      invariant rest <= m.Keys
      invariant forall i | 0 <= i < |entries| ::
        entries[i].0 in m && entries[i].0 !in rest && m[entries[i].0] == entries[i].1
      invariant forall i, j | 0 <= i < j < |entries| :: entries[i].0 != entries[j].0
      invariant forall name | name in m :: name in rest || (name, m[name]) in entries
    {
      var name :| name in rest;
      rest := rest - {name};
      entries := entries + [(name, m[name])];
    }
  }

  method Dependencies(p: PackageVersion, withPeers: bool) returns (entries: seq<Request>)
    ensures ListsDependencies(p, withPeers, entries)
  {
    var a := List(p.dependencies);
    var b := List(p.optionalDependencies);
    var c := List(if withPeers then p.peerDependencies else map[]);
    entries := a + b + c;
  }

  lemma {:induction false} LastRangeOfConcat(a: seq<Request>, b: seq<Request>, name: string)
    ensures LastRange(a + b, name) ==
      if LastRange(b, name).Some? then LastRange(b, name) else LastRange(a, name)
  {
    if b == [] {
      assert a + b == a;
    } else {
      assert (a + b)[..|a + b| - 1] == a + b[..|b| - 1];
      LastRangeOfConcat(a, b[..|b| - 1], name);
    }
  }

  lemma {:induction false} LastRangeIsListed(entries: seq<Request>, name: string)
    ensures LastRange(entries, name).Some? <==> exists i :: 0 <= i < |entries| && entries[i].0 == name
    ensures LastRange(entries, name).Some? ==> (name, LastRange(entries, name).value) in entries
  {
    if entries != [] {
      LastRangeIsListed(entries[..|entries| - 1], name);
    }
  }

  lemma LastRangeOfMap(entries: seq<Request>, m: map<string, string>, name: string)
    requires Lists(entries, m)
    ensures LastRange(entries, name) == if name in m then Some(m[name]) else None
  {
    LastRangeIsListed(entries, name);
    if name in m {
      var i :| 0 <= i < |entries| && entries[i] == (name, m[name]);
    }
  }

  lemma ListsItems(entries: seq<Request>, m: map<string, string>)
    requires Lists(entries, m)
    ensures forall request :: request in entries <==> request in m.Items
  {
    forall request | request in m.Items
      ensures request in entries
    {
      assert request == (request.0, m[request.0]);
    }
  }

  /** What a listing holds, and which range wins, do not depend on the order it came in. */
  lemma ListingIsOrderFree(p: PackageVersion, withPeers: bool, entries: seq<Request>)
    requires ListsDependencies(p, withPeers, entries)
    ensures forall request :: request in entries <==> request in Requests(p, withPeers)
    ensures forall name :: LastRange(entries, name) == EffectiveRange(p, withPeers, name)
  {
    var a, b, c :| entries == a + b + c && Lists(a, p.dependencies) && Lists(b, p.optionalDependencies)
      && Lists(c, if withPeers then p.peerDependencies else map[]);
    ListsItems(a, p.dependencies);
    ListsItems(b, p.optionalDependencies);
    ListsItems(c, if withPeers then p.peerDependencies else map[]);
    forall name
      ensures LastRange(entries, name) == EffectiveRange(p, withPeers, name)
    {
      LastRangeOfConcat(a + b, c, name);
      LastRangeOfConcat(a, b, name);
      LastRangeOfMap(a, p.dependencies, name);
      LastRangeOfMap(b, p.optionalDependencies, name);
      LastRangeOfMap(c, if withPeers then p.peerDependencies else map[], name);
    }
  }

  /** The lockfile's specifier of a published version, read from its texts as the code reads them. */
  function PackageSpecifier(semver: Semver, p: PackageVersion): PkgNameSuffixes.PkgNameVerPeer
    requires IsPublished(semver, p)
  {
    PkgNameSuffixes.PkgNameVerPeer(PkgNames.Parse(p.name).value, PkgVerPeers.Parse(semver, p.version).value)
  }

  function NameOf(name: string): PkgNames.PkgName {
    match PkgNames.Parse(name)
    case Ok(parsed) => parsed
    case Err(_) => PkgNames.PkgName(None, name)
  }

  /** The lockfile key of a version: no registry, no peers. */
  function KeyOf(p: PackageVersion): DependencyPath {
    DependencyPath(None, PkgNameSuffixes.PkgNameVerPeer(NameOf(p.name), PkgVerPeer(p.version, "")))
  }

  lemma SpecifierIsKey(semver: Semver, p: PackageVersion)
    requires IsPublished(semver, p)
    ensures PackageSpecifier(semver, p) == KeyOf(p).packageSpecifier
  {
  }

  /** A readable name is recovered by printing it. */
  lemma NameOfInjective(a: string, b: string)
    requires PkgNames.Parse(a).Ok? && PkgNames.Parse(b).Ok?
    requires NameOf(a) == NameOf(b)
    ensures a == b
  {
    PkgNames.PrintParse(a);
    PkgNames.PrintParse(b);
  }

  /** Two published versions with one key are the same version. */
  lemma KeyInjective(semver: Semver, registry: Registry, p: PackageVersion, q: PackageVersion)
    requires IsRegistry(semver, registry)
    requires p in Versions(registry) && q in Versions(registry)
    requires KeyOf(p) == KeyOf(q)
    ensures p == q
  {
    NameOfInjective(p.name, q.name);
  }
}
