/** A registry with two packages that go by one store name. */
module CollidingNames {
  import opened Wrappers
  import opened PkgVerPeers
  import opened Text
  import opened Graphs
  import opened Registries
  import opened DependencyContexts
  import opened SmallRegistries
  import opened StoreNames
  import InstallWithoutLockfile
  import PkgNames
  import StoreAdd
  import VirtualStoreNames

  /** Scope `a`, with a plus in the bare name. */
  function NameA(a: string, b: string, c: string): string { "@" + a + "/" + b + "+" + c }

  /** The same text with slash and plus exchanged. */
  function NameB(a: string, b: string, c: string): string { "@" + a + "+" + b + "/" + c }

  function Leaf(name: string, version: string): PackageVersion {
    Package(name, version, map[], map[])
  }

  /** The registry of the two packages. */
  function Example(semver: Semver, p: PackageVersion, q: PackageVersion): Context {
    var metadata := map[p.name := map[p.version := p], q.name := map[q.version := q]];
    ContextOf(semver, metadata)
  }

  /** Both packages asked for by the manifest or on the command line. */
  function Both(p: PackageVersion, q: PackageVersion): seq<Request> {
    [(p.name, p.version), (q.name, q.version)]
  }

  lemma NamesRead(a: string, b: string, c: string)
    requires '/' !in a && '/' !in b
    ensures PkgNames.Parse(NameA(a, b, c)).Ok? && PkgNames.Parse(NameB(a, b, c)).Ok?
  {
    assert NameA(a, b, c)[1..] == a + ['/'] + (b + "+" + c);
    assert NameB(a, b, c)[1..] == (a + "+" + b) + ['/'] + c;
    SplitOnceAt(a, '/', b + "+" + c);
    SplitOnceAt(a + "+" + b, '/', c);
  }

  /** The two packages of the registry, which share a store name. */
  ghost predicate Collide(semver: Semver, p: PackageVersion, q: PackageVersion) {
    && p.name != q.name && StoreName(p) == StoreName(q)
    && p == Leaf(p.name, p.version) && q == Leaf(q.name, q.version)
    && IsPublished(semver, p) && IsPublished(semver, q)
  }

  lemma PlusAndSlashCollide(semver: Semver, a: string, b: string, c: string, version: string)
    requires SemverLibrary(semver) && IsCanonical(semver, version)
    requires '/' !in a && '/' !in b && '/' !in c
    ensures Collide(semver, Leaf(NameA(a, b, c), version), Leaf(NameB(a, b, c), version))
  {
    NamesRead(a, b, c);
    PlusNamesCollide(a, b, c, version);
    assert IsSoundOn(semver, version);
    hide PkgNames.Parse;
    hide VirtualStoreNames.RegistryStoreName;
  }

  lemma ExampleFacts(semver: Semver, p: PackageVersion, q: PackageVersion)
    requires Collide(semver, p, q)
    ensures var ctx := Example(semver, p, q);
      && ctx.Valid() && Versions(ctx.registry) == {p, q}
      && Resolve(ctx.registry, (p.name, p.version)) == Some(p) && Resolve(ctx.registry, (q.name, q.version)) == Some(q)
  {
    hide StoreName;
    hide IsPublished;
    var metadata := Example(semver, p, q).registry.metadata;
    assert p.name in metadata && p.version in metadata[p.name] && metadata[p.name][p.version] == p;
    assert q.name in metadata && q.version in metadata[q.name] && metadata[q.name][q.version] == q;
  }

  lemma RootsAreBoth(semver: Semver, p: PackageVersion, q: PackageVersion)
    requires Collide(semver, p, q)
    ensures ResolveAll(Example(semver, p, q).registry, set e | e in Both(p, q)) == {p, q}
  {
    ExampleFacts(semver, p, q);
    hide Resolve;
    hide Collide;
    hide Example;
    var requests := set e | e in Both(p, q);
    assert Both(p, q)[0] in requests && Both(p, q)[1] in requests;
  }

  /** However the installer's tasks are interleaved, it ends with exactly one of the two expanded. */
  lemma InstallerExpandsOne(semver: Semver, p: PackageVersion, q: PackageVersion,
                            run: seq<InstallWithoutLockfile.State>)
    requires Collide(semver, p, q)
    requires InstallWithoutLockfile.IsRun(Example(semver, p, q), Both(p, q), run)
    requires InstallWithoutLockfile.IsQuiet(run[|run| - 1])
    ensures (p in run[|run| - 1].expanded) != (q in run[|run| - 1].expanded)
  {
    var ctx, s := Example(semver, p, q), run[|run| - 1];
    var requests := Both(p, q);
    ExampleFacts(semver, p, q);
    InstallWithoutLockfile.RunKeeps(ctx, requests, run);
    InstallWithoutLockfile.NamesAreDistinct(ctx, requests, s);
    assert requests[0] in requests;
    InstallWithoutLockfile.QuietCovers(ctx, requests, s, requests[0]);
    hide Example;
    hide StoreName;
    hide InstallWithoutLockfile.IsPending;
    hide InstallWithoutLockfile.IsAskedFor;
    hide IsPublished;
    hide Resolve;
    var r :| r in s.expanded && StoreName(r) == StoreName(p);
    assert r in Versions(ctx.registry);
  }

  /** A filled store holds something under the name of each root, and never two things. */
  lemma StoredUnder(ctx: Context, roots: set<PackageVersion>, s: StoreAdd.StoreProgress, p: PackageVersion)
    requires StoreAdd.IsFilled(ctx, roots, s) && p in roots
    ensures exists r :: r in s.stored && r in Versions(ctx.registry) && StoreName(r) == StoreName(p)
    ensures forall q, r :: q in s.stored && r in s.stored && StoreName(q) == StoreName(r) ==> q == r
  {
    hide StoreName;
    hide Reachable;
    hide Versions;
    hide StoreAdd.HasAllItNeeds;
  }

  lemma AreTwo(semver: Semver, p: PackageVersion, q: PackageVersion)
    requires Collide(semver, p, q)
    ensures p != q && StoreName(p) == StoreName(q)
  {
    hide StoreName;
  }

  /** The store command ends with exactly one of the two in the store. */
  lemma StoreHoldsOne(semver: Semver, p: PackageVersion, q: PackageVersion, s: StoreAdd.StoreProgress)
    requires Collide(semver, p, q)
    requires var ctx := Example(semver, p, q);
      StoreAdd.IsFilled(ctx, ResolveAll(ctx.registry, set e | e in Both(p, q)), s)
    ensures (p in s.stored) != (q in s.stored)
  {
    hide *;
    ExampleFacts(semver, p, q);
    RootsAreBoth(semver, p, q);
    AreTwo(semver, p, q);
    StoredUnder(Example(semver, p, q), {p, q}, s, p);
  }
}
