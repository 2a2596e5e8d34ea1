/** The names under which installed packages are told apart, and the listing of what a package asks for. */
module StoreNames {
  import opened Wrappers
  import opened Text
  import opened PkgVerPeers
  import opened Graphs
  import opened Registries
  import opened DependencyContexts
  import PkgNames
  import VirtualStoreNames

  function StoreName(p: PackageVersion): string {
    VirtualStoreNames.RegistryStoreName(p.name, p.version)
  }

  lemma RemoveItem(m: map<string, string>, name: string)
    requires name in m
    ensures forall e :: e in m.Items <==> e in (m - {name}).Items || e == (name, m[name])
  {
    var rest := m - {name};
    forall e | e in m.Items
      ensures e in rest.Items || e == (name, m[name])
    {
      assert e.0 != name ==> e.0 in rest && rest[e.0] == e.1;
    }
    forall e | e in rest.Items
      ensures e in m.Items
    {
      assert e.0 in m && m[e.0] == e.1;
    }
  }

  /** Some listing of a map's entries. */
  ghost function ListMap(m: map<string, string>): (entries: seq<Request>)
    ensures Lists(entries, m)
    ensures forall e :: e in entries <==> e in m.Items
    decreases |m|
  {
    if m == map[] then []
    else
      var name :| name in m;
      var rest := m - {name};
      RemoveItem(m, name);
      assert |rest.Keys| < |m.Keys|;
      var entries := [(name, m[name])] + ListMap(rest);
      ListFirst(m, name, ListMap(rest));
      entries
  }

  lemma ListFirst(m: map<string, string>, name: string, entries: seq<Request>)
    requires name in m && Lists(entries, m - {name})
    ensures Lists([(name, m[name])] + entries, m)
  {
    var all := [(name, m[name])] + entries;
    forall other | other in m
      ensures (other, m[other]) in all
    {
      if other == name {
        assert all[0] == (name, m[name]);
      } else {
        assert (other, (m - {name})[other]) in entries;
      }
    }
  }

  ghost function ListRequests(p: PackageVersion, withPeers: bool): seq<Request> {
    ListMap(p.dependencies) + ListMap(p.optionalDependencies) + ListMap(if withPeers then p.peerDependencies else map[])
  }

  lemma ListRequestsMembers(p: PackageVersion, withPeers: bool)
    ensures forall e :: e in ListRequests(p, withPeers) <==> e in Requests(p, withPeers)
    ensures ListsDependencies(p, withPeers, ListRequests(p, withPeers))
  {
    hide Lists;
  }

  /** No two versions that the roots lead to share a store name. */
  ghost predicate NamesTellApart(ctx: Context, roots: set<PackageVersion>) {
    forall p, q ::
      Reachable(ctx.Graph(), roots, p) && Reachable(ctx.Graph(), roots, q) && StoreName(p) == StoreName(q) ==> p == q
  }

  lemma ReachableIsPublished(ctx: Context, roots: set<PackageVersion>)
    requires roots <= Versions(ctx.registry) && ctx.Valid()
    ensures forall p :: Reachable(ctx.Graph(), roots, p) ==> p in Versions(ctx.registry)
  {
    assert forall p, c :: Edge(ctx.Graph(), p, c) ==> c in Versions(ctx.registry) by {
      forall p, c | Edge(ctx.Graph(), p, c)
        ensures c in Versions(ctx.registry)
      {
        var e :| e in ctx.Needs(p) && Resolve(ctx.registry, e) == Some(c);
        ResolveIsPublished(ctx.semver, ctx.registry, e);
      }
    }
    hide Versions;
    hide Context.Graph;
    ReachStaysInside(ctx.Graph(), roots, Versions(ctx.registry));
  }

  /** Plain names are enough to tell all versions apart. */
  lemma PlainNamesTellApart(ctx: Context, roots: set<PackageVersion>)
    requires ctx.Valid() && HasPlainNames(ctx.registry) && roots <= Versions(ctx.registry)
    ensures NamesTellApart(ctx, roots)
  {
    ReachableIsPublished(ctx, roots);
    hide Versions;
    hide Context.Graph;
    hide Reachable;
    hide StoreName;
    hide HasPlainNames;
    forall p, q | Reachable(ctx.Graph(), roots, p) && Reachable(ctx.Graph(), roots, q) && StoreName(p) == StoreName(q)
      ensures p == q
    {
      PlainStoreNames(ctx.semver, ctx.registry, p, q);
    }
  }

  /** Names whose scope and bare part hold none of the separators of store names. */
  ghost predicate HasPlainNames(registry: Registry) {
    forall p :: p in Versions(registry) ==> VirtualStoreNames.IsUnambiguous(NameOf(p.name))
  }

  /** With plain names, two versions never share a store name. */
  lemma PlainStoreNames(semver: Semver, registry: Registry, p: PackageVersion, q: PackageVersion)
    requires IsRegistry(semver, registry) && HasPlainNames(registry)
    requires p in Versions(registry) && q in Versions(registry)
    requires StoreName(p) == StoreName(q)
    ensures p == q
  {
    StoreNameOfKey(semver, p);
    StoreNameOfKey(semver, q);
    hide VirtualStoreNames.StoreNamePrefix;
    hide VirtualStoreNames.IsUnambiguous;
    hide NameOf;
    VirtualStoreNames.StoreNameInjective(NameOf(p.name), p.version, NameOf(q.name), q.version);
    KeyInjective(semver, registry, p, q);
  }

  /** The store name of a version is the directory name of its lockfile key. */
  lemma StoreNameOfKey(semver: Semver, p: PackageVersion)
    requires IsPublished(semver, p) && VirtualStoreNames.IsUnambiguous(NameOf(p.name))
    ensures StoreName(p) == VirtualStoreNames.VirtualStoreName(KeyOf(p).packageSpecifier)
    ensures StoreName(p) == VirtualStoreNames.StoreNamePrefix(NameOf(p.name)) + "@" + p.version
    ensures '@' !in p.version
  {
    var name := NameOf(p.name);
    assert '/' !in name.bare by {
      assert forall c :: c in name.bare ==> c in PkgNames.Letters(name);
    }
    VirtualStoreNames.FastEqualsRegistry(p.name, p.version);
    assert VirtualStoreNames.Flatten("") == "";
  }

  /** A `+` in a name can stand for the separator of another: the two packages share one store name. */
  lemma PlusNamesCollide(a: string, b: string, c: string, version: string)
    requires '/' !in a && '/' !in b && '/' !in c
    ensures VirtualStoreNames.RegistryStoreName("@" + a + "/" + b + "+" + c, version)
         == VirtualStoreNames.RegistryStoreName("@" + a + "+" + b + "/" + c, version)
    ensures "@" + a + "/" + b + "+" + c != "@" + a + "+" + b + "/" + c
  {
    Slash("@" + a, b + "+" + c);
    Slash("@" + a + "+" + b, c);
    assert "@" + a + "/" + (b + "+" + c) == "@" + a + "/" + b + "+" + c;
    assert "@" + a + "+" + (b + "+" + c) == "@" + a + "+" + b + "+" + c;
    assert ("@" + a + "/" + b + "+" + c)[1 + |a|] == '/';
    assert ("@" + a + "+" + b + "/" + c)[1 + |a|] == '+';
  }

  lemma Slash(a: string, b: string)
    requires '/' !in a && '/' !in b
    ensures ReplaceAll(a + "/" + b, "/", "+") == a + "+" + b
  {
    ReplaceCharConcat(a + "/", b, '/', "+");
    ReplaceCharConcat(a, "/", '/', "+");
    ReplaceNothing(a, "/", "+");
    ReplaceNothing(b, "/", "+");
    VirtualStoreNames.ReplaceStep('/', "", '/', "+");
  }
}
