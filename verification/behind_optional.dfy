/**
 * The packages that something optional leads to: an optional dependency of the manifest, or one that a needed package
 * lists as optional. No other package is first walked as optional.
 */
module BehindOptional {
  import opened Wrappers
  import opened Graphs
  import opened Registries
  import opened DependencyContexts
  import opened LockfileWalk

  ghost predicate IsOptionalEdge(ctx: Context, p: PackageVersion, c: PackageVersion) {
    exists e :: e in ctx.Needs(p) && e.0 in p.optionalDependencies && Resolve(ctx.registry, e) == Some(c)
  }

  /** `soft` holds the optional ones among the direct dependencies `roots`. */
  ghost predicate IsBehindOptional(ctx: Context, roots: set<PackageVersion>, soft: set<PackageVersion>,
                                   p: PackageVersion) {
    || Reachable(ctx.Graph(), soft, p)
    || exists q, c :: Reachable(ctx.Graph(), roots, q) && IsOptionalEdge(ctx, q, c) && Reachable(ctx.Graph(), {c}, p)
  }

  ghost predicate OptionalIsBehind(ctx: Context, soft: set<PackageVersion>, s: Progress) {
    forall p :: p in s.walked && s.walked[p] ==> IsBehindOptional(ctx, s.roots, soft, p)
  }

  lemma NothingBehind(ctx: Context, soft: set<PackageVersion>, s: Progress)
    requires s.walked == map[]
    ensures OptionalIsBehind(ctx, soft, s)
  {
  }

  lemma SameBehind(ctx: Context, soft: set<PackageVersion>, s: Progress, t: Progress)
    requires OptionalIsBehind(ctx, soft, s) && t.walked == s.walked && t.roots == s.roots
    ensures OptionalIsBehind(ctx, soft, t)
  {
    hide IsBehindOptional;
  }

  /** A package begins to be walked. */
  lemma StartBehind(ctx: Context, soft: set<PackageVersion>, s: Progress, t: Progress, p: PackageVersion,
                    optional: bool)
    requires OptionalIsBehind(ctx, soft, s) && t.walked == s.walked[p := optional] && t.roots == s.roots
    requires optional ==> IsBehindOptional(ctx, s.roots, soft, p)
    ensures OptionalIsBehind(ctx, soft, t)
  {
    hide IsBehindOptional;
  }

  /** A child is walked as optional only behind something optional. */
  lemma ChildBehind(ctx: Context, roots: set<PackageVersion>, soft: set<PackageVersion>, p: PackageVersion, e: Request,
                    c: PackageVersion)
    requires p in Versions(ctx.registry) && Reachable(ctx.Graph(), roots, p)
    requires e in ctx.Needs(p) && Resolve(ctx.registry, e) == Some(c)
    requires e.0 !in p.optionalDependencies ==> IsBehindOptional(ctx, roots, soft, p)
    ensures IsBehindOptional(ctx, roots, soft, c)
  {
    assert Edge(ctx.Graph(), p, c);
    hide Context.Graph;
    if e.0 in p.optionalDependencies {
      assert IsOptionalEdge(ctx, p, c);
      ReachRoot(ctx.Graph(), {c}, c);
    } else if Reachable(ctx.Graph(), soft, p) {
      ReachStep(ctx.Graph(), soft, p, c);
    } else {
      var q, x :| Reachable(ctx.Graph(), roots, q) && IsOptionalEdge(ctx, q, x) && Reachable(ctx.Graph(), {x}, p);
      ReachStep(ctx.Graph(), {x}, p, c);
    }
  }

  lemma ListedChildBehind(ctx: Context, before: Progress, s: Progress, soft: set<PackageVersion>, p: PackageVersion,
                          entries: seq<Request>, i: nat, optional: bool)
    requires p in Versions(ctx.registry) && Reachable(ctx.Graph(), before.roots, p) && s.roots == before.roots
    requires ListsDependencies(p, ctx.config.autoInstallPeers, entries) && i < |entries|
    requires Resolve(ctx.registry, entries[i]).Some?
    requires optional ==> IsBehindOptional(ctx, before.roots, soft, p)
    ensures optional || entries[i].0 in p.optionalDependencies ==>
      IsBehindOptional(ctx, s.roots, soft, Resolve(ctx.registry, entries[i]).value)
  {
    ListedIsNeeded(ctx, p, entries);
    hide ListsDependencies;
    hide Reachable;
    hide Context.Graph;
    hide IsBehindOptional;
    hide Resolve;
    if optional || entries[i].0 in p.optionalDependencies {
      ChildBehind(ctx, before.roots, soft, p, entries[i], Resolve(ctx.registry, entries[i]).value);
    }
  }

  /** Another direct dependency is asked for. */
  lemma RootBehind(ctx: Context, soft: set<PackageVersion>, s: Progress, p: PackageVersion, optional: bool)
    requires OptionalIsBehind(ctx, soft, s) && (optional ==> p in soft)
    ensures OptionalIsBehind(ctx, soft, WithRoot(s, p, optional))
    ensures optional ==> IsBehindOptional(ctx, WithRoot(s, p, optional).roots, soft, p)
  {
    var t := WithRoot(s, p, optional);
    ReachMonotone(ctx.Graph(), s.roots, t.roots);
    if optional {
      ReachRoot(ctx.Graph(), soft, p);
    }
    hide Context.Graph;
    hide Reachable;
    hide IsOptionalEdge;
  }

  lemma ListedRoot(ctx: Context, m: map<string, string>, entries: seq<Request>, i: nat)
    requires Lists(entries, m) && i < |entries| && Resolve(ctx.registry, entries[i]).Some?
    ensures Resolve(ctx.registry, entries[i]).value in ResolveAll(ctx.registry, m.Items)
  {
    hide Resolve;
    ListsItems(entries, m);
  }

  lemma MoreBehind(ctx: Context, soft: set<PackageVersion>, more: set<PackageVersion>, s: Progress)
    requires OptionalIsBehind(ctx, soft, s) && soft <= more
    ensures OptionalIsBehind(ctx, more, s)
  {
    ReachMonotone(ctx.Graph(), soft, more);
    hide Context.Graph;
    hide Reachable;
    hide IsOptionalEdge;
  }

  lemma OptionalEdgeIsEdge(ctx: Context, p: PackageVersion, c: PackageVersion)
    requires p in Versions(ctx.registry) && IsOptionalEdge(ctx, p, c)
    ensures Edge(ctx.Graph(), p, c)
  {
  }
}
