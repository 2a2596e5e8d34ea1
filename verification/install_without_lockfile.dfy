/**
 * Installing without a lockfile: one task for each dependency, all polled together, each free to run between any
 * two steps of the others. A shared set of store names keeps a package from being expanded twice.
 */
module InstallWithoutLockfile {
  import opened Wrappers
  import opened Graphs
  import opened Registries
  import opened DependencyContexts
  import opened StoreNames

  /** A dependency still to be resolved and linked, or resolved and about to be expanded. */
  datatype Task = Fetching(request: Request) | Expanding(package: PackageVersion)

  /** `expanded` records the packages in the order in which their expansion began. */
  datatype State = State(resolved: set<string>, expanded: seq<PackageVersion>, tasks: seq<Task>, panicked: bool)

  function FetchAll(requests: seq<Request>): seq<Task> {
    seq(|requests|, i requires 0 <= i < |requests| => Fetching(requests[i]))
  }

  function Without(tasks: seq<Task>, i: nat): seq<Task>
    requires i < |tasks|
  {
    tasks[..i] + tasks[i + 1..]
  }

  ghost function Start(requests: seq<Request>): State {
    State({}, [], FetchAll(requests), false)
  }

  /** Task `i` runs up to its next await. A request that cannot be met panics, and that ends the run. */
  ghost function Advance(ctx: Context, s: State, i: nat): State
    requires i < |s.tasks|
  {
    match s.tasks[i]
    case Fetching(request) =>
      (match Resolve(ctx.registry, request)
       case None => s.(panicked := true)
       case Some(package) => s.(tasks := Without(s.tasks, i) + [Expanding(package)]))
    case Expanding(package) =>
      if StoreName(package) in s.resolved then s.(tasks := Without(s.tasks, i))
      else State(s.resolved + {StoreName(package)}, s.expanded + [package],
                 Without(s.tasks, i) + FetchAll(ListRequests(package, ctx.config.autoInstallPeers)), false)
  }

  ghost predicate Step(ctx: Context, s: State, t: State) {
    !s.panicked && exists i: nat :: i < |s.tasks| && t == Advance(ctx, s, i)
  }

  ghost predicate IsRun(ctx: Context, requests: seq<Request>, run: seq<State>) {
    && run != [] && run[0] == Start(requests)
    && forall i | 0 < i < |run| :: Step(ctx, run[i - 1], run[i])
  }

  predicate IsQuiet(s: State) {
    !s.panicked && s.tasks == []
  }

  function Asked(requests: seq<Request>): set<Request> {
    set e | e in requests
  }

  ghost predicate IsAskedFor(ctx: Context, requests: seq<Request>, p: PackageVersion) {
    Reachable(ctx.Graph(), RootsOf(ctx, requests), p)
  }

  /** The request has been dealt with or still will be. */
  predicate IsCovered(ctx: Context, s: State, e: Request) {
    Fetching(e) in s.tasks || (Resolve(ctx.registry, e).Some? && IsTaken(s, Resolve(ctx.registry, e).value))
  }

  predicate IsTaken(s: State, p: PackageVersion) {
    Expanding(p) in s.tasks || StoreName(p) in s.resolved
  }

  /** A request of the manifest, or of a package whose expansion has begun. */
  ghost predicate IsPending(ctx: Context, requests: seq<Request>, s: State, e: Request) {
    e in requests || exists p :: p in s.expanded && e in ctx.Needs(p)
  }

  ghost predicate Invariant(ctx: Context, requests: seq<Request>, s: State) {
    && s.resolved == (set p | p in s.expanded :: StoreName(p))
    && (forall i, j | 0 <= i < j < |s.expanded| :: StoreName(s.expanded[i]) != StoreName(s.expanded[j]))
    && (forall p :: p in s.expanded || Expanding(p) in s.tasks ==>
          p in Versions(ctx.registry) && IsAskedFor(ctx, requests, p))
    && (forall e :: Fetching(e) in s.tasks ==> IsPending(ctx, requests, s, e))
    && (forall e :: IsPending(ctx, requests, s, e) ==> IsCovered(ctx, s, e))
    && (s.panicked ==> exists e :: IsPending(ctx, requests, s, e) && Resolve(ctx.registry, e).None?)
  }

  lemma FetchAllMembers(requests: seq<Request>)
    ensures forall t: Task :: t in FetchAll(requests) <==> t.Fetching? && t.request in requests
  {
    var tasks := FetchAll(requests);
    forall t: Task | t.Fetching? && t.request in requests
      ensures t in tasks
    {
      var i :| 0 <= i < |requests| && requests[i] == t.request;
      assert tasks[i] == t;
    }
  }

  lemma WithoutMembers(tasks: seq<Task>, i: nat)
    requires i < |tasks|
    ensures forall t :: t in tasks <==> t in Without(tasks, i) || t == tasks[i]
  {
  }

  lemma StartKeeps(ctx: Context, requests: seq<Request>)
    ensures Invariant(ctx, requests, Start(requests))
  {
    FetchAllMembers(requests);
  }

  /** A pending request that resolves leads to a package that is asked for. */
  lemma PendingIsAskedFor(ctx: Context, requests: seq<Request>, s: State, e: Request)
    requires ctx.Valid() && Invariant(ctx, requests, s) && IsPending(ctx, requests, s, e)
    requires Resolve(ctx.registry, e).Some?
    ensures var p := Resolve(ctx.registry, e).value;
      p in Versions(ctx.registry) && IsAskedFor(ctx, requests, p)
  {
    var p := Resolve(ctx.registry, e).value;
    ResolveIsPublished(ctx.semver, ctx.registry, e);
    var roots := RootsOf(ctx, requests);
    if e in requests {
      assert e in Asked(requests);
      assert p in roots by { hide Resolve; }
      ReachRoot(ctx.Graph(), roots, p);
    } else {
      var q :| q in s.expanded && e in ctx.Needs(q);
      RequestIsEdge(ctx, q, e);
      ReachStep(ctx.Graph(), roots, q, p);
    }
  }

  lemma PanicKeeps(ctx: Context, requests: seq<Request>, s: State, e: Request)
    requires Invariant(ctx, requests, s) && !s.panicked
    requires Fetching(e) in s.tasks && Resolve(ctx.registry, e).None?
    ensures Invariant(ctx, requests, s.(panicked := true))
  {
    hide Versions;
    hide IsAskedFor;
    hide StoreName;
    hide Resolve;
    hide Context.Needs;
    var t := s.(panicked := true);
    forall f
      ensures IsPending(ctx, requests, s, f) <==> IsPending(ctx, requests, t, f)
    {
    }
    forall f | IsPending(ctx, requests, t, f)
      ensures IsCovered(ctx, t, f)
    {
      assert IsCovered(ctx, s, f);
    }
  }

  lemma FetchKeeps(ctx: Context, requests: seq<Request>, s: State, i: nat, p: PackageVersion)
    requires ctx.Valid() && Invariant(ctx, requests, s) && !s.panicked
    requires i < |s.tasks| && s.tasks[i].Fetching? && Resolve(ctx.registry, s.tasks[i].request) == Some(p)
    ensures Invariant(ctx, requests, s.(tasks := Without(s.tasks, i) + [Expanding(p)]))
  {
    var e := s.tasks[i].request;
    var t := s.(tasks := Without(s.tasks, i) + [Expanding(p)]);
    assert Fetching(e) in s.tasks;
    PendingIsAskedFor(ctx, requests, s, e);
    hide Versions;
    hide IsAskedFor;
    hide StoreName;
    hide Resolve;
    hide Context.Needs;
    hide Context.Valid;
    WithoutMembers(s.tasks, i);
    hide Without;
    assert forall u :: u in t.tasks <==> u in Without(s.tasks, i) || u == Expanding(p);
    forall f
      ensures IsPending(ctx, requests, s, f) <==> IsPending(ctx, requests, t, f)
    {
    }
    forall f | IsPending(ctx, requests, t, f)
      ensures IsCovered(ctx, t, f)
    {
      assert IsCovered(ctx, s, f);
    }
  }

  lemma SkipKeeps(ctx: Context, requests: seq<Request>, s: State, i: nat)
    requires Invariant(ctx, requests, s) && !s.panicked
    requires i < |s.tasks| && s.tasks[i].Expanding? && StoreName(s.tasks[i].package) in s.resolved
    ensures Invariant(ctx, requests, Advance(ctx, s, i))
  {
    hide Versions;
    hide IsAskedFor;
    hide StoreName;
    hide Resolve;
    hide Context.Needs;
    hide ListRequests;
    var t := Advance(ctx, s, i);
    WithoutMembers(s.tasks, i);
    forall f
      ensures IsPending(ctx, requests, s, f) <==> IsPending(ctx, requests, t, f)
    {
    }
    forall f | IsPending(ctx, requests, t, f)
      ensures IsCovered(ctx, t, f)
    {
      assert IsCovered(ctx, s, f);
    }
  }

  lemma ExpandKeeps(ctx: Context, requests: seq<Request>, s: State, i: nat)
    requires Invariant(ctx, requests, s) && !s.panicked
    requires i < |s.tasks| && s.tasks[i].Expanding? && StoreName(s.tasks[i].package) !in s.resolved
    ensures Invariant(ctx, requests, Advance(ctx, s, i))
  {
    hide Lists;
    hide ListsDependencies;
    var p := s.tasks[i].package;
    var listed := ListRequests(p, ctx.config.autoInstallPeers);
    var t := Advance(ctx, s, i);
    ListRequestsMembers(p, ctx.config.autoInstallPeers);
    assert forall e :: e in listed <==> e in ctx.Needs(p);
    hide Versions;
    hide IsAskedFor;
    hide StoreName;
    hide Resolve;
    hide Context.Needs;
    hide ListRequests;
    WithoutMembers(s.tasks, i);
    FetchAllMembers(listed);
    assert s.tasks[i] in s.tasks;
    assert forall q :: q in t.expanded <==> q in s.expanded || q == p;
    forall e
      ensures IsPending(ctx, requests, t, e) <==> IsPending(ctx, requests, s, e) || e in listed
    {
    }
    forall e | IsPending(ctx, requests, t, e)
      ensures IsCovered(ctx, t, e)
    {
      assert e in listed || IsCovered(ctx, s, e);
    }
  }

  lemma StepKeeps(ctx: Context, requests: seq<Request>, s: State, t: State)
    requires ctx.Valid() && Invariant(ctx, requests, s) && Step(ctx, s, t)
    ensures Invariant(ctx, requests, t)
  {
    var i: nat :| i < |s.tasks| && t == Advance(ctx, s, i);
    hide Invariant;
    match s.tasks[i]
    case Fetching(e) =>
      if Resolve(ctx.registry, e).None? {
        assert s.tasks[i] in s.tasks;
        PanicKeeps(ctx, requests, s, e);
      } else {
        FetchKeeps(ctx, requests, s, i, Resolve(ctx.registry, e).value);
      }
    case Expanding(p) =>
      if StoreName(p) in s.resolved {
        SkipKeeps(ctx, requests, s, i);
      } else {
        ExpandKeeps(ctx, requests, s, i);
      }
  }

  /** Every state of every run, whatever the interleaving. */
  lemma {:induction false} RunKeeps(ctx: Context, requests: seq<Request>, run: seq<State>)
    requires ctx.Valid() && IsRun(ctx, requests, run)
    ensures forall i | 0 <= i < |run| :: Invariant(ctx, requests, run[i])
  {
    hide Invariant;
    hide Step;
    if |run| == 1 {
      StartKeeps(ctx, requests);
    } else {
      var before := run[..|run| - 1];
      RunKeeps(ctx, requests, before);
      StepKeeps(ctx, requests, before[|before| - 1], run[|run| - 1]);
    }
  }

  function RootsOf(ctx: Context, requests: seq<Request>): set<PackageVersion> {
    ResolveAll(ctx.registry, Asked(requests))
  }

  /** When nothing is left to do, whatever was asked for is present under its store name. */
  lemma QuietCovers(ctx: Context, requests: seq<Request>, s: State, e: Request)
    requires Invariant(ctx, requests, s) && IsQuiet(s) && IsPending(ctx, requests, s, e)
    ensures Resolve(ctx.registry, e).Some?
    ensures exists q :: q in s.expanded && StoreName(q) == StoreName(Resolve(ctx.registry, e).value)
  {
    hide Resolve;
    hide StoreName;
    hide IsPending;
    hide IsAskedFor;
    assert IsCovered(ctx, s, e);
  }

  lemma QuietHolds(ctx: Context, requests: seq<Request>, s: State, p: PackageVersion)
    requires Invariant(ctx, requests, s) && IsQuiet(s) && NamesTellApart(ctx, RootsOf(ctx, requests))
    requires IsAskedFor(ctx, requests, p)
    requires exists e :: IsPending(ctx, requests, s, e) && Resolve(ctx.registry, e) == Some(p)
    ensures p in s.expanded
  {
    var e :| IsPending(ctx, requests, s, e) && Resolve(ctx.registry, e) == Some(p);
    QuietCovers(ctx, requests, s, e);
    hide Resolve;
    hide StoreName;
    hide IsPending;
    hide IsAskedFor;
    var q :| q in s.expanded && StoreName(q) == StoreName(p);
    assert IsAskedFor(ctx, requests, q);
  }

  /**
   * When nothing is left to do, the packages expanded are exactly those reachable if and only if no two of the
   * reachable ones share a store name.
   */
  lemma QuietIsReachable(ctx: Context, requests: seq<Request>, s: State)
    requires ctx.Valid() && Invariant(ctx, requests, s) && IsQuiet(s)
    ensures (forall p :: p in s.expanded <==> IsAskedFor(ctx, requests, p)) <==>
      NamesTellApart(ctx, RootsOf(ctx, requests))
  {
    if NamesTellApart(ctx, RootsOf(ctx, requests)) {
      ReachableIsExpanded(ctx, requests, s);
    }
    hide Context.Graph;
    hide Reachable;
    hide StoreName;
    hide Versions;
    hide IsPending;
    hide RootsOf;
    NamesAreDistinct(ctx, requests, s);
    hide Invariant;
  }

  lemma NamesAreDistinct(ctx: Context, requests: seq<Request>, s: State)
    requires Invariant(ctx, requests, s)
    ensures forall p, q :: p in s.expanded && q in s.expanded && StoreName(p) == StoreName(q) ==> p == q
  {
    hide StoreName;
    hide IsPending;
    hide IsAskedFor;
  }

  lemma ReachableIsExpanded(ctx: Context, requests: seq<Request>, s: State)
    requires ctx.Valid() && Invariant(ctx, requests, s) && IsQuiet(s) && NamesTellApart(ctx, RootsOf(ctx, requests))
    ensures forall p :: p in s.expanded <==> IsAskedFor(ctx, requests, p)
  {
    var roots := RootsOf(ctx, requests);
    var inside := set p | p in s.expanded;
    forall p | p in roots
      ensures p in inside
    {
      var e :| e in Asked(requests) && Resolve(ctx.registry, e) == Some(p);
      ReachRoot(ctx.Graph(), roots, p);
      assert IsPending(ctx, requests, s, e);
      QuietHolds(ctx, requests, s, p);
    }
    forall p, c | p in inside && Edge(ctx.Graph(), p, c)
      ensures c in inside
    {
      assert IsAskedFor(ctx, requests, p);
      ReachStep(ctx.Graph(), roots, p, c);
      var e :| e in ctx.Needs(p) && Resolve(ctx.registry, e) == Some(c);
      assert IsPending(ctx, requests, s, e);
      QuietHolds(ctx, requests, s, c);
    }
    ReachStaysInside(ctx.Graph(), roots, inside);
  }

  ghost predicate IsMadeByReachable(ctx: Context, requests: seq<Request>, e: Request) {
    e in requests || exists p :: IsAskedFor(ctx, requests, p) && e in ctx.Needs(p)
  }

  /** A run panics only over a request that cannot be met, made by the manifest or by a reachable package. */
  lemma PanicHasReason(ctx: Context, requests: seq<Request>, s: State)
    requires Invariant(ctx, requests, s) && s.panicked
    ensures exists e :: Resolve(ctx.registry, e).None? && IsMadeByReachable(ctx, requests, e)
  {
    hide Resolve;
    hide IsAskedFor;
    var e :| IsPending(ctx, requests, s, e) && Resolve(ctx.registry, e).None?;
    if e !in requests {
      var p :| p in s.expanded && e in ctx.Needs(p);
      assert IsAskedFor(ctx, requests, p);
    }
  }

  /**
   * As long as there are tasks and no panic, one of them can go on. A step out of `Fetching` stands for metadata and
   * a tarball that have arrived; whether the tarball does is the business of the cache, which may block the thread.
   */
  lemma BusyCanStep(ctx: Context, s: State)
    requires !s.panicked && s.tasks != []
    ensures exists t :: Step(ctx, s, t)
  {
    assert Step(ctx, s, Advance(ctx, s, 0));
  }

  ghost predicate IsFinal(ctx: Context, s: State) {
    forall t :: !Step(ctx, s, t)
  }

  /** A run that can go no further. */
  ghost predicate IsComplete(ctx: Context, requests: seq<Request>, run: seq<State>) {
    IsRun(ctx, requests, run) && IsFinal(ctx, run[|run| - 1])
  }

  ghost predicate CanInstall(ctx: Context, requests: seq<Request>) {
    forall e :: IsMadeByReachable(ctx, requests, e) ==> Resolve(ctx.registry, e).Some?
  }

  lemma QuietMeetsAll(ctx: Context, requests: seq<Request>, s: State)
    requires ctx.Valid() && Invariant(ctx, requests, s) && IsQuiet(s) && NamesTellApart(ctx, RootsOf(ctx, requests))
    ensures CanInstall(ctx, requests)
  {
    QuietIsReachable(ctx, requests, s);
    hide Invariant;
    hide NamesTellApart;
    hide IsAskedFor;
    hide Resolve;
    forall e | IsMadeByReachable(ctx, requests, e)
      ensures Resolve(ctx.registry, e).Some?
    {
      assert IsPending(ctx, requests, s, e);
      QuietCovers(ctx, requests, s, e);
    }
  }

  /**
   * When store names tell packages apart, a complete run has installed everything exactly when every request of the
   * manifest and of all it leads to can be met; which tasks ran when makes no difference.
   */
  lemma CompletesExactly(ctx: Context, requests: seq<Request>, run: seq<State>)
    requires ctx.Valid() && IsComplete(ctx, requests, run) && NamesTellApart(ctx, RootsOf(ctx, requests))
    ensures IsQuiet(run[|run| - 1]) <==> CanInstall(ctx, requests)
    ensures IsQuiet(run[|run| - 1]) ==> forall p :: p in run[|run| - 1].expanded <==> IsAskedFor(ctx, requests, p)
  {
    var s := run[|run| - 1];
    assert IsFinal(ctx, s);
    RunKeeps(ctx, requests, run);
    hide Invariant;
    hide Step;
    hide NamesTellApart;
    hide IsAskedFor;
    hide IsMadeByReachable;
    if IsQuiet(s) {
      QuietMeetsAll(ctx, requests, s);
      QuietIsReachable(ctx, requests, s);
    } else if s.panicked {
      PanicHasReason(ctx, requests, s);
    } else {
      BusyCanStep(ctx, s);
    }
  }

  function TaskWeight(t: Task): nat {
    if t.Fetching? then 2 else 1
  }

  function Weight(tasks: seq<Task>): nat {
    if tasks == [] then 0 else TaskWeight(tasks[0]) + Weight(tasks[1..])
  }

  lemma {:induction false} WeightConcat(a: seq<Task>, b: seq<Task>)
    ensures Weight(a + b) == Weight(a) + Weight(b)
  {
    if a == [] {
      assert a + b == b;
    } else {
      assert (a + b)[1..] == a[1..] + b;
      WeightConcat(a[1..], b);
    }
  }

  lemma WeightWithout(tasks: seq<Task>, i: nat)
    requires i < |tasks|
    ensures Weight(tasks) == Weight(Without(tasks, i)) + TaskWeight(tasks[i])
  {
    WeightConcat(tasks[..i], tasks[i + 1..]);
    WeightConcat(tasks[..i], tasks[i..]);
    assert tasks == tasks[..i] + tasks[i..];
  }

  lemma {:induction false} WeightFetchAll(requests: seq<Request>)
    ensures Weight(FetchAll(requests)) == 2 * |requests|
  {
    if requests != [] {
      WeightFetchAll(requests[1..]);
      assert FetchAll(requests)[1..] == FetchAll(requests[1..]);
    }
  }

  /** The work that the packages in a set can still bring. */
  ghost function Ahead(ctx: Context, packages: set<PackageVersion>): nat
    decreases |packages|
  {
    if packages == {} then 0
    else
      var p :| p in packages;
      2 * |ListRequests(p, ctx.config.autoInstallPeers)| + Ahead(ctx, packages - {p})
  }

  lemma {:induction false} AheadWithout(ctx: Context, packages: set<PackageVersion>, p: PackageVersion)
    requires p in packages
    ensures Ahead(ctx, packages) == 2 * |ListRequests(p, ctx.config.autoInstallPeers)| + Ahead(ctx, packages - {p})
    decreases |packages|
  {
    hide ListRequests;
    var q :| q in packages && Ahead(ctx, packages)
      == 2 * |ListRequests(q, ctx.config.autoInstallPeers)| + Ahead(ctx, packages - {q});
    if q != p {
      AheadWithout(ctx, packages - {q}, p);
      AheadWithout(ctx, packages - {p}, q);
      assert packages - {q} - {p} == packages - {p} - {q};
    }
  }

  /** A bound on the steps still to come: each step brings it down, so no interleaving runs for ever. */
  ghost function Remaining(ctx: Context, s: State): nat {
    Weight(s.tasks) + Ahead(ctx, Versions(ctx.registry) - (set p | p in s.expanded)) + (if s.panicked then 0 else 1)
  }

  lemma ExpandComesDown(ctx: Context, requests: seq<Request>, s: State, i: nat)
    requires Invariant(ctx, requests, s) && !s.panicked
    requires i < |s.tasks| && s.tasks[i].Expanding? && StoreName(s.tasks[i].package) !in s.resolved
    ensures Remaining(ctx, Advance(ctx, s, i)) < Remaining(ctx, s)
  {
    hide Lists;
    hide ListsDependencies;
    var p := s.tasks[i].package;
    var listed := ListRequests(p, ctx.config.autoInstallPeers);
    var t := Advance(ctx, s, i);
    WeightWithout(s.tasks, i);
    WeightConcat(Without(s.tasks, i), FetchAll(listed));
    WeightFetchAll(listed);
    assert Expanding(p) in s.tasks;
    var left := Versions(ctx.registry) - (set q | q in s.expanded);
    assert p in left;
    AheadWithout(ctx, left, p);
    assert Versions(ctx.registry) - (set q | q in t.expanded) == left - {p};
  }

  lemma StepComesDown(ctx: Context, requests: seq<Request>, s: State, t: State)
    requires Invariant(ctx, requests, s) && Step(ctx, s, t)
    ensures Remaining(ctx, t) < Remaining(ctx, s)
  {
    var i: nat :| i < |s.tasks| && t == Advance(ctx, s, i);
    WeightWithout(s.tasks, i);
    match s.tasks[i]
    case Fetching(e) =>
      if Resolve(ctx.registry, e).Some? {
        var fetched := [Expanding(Resolve(ctx.registry, e).value)];
        hide Invariant;
        WeightConcat(Without(s.tasks, i), fetched);
        assert Weight(fetched) == 1 by { assert fetched[1..] == []; }
      }
    case Expanding(p) =>
      if StoreName(p) !in s.resolved {
        ExpandComesDown(ctx, requests, s, i);
      }
  }

  /** No run is longer than the bound it starts with. */
  lemma {:induction false} RunsAreFinite(ctx: Context, requests: seq<Request>, run: seq<State>)
    requires ctx.Valid() && IsRun(ctx, requests, run)
    ensures |run| - 1 + Remaining(ctx, run[|run| - 1]) <= Remaining(ctx, Start(requests))
  {
    hide Invariant;
    hide Remaining;
    hide Step;
    if |run| > 1 {
      var before := run[..|run| - 1];
      RunsAreFinite(ctx, requests, before);
      RunKeeps(ctx, requests, before);
      StepComesDown(ctx, requests, before[|before| - 1], run[|run| - 1]);
    }
  }
}
