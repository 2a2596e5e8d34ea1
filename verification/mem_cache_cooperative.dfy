/**
 * The in-memory tarball cache when all tasks are polled by one thread: a step is the code between two awaits.
 *
 * The concurrent map is divided into shards. A task that has found its URL keeps a read guard on the shard until it
 * returns, across its awaits, and inserting into a shard waits for its guards to go. When the guard belongs to
 * another task of the same thread that wait never ends: the thread is blocked.
 */
module MemCacheCooperative {

  type CasPaths = map<string, string>

  datatype Cell = InProgress | Available(paths: CasPaths)

  /** How far a task has come, by the await it is at; the number is the cell it works with. */
  datatype Pc =
    | NotStarted
    | Locking(cell: nat)
    | Parked(cell: nat)
    | Waking(cell: nat)
    | Leading(cell: nat)
    | Publishing(cell: nat, paths: CasPaths)
    | Done(paths: CasPaths)
    | Failed
    | Unreachable
  {
    predicate HoldsGuard() { Locking? || Parked? || Waking? }

    predicate IsReady() { NotStarted? || Locking? || Waking? || Leading? || Publishing? }
  }

  /** The URL of each task, and the shard of each URL. */
  datatype Setup = Setup(urls: seq<string>, shard: string -> nat) {
    predicate Conflicts(j: nat, k: nat)
      requires j < |urls| && k < |urls|
    {
      shard(urls[j]) == shard(urls[k])
    }
  }

  /** `leaders` holds, for each cell, which of the tasks made it. */
  datatype State = State(cells: seq<Cell>, cache: map<string, nat>, tasks: seq<Pc>, leaders: seq<nat>, blocked: bool)

  function Begin(setup: Setup): State {
    State([], map[], seq(|setup.urls|, _ => NotStarted), [], false)
  }

  function Moved(s: State, i: nat, pc: Pc): State
    requires i < |s.tasks|
  {
    s.(tasks := s.tasks[i := pc])
  }

  function Wake(tasks: seq<Pc>, cell: nat): seq<Pc> {
    seq(|tasks|, i requires 0 <= i < |tasks| => if tasks[i] == Parked(cell) then Waking(cell) else tasks[i])
  }

  /** A guard on the shard is out. */
  predicate IsGuarded(setup: Setup, s: State, i: nat)
    requires i < |setup.urls|
  {
    exists j | 0 <= j < |s.tasks| && j < |setup.urls| :: s.tasks[j].HoldsGuard() && setup.Conflicts(j, i)
  }

  /** Task `i` runs from its await to the next one. */
  ghost predicate Step(setup: Setup, s: State, t: State, i: nat) {
    !s.blocked && i < |setup.urls| && i < |s.tasks| && Poll(setup, s, t, i)
  }

  ghost predicate Poll(setup: Setup, s: State, t: State, i: nat)
    requires i < |setup.urls| && i < |s.tasks|
  {
    match s.tasks[i]
    case NotStarted =>
      if setup.urls[i] in s.cache then t == Moved(s, i, Locking(s.cache[setup.urls[i]]))
      else if IsGuarded(setup, s, i) then t == s.(blocked := true)
      else t == Moved(s, i, Leading(|s.cells|)).(
        cells := s.cells + [InProgress], cache := s.cache[setup.urls[i] := |s.cells|], leaders := s.leaders + [i])
    case Locking(c) =>
      c < |s.cells| && t == Moved(s, i, if s.cells[c].Available? then Done(s.cells[c].paths) else Parked(c))
    case Waking(c) =>
      c < |s.cells| && t == Moved(s, i, if s.cells[c].Available? then Done(s.cells[c].paths) else Unreachable)
    case Leading(c) => t == Moved(s, i, Failed) || exists paths :: t == Moved(s, i, Publishing(c, paths))
    case Publishing(c, paths) =>
      c < |s.cells| && t == s.(cells := s.cells[c := Available(paths)], tasks := Wake(s.tasks[i := Done(paths)], c))
    case _ => false
  }

  ghost predicate Next(setup: Setup, s: State, t: State) {
    exists i: nat :: Step(setup, s, t, i)
  }

  ghost predicate IsRun(setup: Setup, run: seq<State>) {
    && run != [] && run[0] == Begin(setup)
    && forall k | 0 < k < |run| :: Next(setup, run[k - 1], run[k])
  }

  /** Nothing can go on from here. */
  ghost predicate IsFinal(setup: Setup, s: State) {
    forall t :: !Next(setup, s, t)
  }

  /** The one cell of the URL. */
  predicate IsCellOf(setup: Setup, s: State, c: nat, url: string) {
    c < |s.cells| && url in s.cache && s.cache[url] == c
  }

  predicate TaskIsSound(setup: Setup, s: State, i: nat)
    requires i < |s.tasks| && i < |setup.urls|
  {
    match s.tasks[i]
    case NotStarted => true
    case Locking(c) => IsCellOf(setup, s, c, setup.urls[i])
    case Parked(c) => IsCellOf(setup, s, c, setup.urls[i]) && s.cells[c] == InProgress
    case Waking(c) => IsCellOf(setup, s, c, setup.urls[i]) && s.cells[c].Available?
    case Leading(c) => LeadsCell(setup, s, c, i) && s.cells[c] == InProgress
    case Publishing(c, _) => LeadsCell(setup, s, c, i) && s.cells[c] == InProgress
    case Done(paths) => setup.urls[i] in s.cache && IsCellOf(setup, s, s.cache[setup.urls[i]], setup.urls[i])
      && s.cells[s.cache[setup.urls[i]]] == Available(paths)
    case Failed => true
    case Unreachable => false
  }

  predicate LeadsCell(setup: Setup, s: State, c: nat, i: nat)
    requires i < |setup.urls|
  {
    IsCellOf(setup, s, c, setup.urls[i]) && c < |s.leaders| && s.leaders[c] == i
  }

  /** A cell still in progress has its leader at work, unless the leader has failed. */
  predicate CellIsLed(setup: Setup, s: State, c: nat)
    requires c < |s.leaders| && c < |s.cells|
  {
    var i := s.leaders[c];
    && i < |setup.urls| && i < |s.tasks|
    && IsCellOf(setup, s, c, setup.urls[i])
    && !s.tasks[i].NotStarted? && !s.tasks[i].HoldsGuard()
    && (s.cells[c] == InProgress ==>
          s.tasks[i] == Leading(c) || s.tasks[i] == Failed || (s.tasks[i].Publishing? && s.tasks[i].cell == c))
  }

  predicate IsLedFor(setup: Setup, s: State, c: nat, url: string) {
    c < |s.leaders| && s.leaders[c] < |setup.urls| && setup.urls[s.leaders[c]] == url
  }

  ghost predicate Invariant(setup: Setup, s: State) {
    && |s.tasks| == |setup.urls| && |s.leaders| == |s.cells|
    && (forall url :: url in s.cache ==> IsLedFor(setup, s, s.cache[url], url))
    && (forall c | 0 <= c < |s.cells| :: CellIsLed(setup, s, c))
    && (forall i | 0 <= i < |setup.urls| :: TaskIsSound(setup, s, i))
  }

  lemma BeginIsSound(setup: Setup)
    ensures Invariant(setup, Begin(setup))
  {
  }

  /** A step that only moves one task, which neither starts nor stops leading by it. */
  lemma MovedIsSound(setup: Setup, s: State, t: State, i: nat)
    requires Invariant(setup, s) && i < |setup.urls| && |t.tasks| == |setup.urls|
    requires t == Moved(s, i, t.tasks[i]) && TaskIsSound(setup, t, i)
    requires forall c | 0 <= c < |s.cells| :: s.leaders[c] == i ==> CellIsLed(setup, t, c)
    ensures Invariant(setup, t)
  {
    forall j | 0 <= j < |setup.urls|
      ensures TaskIsSound(setup, t, j)
    {
      assert TaskIsSound(setup, s, j);
    }
    forall c | 0 <= c < |s.cells|
      ensures CellIsLed(setup, t, c)
    {
      assert CellIsLed(setup, s, c);
    }
    forall url | url in t.cache
      ensures IsLedFor(setup, t, t.cache[url], url)
    {
      assert IsLedFor(setup, s, s.cache[url], url);
    }
  }

  /** A task that waits, or has not started, leads no cell. */
  lemma WaiterLeadsNothing(setup: Setup, s: State, i: nat)
    requires Invariant(setup, s) && i < |setup.urls| && (s.tasks[i].NotStarted? || s.tasks[i].HoldsGuard())
    ensures forall c | 0 <= c < |s.cells| :: s.leaders[c] != i
  {
    forall c | 0 <= c < |s.cells|
      ensures s.leaders[c] != i
    {
      assert CellIsLed(setup, s, c);
    }
  }

  /** A task leads at most the one cell of its URL. */
  lemma LeaderLeadsOne(setup: Setup, s: State, c: nat, i: nat)
    requires Invariant(setup, s) && i < |setup.urls| && LeadsCell(setup, s, c, i)
    ensures forall d | 0 <= d < |s.cells| :: s.leaders[d] == i ==> d == c
  {
    forall d | 0 <= d < |s.cells| && s.leaders[d] == i
      ensures d == c
    {
      assert CellIsLed(setup, s, d);
    }
  }

  lemma InsertIsSound(setup: Setup, s: State, t: State, i: nat)
    requires Invariant(setup, s) && i < |setup.urls| && s.tasks[i] == NotStarted && setup.urls[i] !in s.cache
    requires t == Moved(s, i, Leading(|s.cells|)).(
      cells := s.cells + [InProgress], cache := s.cache[setup.urls[i] := |s.cells|], leaders := s.leaders + [i])
    ensures Invariant(setup, t)
  {
    forall j | 0 <= j < |setup.urls|
      ensures TaskIsSound(setup, t, j)
    {
      assert TaskIsSound(setup, s, j);
    }
    forall c | 0 <= c < |t.cells|
      ensures CellIsLed(setup, t, c)
    {
      if c < |s.cells| {
        WaiterLeadsNothing(setup, s, i);
        assert CellIsLed(setup, s, c);
      }
    }
    forall url | url in t.cache
      ensures IsLedFor(setup, t, t.cache[url], url)
    {
      if url != setup.urls[i] {
        assert IsLedFor(setup, s, s.cache[url], url);
      }
    }
  }

  lemma PublishIsSound(setup: Setup, s: State, t: State, i: nat, c: nat, paths: CasPaths)
    requires Invariant(setup, s) && i < |setup.urls| && s.tasks[i] == Publishing(c, paths) && c < |s.cells|
    requires t == s.(cells := s.cells[c := Available(paths)], tasks := Wake(s.tasks[i := Done(paths)], c))
    ensures Invariant(setup, t)
  {
    assert TaskIsSound(setup, s, i);
    forall j | 0 <= j < |setup.urls|
      ensures TaskIsSound(setup, t, j)
    {
      assert TaskIsSound(setup, s, j);
    }
    forall d | 0 <= d < |t.cells|
      ensures CellIsLed(setup, t, d)
    {
      LeaderLeadsOne(setup, s, c, i);
      assert CellIsLed(setup, s, d);
    }
    forall url | url in t.cache
      ensures IsLedFor(setup, t, t.cache[url], url)
    {
      assert IsLedFor(setup, s, s.cache[url], url);
    }
  }

  lemma BlockedIsSound(setup: Setup, s: State)
    requires Invariant(setup, s)
    ensures Invariant(setup, s.(blocked := true))
  {
    var t := s.(blocked := true);
    forall j | 0 <= j < |setup.urls|
      ensures TaskIsSound(setup, t, j)
    {
      assert TaskIsSound(setup, s, j);
    }
    forall c | 0 <= c < |t.cells|
      ensures CellIsLed(setup, t, c)
    {
      assert CellIsLed(setup, s, c);
    }
    forall url | url in t.cache
      ensures IsLedFor(setup, t, t.cache[url], url)
    {
      assert IsLedFor(setup, s, s.cache[url], url);
    }
  }

  lemma StepIsSound(setup: Setup, s: State, t: State, i: nat)
    requires Invariant(setup, s) && Step(setup, s, t, i)
    ensures Invariant(setup, t)
  {
    assert TaskIsSound(setup, s, i);
    match s.tasks[i]
    case NotStarted =>
      if setup.urls[i] in s.cache {
        WaiterLeadsNothing(setup, s, i);
        assert IsLedFor(setup, s, s.cache[setup.urls[i]], setup.urls[i]);
        MovedIsSound(setup, s, t, i);
      } else if IsGuarded(setup, s, i) {
        BlockedIsSound(setup, s);
      } else {
        InsertIsSound(setup, s, t, i);
      }
    case Locking(c) =>
      WaiterLeadsNothing(setup, s, i);
      MovedIsSound(setup, s, t, i);
    case Waking(c) =>
      WaiterLeadsNothing(setup, s, i);
      MovedIsSound(setup, s, t, i);
    case Leading(c) =>
      LeaderLeadsOne(setup, s, c, i);
      MovedIsSound(setup, s, t, i);
    case Publishing(c, paths) => PublishIsSound(setup, s, t, i, c, paths);
    case _ =>
  }

  /** Every state of every run. */
  lemma {:induction false} RunsAreSound(setup: Setup, run: seq<State>)
    requires IsRun(setup, run)
    ensures forall k | 0 <= k < |run| :: Invariant(setup, run[k])
  {
    hide Invariant;
    hide Step;
    hide Begin;
    if |run| == 1 {
      BeginIsSound(setup);
    } else {
      var before := run[..|run| - 1];
      RunsAreSound(setup, before);
      var i: nat :| Step(setup, run[|run| - 2], run[|run| - 1], i);
      StepIsSound(setup, run[|run| - 2], run[|run| - 1], i);
    }
  }

  predicate ServeDifferentUrls(setup: Setup, i: nat, j: nat) {
    i < |setup.urls| && j < |setup.urls| && setup.urls[i] != setup.urls[j]
  }

  /** No URL ever has two leaders, and nobody waits on a cell that is available. */
  lemma OneLeaderAndNoLostWaiter(setup: Setup, run: seq<State>, k: nat)
    requires IsRun(setup, run) && k < |run|
    ensures var s := run[k];
      && |s.tasks| == |setup.urls| && |s.leaders| == |s.cells|
      && (forall c, d | 0 <= c < d < |s.cells| :: ServeDifferentUrls(setup, s.leaders[c], s.leaders[d]))
      && (forall i | 0 <= i < |s.tasks| :: s.tasks[i].Parked? ==>
        s.tasks[i].cell < |s.cells| && s.cells[s.tasks[i].cell] == InProgress)
      && (forall i | 0 <= i < |s.tasks| :: s.tasks[i] != Unreachable)
  {
    RunsAreSound(setup, run);
    var s := run[k];
    forall i | 0 <= i < |s.tasks|
      ensures s.tasks[i] != Unreachable
      ensures s.tasks[i].Parked? ==> s.tasks[i].cell < |s.cells| && s.cells[s.tasks[i].cell] == InProgress
    {
      assert TaskIsSound(setup, s, i);
    }
    forall c, d | 0 <= c < d < |s.cells|
      ensures ServeDifferentUrls(setup, s.leaders[c], s.leaders[d])
    {
      assert CellIsLed(setup, s, c) && CellIsLed(setup, s, d);
    }
  }

  /** Two tasks want one URL, and a third wants another URL of the same shard. */
  ghost predicate HasShardConflict(setup: Setup) {
    exists i: nat, j: nat, k: nat :: IsConflict(setup, i, j, k)
  }

  predicate IsConflict(setup: Setup, i: nat, j: nat, k: nat) {
    && i < |setup.urls| && j < |setup.urls| && k < |setup.urls| && i != j
    && setup.urls[i] == setup.urls[j] && setup.urls[k] != setup.urls[j]
    && setup.shard(setup.urls[j]) == setup.shard(setup.urls[k])
  }

  /** Blocking needs a waiter of one URL, its leader, and a newcomer to the shard. */
  lemma BlockingNeedsConflict(setup: Setup, s: State, k: nat)
    requires Invariant(setup, s) && k < |setup.urls| && setup.urls[k] !in s.cache && IsGuarded(setup, s, k)
    ensures HasShardConflict(setup)
  {
    var j: nat :| j < |s.tasks| && s.tasks[j].HoldsGuard() && setup.Conflicts(j, k);
    assert TaskIsSound(setup, s, j);
    var c := s.tasks[j].cell;
    assert CellIsLed(setup, s, c) && IsLedFor(setup, s, c, setup.urls[j]);
    assert IsConflict(setup, s.leaders[c], j, k);
  }

  lemma {:induction false} NeverBlocked(setup: Setup, run: seq<State>)
    requires IsRun(setup, run) && !HasShardConflict(setup)
    ensures forall k | 0 <= k < |run| :: !run[k].blocked
  {
    hide Invariant;
    hide HasShardConflict;
    if |run| > 1 {
      var before := run[..|run| - 1];
      NeverBlocked(setup, before);
      RunsAreSound(setup, before);
      var s, t := run[|run| - 2], run[|run| - 1];
      assert s == before[|before| - 1];
      var i: nat :| Step(setup, s, t, i);
      if t.blocked {
        BlockingNeedsConflict(setup, s, i);
      }
    }
  }

  /**
   * A task that is first to want its URL blocks the thread exactly when some other has found a URL of that shard
   * and has not returned yet, be it at the lock of the cell, waiting for the leader, or just woken.
   */
  lemma NewcomerBlocksExactly(setup: Setup, run: seq<State>, t: State, k: nat)
    requires IsRun(setup, run) && Step(setup, run[|run| - 1], t, k)
    requires run[|run| - 1].tasks[k] == NotStarted && setup.urls[k] !in run[|run| - 1].cache
    ensures var s := run[|run| - 1];
      t.blocked <==> exists j | 0 <= j < |s.tasks| && j < |setup.urls| ::
        && setup.shard(setup.urls[j]) == setup.shard(setup.urls[k])
        && (s.tasks[j].Locking? || s.tasks[j].Parked? || s.tasks[j].Waking?)
  {
    hide IsRun;
  }

  predicate NoLeaderFailed(s: State) {
    forall i | 0 <= i < |s.tasks| :: s.tasks[i] != Failed
  }

  /** Three polls are enough to block the thread for good: the leader, its waiter, and the newcomer. */
  lemma ConflictBlocks(setup: Setup, i: nat, j: nat, k: nat) returns (run: seq<State>)
    requires IsConflict(setup, i, j, k)
    ensures IsRun(setup, run) && run[|run| - 1].blocked
    ensures IsFinal(setup, run[|run| - 1]) && NoLeaderFailed(run[|run| - 1])
  {
    var s0 := Begin(setup);
    var s1 := Moved(s0, i, Leading(0)).(cells := [InProgress], cache := map[setup.urls[i] := 0], leaders := [i]);
    var s2 := Moved(s1, j, Locking(0));
    var s3 := s2.(blocked := true);
    assert !IsGuarded(setup, s0, i);
    assert Step(setup, s0, s1, i);
    assert s1.tasks[j] == NotStarted;
    assert Step(setup, s1, s2, j);
    assert s2.tasks[k] == NotStarted && s2.tasks[j].HoldsGuard();
    assert IsGuarded(setup, s2, k);
    assert Step(setup, s2, s3, k);
    run := [s0, s1, s2, s3];
  }

  /** The thread can block exactly when some shard holds a URL wanted twice and another URL. */
  lemma BlocksExactlyOnConflict(setup: Setup)
    ensures HasShardConflict(setup) <==> exists run: seq<State> :: IsRun(setup, run) && run[|run| - 1].blocked
  {
    if HasShardConflict(setup) {
      var i: nat, j: nat, k: nat :| IsConflict(setup, i, j, k);
      var run := ConflictBlocks(setup, i, j, k);
    } else {
      forall run: seq<State> | IsRun(setup, run)
        ensures !run[|run| - 1].blocked
      {
        NeverBlocked(setup, run);
      }
    }
  }

  predicate AllHoldOneMap(setup: Setup, s: State) {
    && |s.tasks| == |setup.urls|
    && (forall i | 0 <= i < |s.tasks| :: s.tasks[i].Done?)
    && (forall i, j | 0 <= i < |s.tasks| && 0 <= j < |s.tasks| :: setup.urls[i] == setup.urls[j] ==>
      s.tasks[i] == s.tasks[j])
  }

  /** Where one more poll takes a task that is ready; a leader is taken to fail. */
  ghost function Polled(setup: Setup, s: State, i: nat): State
    requires Invariant(setup, s) && i < |setup.urls|
  {
    assert TaskIsSound(setup, s, i);
    match s.tasks[i]
    case NotStarted =>
      if setup.urls[i] in s.cache then Moved(s, i, Locking(s.cache[setup.urls[i]]))
      else if IsGuarded(setup, s, i) then s.(blocked := true)
      else Moved(s, i, Leading(|s.cells|)).(
        cells := s.cells + [InProgress], cache := s.cache[setup.urls[i] := |s.cells|], leaders := s.leaders + [i])
    case Locking(c) => Moved(s, i, if s.cells[c].Available? then Done(s.cells[c].paths) else Parked(c))
    case Waking(c) => Moved(s, i, Done(s.cells[c].paths))
    case Publishing(c, paths) =>
      s.(cells := s.cells[c := Available(paths)], tasks := Wake(s.tasks[i := Done(paths)], c))
    case _ => Moved(s, i, Failed)
  }

  /** A task that is not waiting and not finished can be polled to some effect. */
  lemma ReadyCanStep(setup: Setup, s: State, i: nat)
    requires Invariant(setup, s) && !s.blocked && i < |setup.urls| && s.tasks[i].IsReady()
    ensures Next(setup, s, Polled(setup, s, i))
  {
    assert TaskIsSound(setup, s, i);
    assert Step(setup, s, Polled(setup, s, i), i);
  }

  /** A waiter in a state where nothing can go on would wait for a leader that still can. */
  lemma FinalTaskIsDone(setup: Setup, s: State, i: nat)
    requires Invariant(setup, s) && IsFinal(setup, s) && !s.blocked && NoLeaderFailed(s) && i < |setup.urls|
    ensures s.tasks[i].Done?
  {
    assert TaskIsSound(setup, s, i);
    if s.tasks[i].IsReady() {
      ReadyCanStep(setup, s, i);
    } else if s.tasks[i].Parked? {
      var leader := s.leaders[s.tasks[i].cell];
      assert CellIsLed(setup, s, s.tasks[i].cell);
      ReadyCanStep(setup, s, leader);
    }
  }

  /** A blocked thread leaves at least one caller unserved. */
  lemma {:induction false} BlockedIsUnserved(setup: Setup, run: seq<State>)
    requires IsRun(setup, run) && run[|run| - 1].blocked
    ensures !AllHoldOneMap(setup, run[|run| - 1])
  {
    var s, t := run[|run| - 2], run[|run| - 1];
    if !s.blocked {
      var i: nat :| Step(setup, s, t, i);
      assert t.tasks[i].NotStarted?;
    }
  }

  /**
   * When no leader fails, a run that can go no further has served every task alike, unless the thread is blocked;
   * and it never is when no shard is contended.
   */
  lemma FinalRunServesAll(setup: Setup, run: seq<State>)
    requires IsRun(setup, run)
    requires IsFinal(setup, run[|run| - 1]) && NoLeaderFailed(run[|run| - 1])
    ensures AllHoldOneMap(setup, run[|run| - 1]) <==> !run[|run| - 1].blocked
    ensures !HasShardConflict(setup) ==> AllHoldOneMap(setup, run[|run| - 1])
  {
    var s := run[|run| - 1];
    RunsAreSound(setup, run);
    if !HasShardConflict(setup) {
      NeverBlocked(setup, run);
    }
    if s.blocked {
      BlockedIsUnserved(setup, run);
    } else {
      forall i | 0 <= i < |s.tasks|
        ensures s.tasks[i].Done? && TaskIsSound(setup, s, i)
      {
        FinalTaskIsDone(setup, s, i);
      }
    }
  }

  /** A run that can go no further although no leader has failed. */
  ghost predicate IsComplete(setup: Setup, run: seq<State>) {
    IsRun(setup, run) && IsFinal(setup, run[|run| - 1]) && NoLeaderFailed(run[|run| - 1])
  }

  /** All complete runs serve every task alike exactly when no shard holds a URL wanted twice and another one. */
  lemma ServesAllExactly(setup: Setup)
    ensures (forall run: seq<State> | IsComplete(setup, run) :: AllHoldOneMap(setup, run[|run| - 1]))
       <==> !HasShardConflict(setup)
  {
    hide IsFinal;
    hide NoLeaderFailed;
    hide AllHoldOneMap;
    if i: nat, j: nat, k: nat :| IsConflict(setup, i, j, k) {
      var run := ConflictBlocks(setup, i, j, k);
      FinalRunServesAll(setup, run);
      assert IsComplete(setup, run);
    } else {
      forall run: seq<State> | IsComplete(setup, run)
        ensures AllHoldOneMap(setup, run[|run| - 1])
      {
        FinalRunServesAll(setup, run);
      }
    }
  }

  /** The first `n` tasks have been served with the map of their URL, one after the other; the rest has not begun. */
  ghost predicate HasServed(setup: Setup, maps: string -> CasPaths, s: State, n: nat) {
    && |s.tasks| == |setup.urls| && !s.blocked
    && (forall i | 0 <= i < |s.tasks| :: s.tasks[i] == if i < n then Done(maps(setup.urls[i])) else NotStarted)
    && (forall url :: url in s.cache ==> s.cache[url] < |s.cells| && s.cells[s.cache[url]] == Available(maps(url)))
  }

  /** A task that finds its URL takes its map from there. */
  lemma ServeFound(setup: Setup, maps: string -> CasPaths, s: State, n: nat) returns (s1: State, s2: State)
    requires HasServed(setup, maps, s, n) && n < |setup.urls| && setup.urls[n] in s.cache
    ensures Next(setup, s, s1) && Next(setup, s1, s2) && HasServed(setup, maps, s2, n + 1)
  {
    s1 := Moved(s, n, Locking(s.cache[setup.urls[n]]));
    s2 := Moved(s1, n, Done(maps(setup.urls[n])));
    assert Step(setup, s, s1, n);
    assert Step(setup, s1, s2, n);
  }

  /** A task that does not becomes the leader of its URL, and publishes. */
  lemma ServeMissing(setup: Setup, maps: string -> CasPaths, s: State, n: nat)
    returns (s1: State, s2: State, s3: State)
    requires HasServed(setup, maps, s, n) && n < |setup.urls| && setup.urls[n] !in s.cache
    ensures Next(setup, s, s1) && Next(setup, s1, s2) && Next(setup, s2, s3) && HasServed(setup, maps, s3, n + 1)
  {
    var c, paths := |s.cells|, maps(setup.urls[n]);
    s1 := Moved(s, n, Leading(c)).(
      cells := s.cells + [InProgress], cache := s.cache[setup.urls[n] := c], leaders := s.leaders + [n]);
    s2 := Moved(s1, n, Publishing(c, paths));
    s3 := s2.(cells := s2.cells[c := Available(paths)], tasks := s2.tasks[n := Done(paths)]);
    assert Wake(s2.tasks[n := Done(paths)], c) == s3.tasks;
    assert Step(setup, s, s1, n);
    assert Step(setup, s1, s2, n);
    assert Step(setup, s2, s3, n);
  }

  lemma {:induction false} ServeInTurn(setup: Setup, maps: string -> CasPaths, n: nat) returns (run: seq<State>)
    requires n <= |setup.urls|
    ensures IsRun(setup, run) && HasServed(setup, maps, run[|run| - 1], n)
  {
    hide Next;
    if n == 0 {
      run := [Begin(setup)];
    } else {
      run := ServeInTurn(setup, maps, n - 1);
      hide HasServed;
      var s := run[|run| - 1];
      if setup.urls[n - 1] in s.cache {
        var s1, s2 := ServeFound(setup, maps, s, n - 1);
        run := run + [s1, s2];
      } else {
        var s1, s2, s3 := ServeMissing(setup, maps, s, n - 1);
        run := run + [s1, s2, s3];
      }
    }
  }

  /** Whatever the shards, tasks that are polled one after the other are all served, each with the map of its URL. */
  lemma EveryoneCanBeServed(setup: Setup, maps: string -> CasPaths) returns (run: seq<State>)
    ensures IsComplete(setup, run) && AllHoldOneMap(setup, run[|run| - 1])
    ensures forall i | 0 <= i < |setup.urls| :: run[|run| - 1].tasks[i] == Done(maps(setup.urls[i]))
  {
    run := ServeInTurn(setup, maps, |setup.urls|);
    hide IsRun;
  }

  function PcWeight(pc: Pc): nat {
    match pc
    case NotStarted => 4
    case Locking(_) => 3
    case Parked(_) => 2
    case Waking(_) => 1
    case Leading(_) => 2
    case Publishing(_, _) => 1
    case _ => 0
  }

  function Weight(tasks: seq<Pc>): nat {
    if tasks == [] then 0 else PcWeight(tasks[0]) + Weight(tasks[1..])
  }

  lemma {:induction false} WeightComesDown(a: seq<Pc>, b: seq<Pc>)
    requires |a| == |b| && forall i | 0 <= i < |a| :: PcWeight(b[i]) <= PcWeight(a[i])
    ensures Weight(b) <= Weight(a)
    ensures (exists i | 0 <= i < |a| :: PcWeight(b[i]) < PcWeight(a[i])) ==> Weight(b) < Weight(a)
  {
    if a != [] {
      WeightComesDown(a[1..], b[1..]);
      if i :| 0 <= i < |a| && PcWeight(b[i]) < PcWeight(a[i]) {
        if i > 0 {
          assert PcWeight(b[1..][i - 1]) < PcWeight(a[1..][i - 1]);
        }
      }
    }
  }

  /** A bound on the steps still to come. */
  function Remaining(s: State): nat {
    Weight(s.tasks) + if s.blocked then 0 else 1
  }

  lemma StepComesDown(setup: Setup, s: State, t: State, i: nat)
    requires Invariant(setup, s) && Step(setup, s, t, i)
    ensures Remaining(t) < Remaining(s)
  {
    if !t.blocked {
      assert TaskIsSound(setup, s, i);
      assert |t.tasks| == |s.tasks|;
      assert PcWeight(t.tasks[i]) < PcWeight(s.tasks[i]);
      WeightComesDown(s.tasks, t.tasks);
    }
  }

  /** Every run comes to an end, whatever is polled when. */
  lemma {:induction false} RunsAreFinite(setup: Setup, run: seq<State>)
    requires IsRun(setup, run)
    ensures |run| - 1 + Remaining(run[|run| - 1]) <= Remaining(Begin(setup))
  {
    hide Invariant;
    hide Remaining;
    hide Step;
    if |run| > 1 {
      var before := run[..|run| - 1];
      RunsAreFinite(setup, before);
      RunsAreSound(setup, before);
      var s, t := run[|run| - 2], run[|run| - 1];
      assert s == before[|before| - 1];
      var i: nat :| Step(setup, s, t, i);
      StepComesDown(setup, s, t, i);
    }
  }
}
