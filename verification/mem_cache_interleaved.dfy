/**
 * The in-memory tarball cache with every interleaving allowed: any task may run between any two accesses to the
 * shared map, to a cell or to its wake-up list. Two tasks may both find a URL missing and both become its leader.
 */
module MemCacheInterleaved {
  type CasPaths = map<string, string>

  datatype Cell = InProgress | Available(paths: CasPaths)

  /** How far a task has come; the number is the cell it works with. */
  datatype Pc =
    | Start
    | Found(cell: nat)
    | Registered(cell: nat)
    | Parked(cell: nat)
    | Woken(cell: nat)
    | Missing
    | Leading(cell: nat)
    | Loaded(cell: nat, paths: CasPaths)
    | Notifying(cell: nat, paths: CasPaths)
    | Done(paths: CasPaths)
    | Failed
    | Unreachable

  /**
   * `leaders` holds, for each cell, which of the tasks made it; `produced` the maps that leaders have loaded or
   * downloaded.
   */
  datatype State = State(
    cells: seq<Cell>,
    cache: map<string, nat>,
    tasks: seq<Pc>,
    leaders: seq<nat>,
    produced: set<(nat, CasPaths)>)

  function Begin(urls: seq<string>): State {
    State([], map[], seq(|urls|, _ => Start), [], {})
  }

  function Wake(tasks: seq<Pc>, cell: nat): seq<Pc> {
    seq(|tasks|, i requires 0 <= i < |tasks| => if tasks[i] == Parked(cell) then Woken(cell) else tasks[i])
  }

  function Moved(s: State, i: nat, pc: Pc): State
    requires i < |s.tasks|
  {
    s.(tasks := s.tasks[i := pc])
  }

  /** Task `i` makes one access. A parked task has none to make: it waits to be woken. */
  ghost predicate Step(urls: seq<string>, s: State, t: State, i: nat) {
    i < |urls| && i < |s.tasks| && Access(urls, s, t, i)
  }

  ghost predicate Access(urls: seq<string>, s: State, t: State, i: nat)
    requires i < |urls| && i < |s.tasks|
  {
    match s.tasks[i]
    case Start =>
      t == Moved(s, i, if urls[i] in s.cache then Found(s.cache[urls[i]]) else Missing)
    case Found(c) =>
      c < |s.cells| && t == Moved(s, i, if s.cells[c].Available? then Done(s.cells[c].paths) else Registered(c))
    case Registered(c) => t == Moved(s, i, Parked(c))
    case Woken(c) =>
      c < |s.cells| && t == Moved(s, i, if s.cells[c].Available? then Done(s.cells[c].paths) else Unreachable)
    case Missing =>
      t == Moved(s, i, Leading(|s.cells|)).(
        cells := s.cells + [InProgress], cache := s.cache[urls[i] := |s.cells|], leaders := s.leaders + [i])
    case Leading(c) =>
      || t == Moved(s, i, Failed)
      || exists paths :: t == Moved(s, i, Loaded(c, paths)).(produced := s.produced + {(i, paths)})
    case Loaded(c, paths) =>
      c < |s.cells| && t == Moved(s, i, Notifying(c, paths)).(cells := s.cells[c := Available(paths)])
    case Notifying(c, paths) => t == s.(tasks := Wake(s.tasks[i := Done(paths)], c))
    case _ => false
  }

  ghost predicate IsRun(urls: seq<string>, run: seq<State>) {
    && run != [] && run[0] == Begin(urls)
    && forall k | 0 < k < |run| :: Next(urls, run[k - 1], run[k])
  }

  ghost predicate Next(urls: seq<string>, s: State, t: State) {
    exists i: nat :: Step(urls, s, t, i)
  }

  /** A leader of this URL has produced this map. */
  ghost predicate IsProduced(urls: seq<string>, s: State, url: string, paths: CasPaths) {
    exists j: nat :: j < |urls| && urls[j] == url && (j, paths) in s.produced
  }

  /** The cell was made for this URL by the leader on record. */
  predicate IsCellOf(urls: seq<string>, s: State, c: nat, url: string) {
    c < |s.cells| && c < |s.leaders| && s.leaders[c] < |urls| && urls[s.leaders[c]] == url
  }

  predicate TaskIsSound(urls: seq<string>, s: State, i: nat)
    requires i < |s.tasks| && i < |urls|
  {
    match s.tasks[i]
    case Start => true
    case Missing => true
    case Failed => true
    case Unreachable => false
    case Found(c) => IsCellOf(urls, s, c, urls[i])
    case Registered(c) => IsCellOf(urls, s, c, urls[i])
    case Parked(c) => IsCellOf(urls, s, c, urls[i])
    case Woken(c) => IsCellOf(urls, s, c, urls[i]) && s.cells[c].Available?
    case Leading(c) => c < |s.cells| && c < |s.leaders| && s.leaders[c] == i && s.cells[c] == InProgress
    case Loaded(c, paths) =>
      c < |s.cells| && c < |s.leaders| && s.leaders[c] == i && s.cells[c] == InProgress && (i, paths) in s.produced
    case Notifying(c, paths) =>
      c < |s.cells| && c < |s.leaders| && s.leaders[c] == i && s.cells[c] == Available(paths)
        && (i, paths) in s.produced
    case Done(paths) => true
  }

  ghost predicate Invariant(urls: seq<string>, s: State) {
    && |s.tasks| == |urls| && |s.leaders| == |s.cells|
    && (forall c | 0 <= c < |s.leaders| :: s.leaders[c] < |urls|)
    && (forall url :: url in s.cache ==> IsCellOf(urls, s, s.cache[url], url))
    && (forall c | 0 <= c < |s.cells| :: s.cells[c].Available? ==> (s.leaders[c], s.cells[c].paths) in s.produced)
    && (forall i | 0 <= i < |urls| :: TaskIsSound(urls, s, i))
    && (forall i | 0 <= i < |urls| :: s.tasks[i].Done? ==> IsProduced(urls, s, urls[i], s.tasks[i].paths))
  }

  lemma BeginIsSound(urls: seq<string>)
    ensures Invariant(urls, Begin(urls))
  {
  }

  /** Cells only come into being, and an available one never changes. */
  ghost predicate CellsOnlySettle(s: State, t: State) {
    && |s.cells| <= |t.cells|
    && forall c | 0 <= c < |s.cells| :: s.cells[c].Available? ==> t.cells[c] == s.cells[c]
  }

  lemma MovedIsSound(urls: seq<string>, s: State, t: State, i: nat)
    requires Invariant(urls, s) && i < |urls| && |t.tasks| == |urls|
    requires t == Moved(s, i, t.tasks[i]) && TaskIsSound(urls, t, i)
    requires t.tasks[i].Done? ==> IsProduced(urls, s, urls[i], t.tasks[i].paths)
    ensures Invariant(urls, t) && CellsOnlySettle(s, t)
  {
    forall j | 0 <= j < |urls|
      ensures TaskIsSound(urls, t, j)
    {
      assert TaskIsSound(urls, s, j);
    }
  }

  lemma ReadIsProduced(urls: seq<string>, s: State, i: nat, c: nat)
    requires Invariant(urls, s) && i < |urls| && IsCellOf(urls, s, c, urls[i]) && s.cells[c].Available?
    ensures IsProduced(urls, s, urls[i], s.cells[c].paths)
  {
  }

  lemma InsertIsSound(urls: seq<string>, s: State, t: State, i: nat)
    requires Invariant(urls, s) && i < |urls| && s.tasks[i] == Missing && Step(urls, s, t, i)
    ensures Invariant(urls, t) && CellsOnlySettle(s, t)
  {
    forall j | 0 <= j < |urls|
      ensures TaskIsSound(urls, t, j)
      ensures t.tasks[j].Done? ==> IsProduced(urls, t, urls[j], t.tasks[j].paths)
    {
      assert TaskIsSound(urls, s, j);
    }
  }

  lemma LoadIsSound(urls: seq<string>, s: State, t: State, i: nat, paths: CasPaths)
    requires Invariant(urls, s) && i < |urls| && s.tasks[i].Leading?
    requires t == Moved(s, i, Loaded(s.tasks[i].cell, paths)).(produced := s.produced + {(i, paths)})
    ensures Invariant(urls, t) && CellsOnlySettle(s, t)
  {
    forall j | 0 <= j < |urls|
      ensures TaskIsSound(urls, t, j)
      ensures t.tasks[j].Done? ==> IsProduced(urls, t, urls[j], t.tasks[j].paths)
    {
      assert TaskIsSound(urls, s, j);
    }
  }

  lemma PublishIsSound(urls: seq<string>, s: State, t: State, i: nat)
    requires Invariant(urls, s) && i < |urls| && s.tasks[i].Loaded? && Step(urls, s, t, i)
    ensures Invariant(urls, t) && CellsOnlySettle(s, t)
  {
    assert TaskIsSound(urls, s, i);
    forall j | 0 <= j < |urls|
      ensures TaskIsSound(urls, t, j)
      ensures t.tasks[j].Done? ==> IsProduced(urls, t, urls[j], t.tasks[j].paths)
    {
      assert TaskIsSound(urls, s, j);
    }
  }

  lemma NotifyIsSound(urls: seq<string>, s: State, t: State, i: nat)
    requires Invariant(urls, s) && i < |urls| && s.tasks[i].Notifying? && Step(urls, s, t, i)
    ensures Invariant(urls, t) && CellsOnlySettle(s, t)
  {
    assert TaskIsSound(urls, s, i);
    forall j | 0 <= j < |urls|
      ensures TaskIsSound(urls, t, j)
      ensures t.tasks[j].Done? ==> IsProduced(urls, t, urls[j], t.tasks[j].paths)
    {
      assert TaskIsSound(urls, s, j);
    }
  }

  lemma StepIsSound(urls: seq<string>, s: State, t: State, i: nat)
    requires Invariant(urls, s) && Step(urls, s, t, i)
    ensures Invariant(urls, t) && CellsOnlySettle(s, t)
  {
    assert TaskIsSound(urls, s, i);
    match s.tasks[i]
    case Missing => InsertIsSound(urls, s, t, i);
    case Leading(c) =>
      if t != Moved(s, i, Failed) {
        var paths :| t == Moved(s, i, Loaded(c, paths)).(produced := s.produced + {(i, paths)});
        LoadIsSound(urls, s, t, i, paths);
      } else {
        MovedIsSound(urls, s, t, i);
      }
    case Loaded(_, _) => PublishIsSound(urls, s, t, i);
    case Notifying(_, _) => NotifyIsSound(urls, s, t, i);
    case Found(c) =>
      if s.cells[c].Available? { ReadIsProduced(urls, s, i, c); }
      MovedIsSound(urls, s, t, i);
    case Woken(c) =>
      ReadIsProduced(urls, s, i, c);
      MovedIsSound(urls, s, t, i);
    case Start => MovedIsSound(urls, s, t, i);
    case Registered(_) => MovedIsSound(urls, s, t, i);
    case _ =>
  }

  /**
   * In every state of every run no task reaches the code after a wake-up that finds nothing, and every map that a
   * task returns was produced by a leader of that task's URL.
   */
  lemma {:induction false} RunsAreSound(urls: seq<string>, run: seq<State>)
    requires IsRun(urls, run)
    ensures forall k | 0 <= k < |run| :: Invariant(urls, run[k])
  {
    hide Invariant;
    hide Step;
    hide Begin;
    if |run| == 1 {
      BeginIsSound(urls);
    } else {
      var before := run[..|run| - 1];
      RunsAreSound(urls, before);
      var s, t := run[|run| - 2], run[|run| - 1];
      var i: nat :| Step(urls, s, t, i);
      StepIsSound(urls, s, t, i);
    }
  }

  /** Over a whole run a cell becomes available at most once, and keeps the map it was given. */
  lemma {:induction false} CellsSettleOnce(urls: seq<string>, run: seq<State>, k: nat, m: nat)
    requires IsRun(urls, run) && k <= m < |run|
    ensures CellsOnlySettle(run[k], run[m])
    decreases m
  {
    RunsAreSound(urls, run);
    hide Invariant;
    hide Step;
    hide Begin;
    if k < m {
      CellsSettleOnce(urls, run, k, m - 1);
      var i: nat :| Step(urls, run[m - 1], run[m], i);
      StepIsSound(urls, run[m - 1], run[m], i);
    }
  }

  predicate HasRepeatedUrl(urls: seq<string>) {
    exists i, j | 0 <= i < |urls| && 0 <= j < |urls| :: i != j && urls[i] == urls[j]
  }

  predicate IsParkedOnAvailable(s: State, j: nat) {
    j < |s.tasks| && s.tasks[j].Parked? && s.tasks[j].cell < |s.cells| && s.cells[s.tasks[j].cell].Available?
  }

  /** A task parked on an available cell whose leader, the only one to wake it, has returned. */
  predicate IsStranded(s: State, j: nat) {
    && IsParkedOnAvailable(s, j)
    && s.tasks[j].cell < |s.leaders| && s.leaders[s.tasks[j].cell] < |s.tasks|
    && s.tasks[s.leaders[s.tasks[j].cell]].Done?
  }

  /** A stranded task stays where it is, whatever happens next. */
  lemma StrandedStays(urls: seq<string>, s: State, t: State, i: nat, j: nat)
    requires Invariant(urls, s) && Step(urls, s, t, i) && IsStranded(s, j)
    ensures IsStranded(t, j) && t.tasks[j] == s.tasks[j]
  {
    assert TaskIsSound(urls, s, i);
    assert s.tasks[i].Notifying? ==> s.tasks[i].cell != s.tasks[j].cell;
  }

  /** The states of two of the tasks, the others not having started. */
  function Pair(urls: seq<string>, i: nat, j: nat, a: Pc, b: Pc): seq<Pc>
    requires i < |urls| && j < |urls| && i != j
  {
    seq(|urls|, k => if k == i then a else if k == j then b else Start)
  }

  lemma PairAt(urls: seq<string>, i: nat, j: nat, a: Pc, b: Pc)
    requires i < |urls| && j < |urls| && i != j
    ensures |Pair(urls, i, j, a, b)| == |urls|
    ensures forall k | 0 <= k < |urls| :: Pair(urls, i, j, a, b)[k] == if k == i then a else if k == j then b else Start
  {
  }

  lemma PairMoved(urls: seq<string>, i: nat, j: nat, a: Pc, b: Pc, pc: Pc)
    requires i < |urls| && j < |urls| && i != j
    ensures |Pair(urls, i, j, a, b)| == |urls|
    ensures Pair(urls, i, j, a, b)[i := pc] == Pair(urls, i, j, pc, b)
    ensures Pair(urls, i, j, a, b)[j := pc] == Pair(urls, i, j, a, pc)
    ensures Pair(urls, i, j, a, b)[i] == a && Pair(urls, i, j, a, b)[j] == b
  {
    hide Pair;
    PairAt(urls, i, j, a, b);
    PairAt(urls, i, j, pc, b);
    PairAt(urls, i, j, a, pc);
  }

  lemma StartOfPair(urls: seq<string>, i: nat, j: nat)
    requires i < |urls| && j < |urls| && i != j
    ensures Begin(urls) == State([], map[], Pair(urls, i, j, Start, Start), [], {})
  {
    assert Begin(urls).tasks == Pair(urls, i, j, Start, Start);
  }

  lemma NobodyToWake(urls: seq<string>, i: nat, j: nat, paths: CasPaths)
    requires i < |urls| && j < |urls| && i != j
    ensures Wake(Pair(urls, i, j, Done(paths), Registered(0)), 0) == Pair(urls, i, j, Done(paths), Registered(0))
  {
  }

  lemma RunOfFive(urls: seq<string>, run: seq<State>)
    requires |run| == 5 && run[0] == Begin(urls)
    requires Next(urls, run[0], run[1]) && Next(urls, run[1], run[2]) && Next(urls, run[2], run[3])
    requires Next(urls, run[3], run[4])
    ensures IsRun(urls, run)
  {
    hide Next;
    hide Begin;
  }

  lemma NextStep(urls: seq<string>, s: State, t: State, i: nat)
    requires Step(urls, s, t, i)
    ensures Next(urls, s, t)
  {
  }

  /** One task leads and another finds its cell in progress. */
  lemma FirstHalf(urls: seq<string>, i: nat, j: nat) returns (run: seq<State>)
    requires i < |urls| && j < |urls| && i != j && urls[i] == urls[j]
    ensures IsRun(urls, run)
    ensures run[|run| - 1] ==
      State([InProgress], map[urls[i] := 0], Pair(urls, i, j, Leading(0), Registered(0)), [i], {})
  {
    hide Pair;
    hide IsRun;
    hide Next;
    hide Begin;
    var s0 := State([], map[], Pair(urls, i, j, Start, Start), [], {});
    StartOfPair(urls, i, j);
    var s1 := s0.(tasks := Pair(urls, i, j, Missing, Start));
    var s2 := State([InProgress], map[urls[i] := 0], Pair(urls, i, j, Leading(0), Start), [i], {});
    var s3 := s2.(tasks := Pair(urls, i, j, Leading(0), Found(0)));
    var s4 := s2.(tasks := Pair(urls, i, j, Leading(0), Registered(0)));
    PairMoved(urls, i, j, Start, Start, Missing);
    PairMoved(urls, i, j, Missing, Start, Leading(0));
    PairMoved(urls, i, j, Leading(0), Start, Found(0));
    PairMoved(urls, i, j, Leading(0), Found(0), Registered(0));
    NextStep(urls, s0, s1, i);
    NextStep(urls, s1, s2, i);
    NextStep(urls, s2, s3, j);
    NextStep(urls, s3, s4, j);
    run := [s0, s1, s2, s3, s4];
    RunOfFive(urls, run);
  }

  /** The leader publishes and notifies before the other task begins to wait. */
  lemma SecondHalf(urls: seq<string>, i: nat, j: nat, paths: CasPaths, s4: State) returns (run: seq<State>)
    requires i < |urls| && j < |urls| && i != j
    requires s4 == State([InProgress], map[urls[i] := 0], Pair(urls, i, j, Leading(0), Registered(0)), [i], {})
    ensures run != [] && run[0] == s4 && forall k | 0 < k < |run| :: Next(urls, run[k - 1], run[k])
    ensures run[|run| - 1] ==
      State([Available(paths)], map[urls[i] := 0], Pair(urls, i, j, Done(paths), Parked(0)), [i], {(i, paths)})
  {
    hide Pair;
    hide Wake;
    hide Next;
    var s5 := s4.(tasks := Pair(urls, i, j, Loaded(0, paths), Registered(0)), produced := {(i, paths)});
    var s6 := s5.(tasks := Pair(urls, i, j, Notifying(0, paths), Registered(0)), cells := [Available(paths)]);
    var s7 := s6.(tasks := Pair(urls, i, j, Done(paths), Registered(0)));
    var s8 := s6.(tasks := Pair(urls, i, j, Done(paths), Parked(0)));
    PairMoved(urls, i, j, Leading(0), Registered(0), Loaded(0, paths));
    PairMoved(urls, i, j, Loaded(0, paths), Registered(0), Notifying(0, paths));
    PairMoved(urls, i, j, Notifying(0, paths), Registered(0), Done(paths));
    PairMoved(urls, i, j, Done(paths), Registered(0), Parked(0));
    NobodyToWake(urls, i, j, paths);
    assert [InProgress][0 := Available(paths)] == [Available(paths)];
    NextStep(urls, s4, s5, i);
    NextStep(urls, s5, s6, i);
    NextStep(urls, s6, s7, i);
    NextStep(urls, s7, s8, j);
    run := [s4, s5, s6, s7, s8];
  }

  /**
   * With threads, a wake-up can be lost: a task that has read `InProgress` and not yet begun to wait misses the
   * leader's only notification, and is left parked on a cell that is available, with nobody left to wake it.
   */
  lemma WakeUpCanBeLost(urls: seq<string>, i: nat, j: nat, paths: CasPaths) returns (run: seq<State>)
    requires i < |urls| && j < |urls| && i != j && urls[i] == urls[j]
    ensures IsRun(urls, run)
    ensures IsStranded(run[|run| - 1], j) && run[|run| - 1].cells == [Available(paths)]
  {
    hide Next;
    var first := FirstHalf(urls, i, j);
    var second := SecondHalf(urls, i, j, paths, first[|first| - 1]);
    run := first[..|first| - 1] + second;
    assert run[|run| - 1] == second[|second| - 1];
  }

  lemma OneToWake(urls: seq<string>, i: nat, j: nat, paths: CasPaths)
    requires i < |urls| && j < |urls| && i != j
    ensures Wake(Pair(urls, i, j, Done(paths), Parked(0)), 0) == Pair(urls, i, j, Done(paths), Woken(0))
  {
  }

  /** The other task begins to wait before the leader publishes. */
  lemma WaitInTime(urls: seq<string>, i: nat, j: nat, paths: CasPaths, s4: State) returns (run: seq<State>)
    requires i < |urls| && j < |urls| && i != j
    requires s4 == State([InProgress], map[urls[i] := 0], Pair(urls, i, j, Leading(0), Registered(0)), [i], {})
    ensures |run| == 4 && run[0] == s4 && forall k | 0 < k < |run| :: Next(urls, run[k - 1], run[k])
    ensures run[1].tasks == Pair(urls, i, j, Leading(0), Parked(0))
    ensures run[3] == State([Available(paths)], map[urls[i] := 0], Pair(urls, i, j, Notifying(0, paths), Parked(0)),
      [i], {(i, paths)})
  {
    hide Pair;
    hide Wake;
    hide Next;
    var s5 := s4.(tasks := Pair(urls, i, j, Leading(0), Parked(0)));
    var s6 := s5.(tasks := Pair(urls, i, j, Loaded(0, paths), Parked(0)), produced := {(i, paths)});
    var s7 := s6.(tasks := Pair(urls, i, j, Notifying(0, paths), Parked(0)), cells := [Available(paths)]);
    PairMoved(urls, i, j, Leading(0), Registered(0), Parked(0));
    PairMoved(urls, i, j, Leading(0), Parked(0), Loaded(0, paths));
    PairMoved(urls, i, j, Loaded(0, paths), Parked(0), Notifying(0, paths));
    assert [InProgress][0 := Available(paths)] == [Available(paths)];
    NextStep(urls, s4, s5, j);
    NextStep(urls, s5, s6, i);
    NextStep(urls, s6, s7, i);
    run := [s4, s5, s6, s7];
  }

  /** The leader notifies, and the waiter takes the map. */
  lemma WakeAndServe(urls: seq<string>, i: nat, j: nat, paths: CasPaths, s7: State) returns (run: seq<State>)
    requires i < |urls| && j < |urls| && i != j
    requires s7 == State([Available(paths)], map[urls[i] := 0], Pair(urls, i, j, Notifying(0, paths), Parked(0)), [i],
                         {(i, paths)})
    ensures |run| == 3 && run[0] == s7 && Next(urls, run[0], run[1]) && Next(urls, run[1], run[2])
    ensures run[2] == s7.(tasks := Pair(urls, i, j, Done(paths), Done(paths)))
  {
    hide Pair;
    hide Wake;
    hide Next;
    var s8 := s7.(tasks := Pair(urls, i, j, Done(paths), Woken(0)));
    var s9 := s7.(tasks := Pair(urls, i, j, Done(paths), Done(paths)));
    PairMoved(urls, i, j, Notifying(0, paths), Parked(0), Done(paths));
    PairMoved(urls, i, j, Done(paths), Woken(0), Done(paths));
    OneToWake(urls, i, j, paths);
    NextStep(urls, s7, s8, i);
    NextStep(urls, s8, s9, j);
    run := [s7, s8, s9];
  }

  /** A task that waits in time is woken: there is a run in which it does, and both end with the leader's map. */
  lemma WaiterCanBeServed(urls: seq<string>, i: nat, j: nat, paths: CasPaths) returns (run: seq<State>, k: nat)
    requires i < |urls| && j < |urls| && i != j && urls[i] == urls[j]
    ensures IsRun(urls, run) && k < |run| && |run[k].tasks| == |urls| && |run[|run| - 1].tasks| == |urls|
    ensures run[k].tasks[i].Leading? && run[k].tasks[j].Parked?
    ensures run[|run| - 1].tasks[i] == Done(paths) && run[|run| - 1].tasks[j] == Done(paths)
  {
    hide Next;
    var first := FirstHalf(urls, i, j);
    var second := WaitInTime(urls, i, j, paths, first[|first| - 1]);
    var third := WakeAndServe(urls, i, j, paths, second[3]);
    run := first + second[1..] + third[1..];
    k := |first|;
    assert run[k] == second[1] && run[|run| - 1] == third[2];
    hide Pair;
    PairAt(urls, i, j, Leading(0), Parked(0));
    PairAt(urls, i, j, Done(paths), Done(paths));
  }

  lemma NobodyIsParked(urls: seq<string>, i: nat, j: nat, paths: CasPaths)
    requires i < |urls| && j < |urls| && i != j
    ensures Wake(Pair(urls, i, j, Done(paths), Start), 0) == Pair(urls, i, j, Done(paths), Start)
  {
  }

  /** A task that comes once the leader has published takes the map without waiting. */
  lemma LateTaskIsServed(urls: seq<string>, i: nat, j: nat, paths: CasPaths, s2: State) returns (run: seq<State>)
    requires i < |urls| && j < |urls| && i != j && urls[i] == urls[j]
    requires s2 == State([Available(paths)], map[urls[i] := 0], Pair(urls, i, j, Notifying(0, paths), Start), [i],
                         {(i, paths)})
    ensures |run| == 4 && run[0] == s2 && forall k | 0 < k < |run| :: Next(urls, run[k - 1], run[k])
    ensures run[1].tasks == Pair(urls, i, j, Done(paths), Start)
    ensures run[3].tasks == Pair(urls, i, j, Done(paths), Done(paths))
  {
    hide Pair;
    hide Wake;
    hide Next;
    var s3 := s2.(tasks := Pair(urls, i, j, Done(paths), Start));
    var s4 := s2.(tasks := Pair(urls, i, j, Done(paths), Found(0)));
    var s5 := s2.(tasks := Pair(urls, i, j, Done(paths), Done(paths)));
    PairMoved(urls, i, j, Notifying(0, paths), Start, Done(paths));
    PairMoved(urls, i, j, Done(paths), Start, Found(0));
    PairMoved(urls, i, j, Done(paths), Found(0), Done(paths));
    NobodyIsParked(urls, i, j, paths);
    NextStep(urls, s2, s3, i);
    NextStep(urls, s3, s4, j);
    NextStep(urls, s4, s5, j);
    run := [s2, s3, s4, s5];
  }

  /** A leader alone gets as far as publishing. */
  lemma LeadAlone(urls: seq<string>, i: nat, j: nat, paths: CasPaths) returns (run: seq<State>)
    requires i < |urls| && j < |urls| && i != j
    ensures IsRun(urls, run) && run[|run| - 1] ==
      State([Available(paths)], map[urls[i] := 0], Pair(urls, i, j, Notifying(0, paths), Start), [i], {(i, paths)})
  {
    hide Pair;
    hide IsRun;
    hide Next;
    hide Begin;
    var s0 := State([], map[], Pair(urls, i, j, Start, Start), [], {});
    StartOfPair(urls, i, j);
    var s1 := s0.(tasks := Pair(urls, i, j, Missing, Start));
    var s2 := State([InProgress], map[urls[i] := 0], Pair(urls, i, j, Leading(0), Start), [i], {});
    var s3 := s2.(tasks := Pair(urls, i, j, Loaded(0, paths), Start), produced := {(i, paths)});
    var s4 := s3.(tasks := Pair(urls, i, j, Notifying(0, paths), Start), cells := [Available(paths)]);
    PairMoved(urls, i, j, Start, Start, Missing);
    PairMoved(urls, i, j, Missing, Start, Leading(0));
    PairMoved(urls, i, j, Leading(0), Start, Loaded(0, paths));
    PairMoved(urls, i, j, Loaded(0, paths), Start, Notifying(0, paths));
    assert [InProgress][0 := Available(paths)] == [Available(paths)];
    NextStep(urls, s0, s1, i);
    NextStep(urls, s1, s2, i);
    NextStep(urls, s2, s3, i);
    NextStep(urls, s3, s4, i);
    run := [s0, s1, s2, s3, s4];
    RunOfFive(urls, run);
  }

  /** And there is a run in which the second task begins after the first has returned, and ends with its map. */
  lemma LateTaskCanBeServed(urls: seq<string>, i: nat, j: nat, paths: CasPaths) returns (run: seq<State>, k: nat)
    requires i < |urls| && j < |urls| && i != j && urls[i] == urls[j]
    ensures IsRun(urls, run) && k < |run| && |run[k].tasks| == |urls| && |run[|run| - 1].tasks| == |urls|
    ensures run[k].tasks[i] == Done(paths) && run[k].tasks[j] == Start
    ensures run[|run| - 1].tasks[j] == Done(paths) && |run| == k + 3
  {
    hide Next;
    var first := LeadAlone(urls, i, j, paths);
    var second := LateTaskIsServed(urls, i, j, paths, first[|first| - 1]);
    run := first + second[1..];
    k := |first|;
    assert run[k] == second[1] && run[|run| - 1] == second[3];
    hide Pair;
    PairAt(urls, i, j, Done(paths), Start);
    PairAt(urls, i, j, Done(paths), Done(paths));
  }

  /** A task that waits for a leader that has failed. */
  predicate IsOrphaned(s: State, j: nat) {
    && j < |s.tasks| && s.tasks[j].Parked?
    && s.tasks[j].cell < |s.leaders| && s.leaders[s.tasks[j].cell] < |s.tasks|
    && s.tasks[s.leaders[s.tasks[j].cell]] == Failed
  }

  lemma OrphanStays(urls: seq<string>, s: State, t: State, i: nat, j: nat)
    requires Invariant(urls, s) && Step(urls, s, t, i) && IsOrphaned(s, j)
    ensures IsOrphaned(t, j) && t.tasks[j] == s.tasks[j]
  {
    assert TaskIsSound(urls, s, i);
    assert s.tasks[i].Notifying? ==> s.tasks[i].cell != s.tasks[j].cell;
  }

  /** A leader that fails leaves its cell in progress and its waiters parked. */
  lemma WaiterCanBeOrphaned(urls: seq<string>, i: nat, j: nat) returns (run: seq<State>)
    requires i < |urls| && j < |urls| && i != j && urls[i] == urls[j]
    ensures IsRun(urls, run) && IsOrphaned(run[|run| - 1], j) && run[|run| - 1].cells == [InProgress]
  {
    var first := FirstHalf(urls, i, j);
    var s4 := first[|first| - 1];
    hide Next;
    var s5 := s4.(tasks := Pair(urls, i, j, Leading(0), Parked(0)));
    var s6 := s4.(tasks := Pair(urls, i, j, Failed, Parked(0)));
    PairMoved(urls, i, j, Leading(0), Registered(0), Parked(0));
    PairMoved(urls, i, j, Leading(0), Parked(0), Failed);
    hide Pair;
    PairAt(urls, i, j, Failed, Parked(0));
    NextStep(urls, s4, s5, j);
    NextStep(urls, s5, s6, i);
    run := first + [s5, s6];
  }

  lemma OrphanNext(urls: seq<string>, run: seq<State>, m: nat, j: nat)
    requires IsRun(urls, run) && 0 < m < |run| && IsOrphaned(run[m - 1], j)
    ensures IsOrphaned(run[m], j)
  {
    hide IsOrphaned;
    hide Step;
    hide Invariant;
    hide Begin;
    RunsAreSound(urls, run);
    assert Next(urls, run[m - 1], run[m]);
    var i: nat :| Step(urls, run[m - 1], run[m], i);
    OrphanStays(urls, run[m - 1], run[m], i, j);
  }

  /** Whatever happens next, such a task waits for good. */
  lemma {:induction false} OrphanedForGood(urls: seq<string>, run: seq<State>, k: nat, m: nat, j: nat)
    requires IsRun(urls, run) && k <= m < |run| && IsOrphaned(run[k], j)
    ensures IsOrphaned(run[m], j)
    decreases m
  {
    hide *;
    if k < m {
      OrphanedForGood(urls, run, k, m - 1, j);
      OrphanNext(urls, run, m, j);
    }
  }

  predicate IsWaiter(pc: Pc) {
    pc.Found? || pc.Registered? || pc.Parked? || pc.Woken?
  }

  /** Nobody waits, and whoever made a cell has left the start behind. */
  predicate HasNoWaiter(s: State) {
    && (forall i | 0 <= i < |s.tasks| :: !IsWaiter(s.tasks[i]))
    && (forall c | 0 <= c < |s.leaders| ::
          s.leaders[c] < |s.tasks| && !s.tasks[s.leaders[c]].Start? && !s.tasks[s.leaders[c]].Missing?)
  }

  lemma StepHasNoWaiter(urls: seq<string>, s: State, t: State, i: nat)
    requires !HasRepeatedUrl(urls) && Invariant(urls, s) && HasNoWaiter(s) && Step(urls, s, t, i)
    ensures HasNoWaiter(t)
  {
    assert TaskIsSound(urls, s, i);
    if s.tasks[i].Start? && urls[i] in s.cache {
      assert IsCellOf(urls, s, s.cache[urls[i]], urls[i]);
    }
  }

  /** When no URL is wanted twice, no task ever waits for another. */
  lemma {:induction false} NobodyWaits(urls: seq<string>, run: seq<State>)
    requires IsRun(urls, run) && !HasRepeatedUrl(urls)
    ensures HasNoWaiter(run[|run| - 1])
  {
    hide Invariant;
    hide Step;
    if |run| > 1 {
      var before := run[..|run| - 1];
      NobodyWaits(urls, before);
      RunsAreSound(urls, before);
      var s, t := run[|run| - 2], run[|run| - 1];
      assert s == before[|before| - 1];
      var i: nat :| Step(urls, s, t, i);
      hide HasNoWaiter;
      StepHasNoWaiter(urls, s, t, i);
    }
  }

  /** A run that ends with a task stranded. */
  ghost predicate Strands(urls: seq<string>, run: seq<State>, j: nat) {
    IsRun(urls, run) && IsStranded(run[|run| - 1], j)
  }

  /** A run that ends with a task parked on an available cell. */
  ghost predicate ParksOnAvailable(urls: seq<string>, run: seq<State>, j: nat) {
    IsRun(urls, run) && IsParkedOnAvailable(run[|run| - 1], j)
  }

  /** A wake-up can be lost, and a task left waiting for good, exactly when some URL is wanted twice. */
  lemma StrandsExactlyOnRepeat(urls: seq<string>)
    ensures (exists run: seq<State>, j: nat :: Strands(urls, run, j)) <==> HasRepeatedUrl(urls)
    ensures (exists run: seq<State>, j: nat :: ParksOnAvailable(urls, run, j)) <==> HasRepeatedUrl(urls)
  {
    if i: nat, j: nat :| i < |urls| && j < |urls| && i != j && urls[i] == urls[j] {
      hide IsRun;
      var run := WakeUpCanBeLost(urls, i, j, map[]);
      assert Strands(urls, run, j) && ParksOnAvailable(urls, run, j);
    } else {
      forall run: seq<State>, j: nat
        ensures !ParksOnAvailable(urls, run, j) && !Strands(urls, run, j)
      {
        if IsRun(urls, run) {
          NobodyWaits(urls, run);
        }
      }
    }
  }

  /** A run that ends with a task waiting for a leader that has failed. */
  ghost predicate Orphans(urls: seq<string>, run: seq<State>, j: nat) {
    IsRun(urls, run) && IsOrphaned(run[|run| - 1], j)
  }

  /** A failing leader can leave a task waiting for good exactly when some URL is wanted twice. */
  lemma OrphansExactlyOnRepeat(urls: seq<string>)
    ensures (exists run: seq<State>, j: nat :: Orphans(urls, run, j)) <==> HasRepeatedUrl(urls)
  {
    if i: nat, j: nat :| i < |urls| && j < |urls| && i != j && urls[i] == urls[j] {
      hide IsRun;
      var run := WaiterCanBeOrphaned(urls, i, j);
      assert Orphans(urls, run, j);
    } else {
      forall run: seq<State>, j: nat
        ensures !Orphans(urls, run, j)
      {
        if IsRun(urls, run) {
          NobodyWaits(urls, run);
        }
      }
    }
  }

  lemma StrandedNext(urls: seq<string>, run: seq<State>, m: nat, j: nat)
    requires IsRun(urls, run) && 0 < m < |run| && IsStranded(run[m - 1], j)
    ensures IsStranded(run[m], j)
  {
    hide IsStranded;
    hide Step;
    hide Invariant;
    hide Begin;
    RunsAreSound(urls, run);
    assert Next(urls, run[m - 1], run[m]);
    var i: nat :| Step(urls, run[m - 1], run[m], i);
    StrandedStays(urls, run[m - 1], run[m], i, j);
  }

  /** From a state of a run in which a task is stranded, every continuation leaves it so. */
  lemma {:induction false} StrandedForGood(urls: seq<string>, run: seq<State>, k: nat, m: nat, j: nat)
    requires IsRun(urls, run) && k <= m < |run| && IsStranded(run[k], j)
    ensures IsStranded(run[m], j)
    decreases m
  {
    hide *;
    if k < m {
      StrandedForGood(urls, run, k, m - 1, j);
      StrandedNext(urls, run, m, j);
    }
  }
}
