/** Many downloads at once into one store, each of which may stop at any point, and prunes between them. */
module StoreRuns {
  import opened Wrappers
  import opened StoreLayout
  import opened StoreContents
  import opened StoreByPath
  import opened StoreDirs
  import opened ArchiveNames
  import opened Tarballs

  type Task = nat

  /** A package being unpacked, `done` entries of which are written. */
  datatype Download = Download(hex: string, entries: seq<Entry>, done: nat)

  datatype State = State(disk: Disk, active: map<Task, Download>)

  ghost predicate Begin(s: State, t: Task, d: Download, s': State) {
    t !in s.active && IsHex(d.hex) && d.done == 0 && s' == s.(active := s.active[t := d])
  }

  ghost predicate UnpackEntry(codec: Codec, s: State, t: Task, s': State)
    requires codec.IsSound()
  {
    && t in s.active
    && var d := s.active[t];
    && d.done < |d.entries|
    && s' == State(EntryWritten(codec, s.disk, d.entries[d.done]), s.active[t := d.(done := d.done + 1)])
  }

  ghost predicate Finish(codec: Codec, s: State, t: Task, s': State) {
    && t in s.active
    && var d := s.active[t];
    && IsHex(d.hex) && d.done == |d.entries|
    && s' == State(IndexWritten(codec, s.disk, d.hex, d.entries), s.active - {t})
  }

  /** A download fails, or the process is killed. */
  ghost predicate Stop(s: State, t: Task, s': State) {
    t in s.active && s' == s.(active := s.active - {t})
  }

  ghost predicate Prune(codec: Codec, s: State, s': State)
    requires codec.IsSound()
  {
    && s.active == map[]
    && s' == s.(disk := if AllParse(codec, s.disk) then Pruned(codec, s.disk) else s.disk)
  }

  ghost predicate Next(codec: Codec, s: State, s': State)
    requires codec.IsSound()
  {
    || (exists t, d :: Begin(s, t, d, s'))
    || (exists t :: UnpackEntry(codec, s, t, s'))
    || (exists t :: Finish(codec, s, t, s'))
    || (exists t :: Stop(s, t, s'))
    || Prune(codec, s, s')
  }

  ghost predicate Reaches(codec: Codec, s: State, s': State, steps: nat)
    requires codec.IsSound()
    decreases steps
  {
    if steps == 0 then s == s'
    else exists mid :: Reaches(codec, s, mid, steps - 1) && Next(codec, mid, s')
  }

  /** Every file that may be listed is kept under its own hash. */
  ghost predicate IsAddressedByContents(codec: Codec, disk: Disk) {
    forall p | p in disk && IsCasFile(p) :: IsAddressOf(p, codec.digest(disk[p]))
  }

  ghost predicate IsSoundStore(codec: Codec, disk: Disk)
    requires codec.IsSound()
  {
    StatusHolds(codec, disk) && IsAddressedByContents(codec, disk)
  }

  predicate IsProper(d: Download) {
    IsHex(d.hex) && d.done <= |d.entries|
  }

  /** An entry with this contents and mode is still to come. */
  predicate IsWrittenLater(codec: Codec, d: Download, p: Path)
    requires codec.IsSound()
  {
    exists k | d.done <= k < |d.entries| :: CasPathOf(codec, d.entries[k]) == p
  }

  /** The package has its index, or whatever its index will list is there or still to be written. */
  predicate CanFinish(codec: Codec, disk: Disk, d: Download)
    requires codec.IsSound() && IsProper(d)
  {
    || IndexFilePath(d.hex) in disk
    || forall n: nat | n < d.done && IsLast(d.entries, n) ::
         CasPathOf(codec, d.entries[n]) in disk || IsWrittenLater(codec, d, CasPathOf(codec, d.entries[n]))
  }

  ghost predicate Inv(codec: Codec, s: State)
    requires codec.IsSound()
  {
    && IsSoundStore(codec, s.disk)
    && forall t | t in s.active :: IsProper(s.active[t]) && CanFinish(codec, s.disk, s.active[t])
  }

  lemma EmptyStoreIsSound(codec: Codec)
    requires codec.IsSound()
    ensures IsSoundStore(codec, map[])
  {
  }

  lemma EntryKeepsStatus(codec: Codec, disk: Disk, e: Entry)
    requires codec.IsSound() && StatusHolds(codec, disk)
    ensures StatusHolds(codec, EntryWritten(codec, disk, e))
  {
    HexIsLong(codec);
    CasPathIsCasFile(codec, e);
    hide CasPathOf;
    hide CasFilePath;
    var after := EntryWritten(codec, disk, e);
    assert IndexFiles(after) == IndexFiles(disk);
    assert forall p :: p in IndexFiles(disk) ==> after[p] == disk[p];
    forall p | p in IndexFiles(after)
      ensures ParsesAt(codec, after, p)
    {
      assert ParsesAt(codec, disk, p);
    }
    forall p, name, info | Mentions(codec, after, p, name, info)
      ensures IsVerified(codec, after, info)
    {
      assert Mentions(codec, disk, p, name, info);
      assert IsVerified(codec, disk, info);
    }
  }

  lemma EntryKeepsSound(codec: Codec, disk: Disk, e: Entry)
    requires codec.IsSound() && IsSoundStore(codec, disk)
    ensures IsSoundStore(codec, EntryWritten(codec, disk, e))
  {
    EntryKeepsStatus(codec, disk, e);
    CasPathIsCasFile(codec, e);
    hide StatusHolds;
    hide CasPathOf;
    hide IsAddressOf;
  }

  /** What a finished package's index lists was written before the index. */
  lemma ListedWasWritten(codec: Codec, disk: Disk, entries: seq<Entry>, name: string)
    requires codec.IsSound() && IsAddressedByContents(codec, disk)
    requires forall n: nat | n < |entries| && IsLast(entries, n) :: CasPathOf(codec, entries[n]) in disk
    requires name in IndexOf(codec, entries)
    ensures codec.hexOf(IndexOf(codec, entries)[name].integrity).Some?
    ensures |codec.hexOf(IndexOf(codec, entries)[name].integrity).value| >= 2
    ensures IsVerified(codec, disk, IndexOf(codec, entries)[name])
  {
    hide CasPathOf;
    hide CasFilePath;
    LastEntryCounts(codec, entries, name);
    var i: nat :| IsLastOfName(entries, i, name);
    assert IsLast(entries, i);
    InfoLeadsBack(codec, entries[i]);
    CasPathIsCasFile(codec, entries[i]);
    VerifiedByAddress(codec, disk, InfoOf(codec, entries[i]));
  }

  lemma IndexKeepsSound(codec: Codec, disk: Disk, hex: string, entries: seq<Entry>)
    requires codec.IsSound() && IsHex(hex) && IsSoundStore(codec, disk)
    requires IndexFilePath(hex) in disk ||
      forall n: nat | n < |entries| && IsLast(entries, n) :: CasPathOf(codec, entries[n]) in disk
    ensures IsSoundStore(codec, IndexWritten(codec, disk, hex, entries))
  {
    HexIsLong(codec);
    var at := IndexFilePath(hex);
    AddressKind(hex, "-index.json");
    hide IndexFilePath;
    hide CasPathOf;
    hide CasFilePath;
    hide IsAddressOf;
    var after := IndexWritten(codec, disk, hex, entries);
    if at !in disk {
      var index := IndexOf(codec, entries);
      forall name | name in index
        ensures codec.hexOf(index[name].integrity).Some? && IsVerified(codec, disk, index[name])
      {
        ListedWasWritten(codec, disk, entries, name);
      }
      forall p | p in IndexFiles(after)
        ensures ParsesAt(codec, after, p)
      {
        assert p == at || ParsesAt(codec, disk, p);
      }
      forall p, name, info | Mentions(codec, after, p, name, info)
        ensures IsVerified(codec, after, info)
      {
        assert p == at || Mentions(codec, disk, p, name, info);
        assert IsVerified(codec, disk, info);
      }
    }
  }

  lemma PruneKeepsSound(codec: Codec, disk: Disk)
    requires codec.IsSound() && IsSoundStore(codec, disk)
    ensures IsSoundStore(codec, Pruned(codec, disk))
  {
    PruneKeepsStatus(codec, disk);
    hide IsKept;
    hide StatusHolds;
    hide IsAddressOf;
  }

  lemma MoreCanFinish(codec: Codec, disk: Disk, more: Disk, d: Download)
    requires codec.IsSound() && IsProper(d) && CanFinish(codec, disk, d) && disk.Keys <= more.Keys
    ensures CanFinish(codec, more, d)
  {
    hide IsWrittenLater;
    hide CasPathOf;
    hide IsLast;
  }

  /** The entry at hand is written, and stays accounted for. */
  lemma UnpackedCanFinish(codec: Codec, disk: Disk, d: Download)
    requires codec.IsSound() && IsProper(d) && CanFinish(codec, disk, d) && d.done < |d.entries|
    ensures CanFinish(codec, EntryWritten(codec, disk, d.entries[d.done]), d.(done := d.done + 1))
  {
    hide CasPathOf;
    hide IndexFilePath;
    hide IsLast;
    var after, d' := EntryWritten(codec, disk, d.entries[d.done]), d.(done := d.done + 1);
    if IndexFilePath(d.hex) !in disk {
      forall n: nat | n < d'.done && IsLast(d.entries, n)
        ensures CasPathOf(codec, d.entries[n]) in after || IsWrittenLater(codec, d', CasPathOf(codec, d.entries[n]))
      {
      }
    }
  }

  lemma StepKeeps(codec: Codec, s: State, s': State)
    requires codec.IsSound() && Inv(codec, s) && Next(codec, s, s')
    ensures Inv(codec, s')
  {
    hide IsSoundStore;
    hide CasPathOf;
    hide CanFinish;
    if t, d :| Begin(s, t, d, s') {
      NewCanFinish(codec, s.disk, d);
    } else if t :| UnpackEntry(codec, s, t, s') {
      var d := s.active[t];
      EntryKeepsSound(codec, s.disk, d.entries[d.done]);
      UnpackedCanFinish(codec, s.disk, d);
      ActiveCanFinish(codec, s, s'.disk);
    } else if t :| Finish(codec, s, t, s') {
      FinishKeeps(codec, s, t);
      ActiveCanFinish(codec, s, s'.disk);
    } else if t :| Stop(s, t, s') {
    } else {
      PruneKeepsSound(codec, s.disk);
    }
  }

  lemma NewCanFinish(codec: Codec, disk: Disk, d: Download)
    requires codec.IsSound() && IsProper(d) && d.done == 0
    ensures CanFinish(codec, disk, d)
  {
  }

  lemma ActiveCanFinish(codec: Codec, s: State, more: Disk)
    requires codec.IsSound() && Inv(codec, s) && s.disk.Keys <= more.Keys
    ensures forall t | t in s.active :: CanFinish(codec, more, s.active[t])
  {
    hide CanFinish;
    hide IsSoundStore;
    forall t | t in s.active
      ensures CanFinish(codec, more, s.active[t])
    {
      MoreCanFinish(codec, s.disk, more, s.active[t]);
    }
  }

  lemma FinishKeeps(codec: Codec, s: State, t: Task)
    requires codec.IsSound() && Inv(codec, s) && t in s.active && s.active[t].done == |s.active[t].entries|
    ensures IsSoundStore(codec, IndexWritten(codec, s.disk, s.active[t].hex, s.active[t].entries))
  {
    hide IsSoundStore;
    hide CasPathOf;
    hide IsLast;
    hide IndexFilePath;
    var d := s.active[t];
    assert CanFinish(codec, s.disk, d);
    IndexKeepsSound(codec, s.disk, d.hex, d.entries);
  }

  lemma {:induction false} RunKeeps(codec: Codec, s: State, s': State, steps: nat)
    requires codec.IsSound() && Inv(codec, s) && Reaches(codec, s, s', steps)
    ensures Inv(codec, s')
    decreases steps
  {
    if steps > 0 {
      var mid :| Reaches(codec, s, mid, steps - 1) && Next(codec, mid, s');
      RunKeeps(codec, s, mid, steps - 1);
      StepKeeps(codec, mid, s');
    }
  }

  /**
   * Whatever the downloads and prunes, and wherever downloads stop, the store checks out in every state: all that an
   * index lists is there, and every file is kept under the hash of its contents.
   */
  lemma StatusSucceedsThroughout(codec: Codec, s: State, s': State, steps: nat)
    requires codec.IsSound() && IsSoundStore(codec, s.disk) && s.active == map[]
    requires Reaches(codec, s, s', steps)
    ensures StatusHolds(codec, s'.disk)
    ensures IsAddressedByContents(codec, s'.disk)
    ensures forall p, name, info :: Mentions(codec, s'.disk, p, name, info) ==>
      InfoPath(codec, info).Some? && InfoPath(codec, info).value in s'.disk
  {
    HexIsLong(codec);
    RunKeeps(codec, s, s', steps);
  }

  /** In a store that checks out every package with an index can be reloaded, and its files are all there. */
  lemma ReloadFindsFiles(codec: Codec, disk: Disk, hex: string)
    requires codec.IsSound() && IsHex(hex) && StatusHolds(codec, disk)
    ensures LoadFromStore(codec, disk, hex).Ok?
    ensures LoadFromStore(codec, disk, hex).value.Some? <==> IndexFilePath(hex) in disk
    ensures LoadFromStore(codec, disk, hex).value.Some? ==>
      forall name | name in LoadFromStore(codec, disk, hex).value.value ::
        && LoadFromStore(codec, disk, hex).value.value[name] in disk
        && IsAddressOf(LoadFromStore(codec, disk, hex).value.value[name],
            codec.digest(disk[LoadFromStore(codec, disk, hex).value.value[name]]))
  {
    HexIsLong(codec);
    var p := IndexFilePath(hex);
    AddressKind(hex, "-index.json");
    if p in disk {
      assert ParsesAt(codec, disk, p);
      var index := codec.decode(disk[p]).value;
      forall name | name in index
        ensures IsVerified(codec, disk, index[name])
      {
        assert Mentions(codec, disk, p, name, index[name]);
      }
    }
  }

  lemma OneMoreStep(codec: Codec, s: State, mid: State, s': State, steps: nat)
    requires codec.IsSound() && Reaches(codec, s, mid, steps) && Next(codec, mid, s')
    ensures Reaches(codec, s, s', steps + 1)
  {
  }

  /** The state in which download `t` has written its entries up to the `n`th, and nothing else has happened. */
  function Unpacked(codec: Codec, s: State, t: Task, n: nat): State
    requires codec.IsSound() && t in s.active && s.active[t].done <= n <= |s.active[t].entries|
  {
    var d := s.active[t];
    State(EntriesWritten(codec, s.disk, d.entries[d.done..n]), s.active[t := d.(done := n)])
  }

  lemma UnpackingStarts(codec: Codec, s: State, t: Task)
    requires codec.IsSound() && t in s.active && IsProper(s.active[t])
    ensures Unpacked(codec, s, t, s.active[t].done) == s && Reaches(codec, s, s, 0)
  {
    var d := s.active[t];
    assert d.entries[d.done..d.done] == [];
    assert s.active[t := d] == s.active;
  }

  lemma UnpackingContinues(codec: Codec, s: State, t: Task, n: nat)
    requires codec.IsSound() && t in s.active && s.active[t].done <= n < |s.active[t].entries|
    ensures Next(codec, Unpacked(codec, s, t, n), Unpacked(codec, s, t, n + 1))
  {
    hide EntryWritten;
    var d := s.active[t];
    var written := d.entries[d.done..n + 1];
    assert written[..|written| - 1] == d.entries[d.done..n];
    assert written[|written| - 1] == d.entries[n];
    UnpackedEntry(codec, s, t, n);
  }

  lemma UnpackedEntry(codec: Codec, s: State, t: Task, n: nat)
    requires codec.IsSound() && t in s.active && s.active[t].done <= n < |s.active[t].entries|
    requires var d := s.active[t];
      EntriesWritten(codec, s.disk, d.entries[d.done..n + 1])
        == EntryWritten(codec, EntriesWritten(codec, s.disk, d.entries[d.done..n]), d.entries[n])
    ensures UnpackEntry(codec, Unpacked(codec, s, t, n), t, Unpacked(codec, s, t, n + 1))
  {
    hide EntryWritten;
    hide EntriesWritten;
  }

  lemma {:induction false} UnpackingIsRun(codec: Codec, s: State, t: Task, n: nat)
    requires codec.IsSound() && t in s.active && s.active[t].done <= n <= |s.active[t].entries|
    requires IsHex(s.active[t].hex)
    ensures Reaches(codec, s, Unpacked(codec, s, t, n), n - s.active[t].done)
    decreases n
  {
    hide *;
    if n == s.active[t].done {
      IsProperDownload(s.active[t]);
      UnpackingStarts(codec, s, t);
    } else {
      UnpackingIsRun(codec, s, t, n - 1);
      UnpackingContinues(codec, s, t, n - 1);
      OneMoreStep(codec, s, Unpacked(codec, s, t, n - 1), Unpacked(codec, s, t, n), n - 1 - s.active[t].done);
    }
  }

  lemma IsProperDownload(d: Download)
    requires IsHex(d.hex) && d.done <= |d.entries|
    ensures IsProper(d)
  {
  }

  /** The state in which download `t` has gone on to its end on its own. */
  function Finished(codec: Codec, s: State, t: Task): State
    requires codec.IsSound() && t in s.active && IsProper(s.active[t])
  {
    var d := s.active[t];
    State(IndexWritten(codec, EntriesWritten(codec, s.disk, d.entries[d.done..]), d.hex, d.entries), s.active - {t})
  }

  lemma UnpackingEnds(codec: Codec, s: State, t: Task)
    requires codec.IsSound() && t in s.active && IsProper(s.active[t])
    ensures Next(codec, Unpacked(codec, s, t, |s.active[t].entries|), Finished(codec, s, t))
  {
    hide EntriesWritten;
    hide IndexWritten;
    hide IsHex;
    var d := s.active[t];
    var mid := Unpacked(codec, s, t, |d.entries|);
    assert d.entries[d.done..|d.entries|] == d.entries[d.done..];
    assert mid.active - {t} == s.active - {t};
    assert Finish(codec, mid, t, Finished(codec, s, t));
  }

  /** Any download under way can go on to its end while nothing else happens. */
  lemma FinishingIsRun(codec: Codec, s: State, t: Task)
    requires codec.IsSound() && t in s.active && IsProper(s.active[t])
    ensures Reaches(codec, s, Finished(codec, s, t), |s.active[t].entries| - s.active[t].done + 1)
  {
    hide EntriesWritten;
    hide Reaches;
    hide Next;
    hide Unpacked;
    hide Finished;
    var n := |s.active[t].entries|;
    UnpackingIsRun(codec, s, t, n);
    UnpackingEnds(codec, s, t);
    OneMoreStep(codec, s, Unpacked(codec, s, t, n), Finished(codec, s, t), n - s.active[t].done);
  }

  lemma {:induction false} RunsJoin(codec: Codec, s: State, mid: State, s': State, a: nat, b: nat)
    requires codec.IsSound() && Reaches(codec, s, mid, a) && Reaches(codec, mid, s', b)
    ensures Reaches(codec, s, s', a + b)
    decreases b
  {
    hide Next;
    if b > 0 {
      var last :| Reaches(codec, mid, last, b - 1) && Next(codec, last, s');
      RunsJoin(codec, s, mid, last, a, b - 1);
    }
  }

  function Begun(s: State, t: Task, hex: string, entries: seq<Entry>): State {
    s.(active := s.active[t := Download(hex, entries, 0)])
  }

  lemma DownloadBegins(codec: Codec, s: State, t: Task, hex: string, entries: seq<Entry>)
    requires codec.IsSound() && IsHex(hex) && t !in s.active
    ensures Reaches(codec, s, s, 0) && Next(codec, s, Begun(s, t, hex, entries))
  {
    assert Begin(s, t, Download(hex, entries, 0), Begun(s, t, hex, entries));
  }

  lemma DownloadEnds(codec: Codec, s: State, t: Task, hex: string, entries: seq<Entry>)
    requires codec.IsSound() && IsHex(hex) && t !in s.active
    ensures t in Begun(s, t, hex, entries).active && IsProper(Begun(s, t, hex, entries).active[t])
    ensures Begun(s, t, hex, entries).active[t] == Download(hex, entries, 0)
    ensures Finished(codec, Begun(s, t, hex, entries), t) == s.(disk := Downloaded(codec, s.disk, hex, entries))
  {
    hide EntriesWritten;
    hide IndexWritten;
    assert entries[0..] == entries;
    assert Begun(s, t, hex, entries).active - {t} == s.active;
  }

  /** The download the code performs is one run of these steps. */
  lemma DownloadIsRun(codec: Codec, s: State, t: Task, hex: string, entries: seq<Entry>)
    requires codec.IsSound() && IsHex(hex) && t !in s.active
    ensures Reaches(codec, s, s.(disk := Downloaded(codec, s.disk, hex, entries)), |entries| + 2)
  {
    hide *;
    var begun := Begun(s, t, hex, entries);
    DownloadBegins(codec, s, t, hex, entries);
    OneMoreStep(codec, s, s, begun, 0);
    DownloadEnds(codec, s, t, hex, entries);
    FinishingIsRun(codec, begun, t);
    RunsJoin(codec, s, begun, Finished(codec, begun, t), 1, |entries| + 1);
  }

  /**
   * A download that cannot finish properly can finish all the same, and then its index lists a file that is missing.
   */
  lemma FinishedIsBroken(codec: Codec, s: State, t: Task)
    requires codec.IsSound() && t in s.active && IsProper(s.active[t]) && !CanFinish(codec, s.disk, s.active[t])
    ensures !StatusHolds(codec, Finished(codec, s, t).disk)
  {
    var d := s.active[t];
    var n: nat :| n < d.done && IsLast(d.entries, n) && CasPathOf(codec, d.entries[n]) !in s.disk
      && !IsWrittenLater(codec, d, CasPathOf(codec, d.entries[n]));
    var name := CleanedPath(d.entries[n]);
    HexIsLong(codec);
    AddressKind(d.hex, "-index.json");
    CasPathIsCasFile(codec, d.entries[n]);
    LastEntryCounts(codec, d.entries, name);
    InfoLeadsBack(codec, d.entries[n]);
    EntriesKeepIndexes(codec, s.disk, d.entries[d.done..]);
    var p := CasPathOf(codec, d.entries[n]);
    OnlyLaterWritten(codec, s.disk, d, p);
    var after := Finished(codec, s, t).disk;
    hide CasPathOf;
    hide EntriesWritten;
    hide IndexFilePath;
    hide InfoOf;
    assert p !in after;
    assert Mentions(codec, after, IndexFilePath(d.hex), name, InfoOf(codec, d.entries[n]));
  }

  lemma OnlyLaterWritten(codec: Codec, disk: Disk, d: Download, p: Path)
    requires codec.IsSound() && IsProper(d) && p !in disk && !IsWrittenLater(codec, d, p)
    ensures p !in EntriesWritten(codec, disk, d.entries[d.done..])
  {
    hide CasPathOf;
    OnlyEntriesWritten(codec, disk, d.entries[d.done..], p);
    hide EntriesWritten;
    var rest := d.entries[d.done..];
    forall i | 0 <= i < |rest|
      ensures CasPathOf(codec, rest[i]) != p
    {
      assert rest[i] == d.entries[d.done + i];
    }
  }

  /** Status succeeds in whatever may follow. */
  ghost predicate IsSafe(codec: Codec, s: State)
    requires codec.IsSound()
  {
    forall s', steps: nat :: Reaches(codec, s, s', steps) ==> StatusHolds(codec, s'.disk)
  }

  /** From a sound store, status succeeds in whatever may follow exactly when every download under way can finish. */
  lemma SafeExactly(codec: Codec, s: State)
    requires codec.IsSound() && IsSoundStore(codec, s.disk) && forall t | t in s.active :: IsProper(s.active[t])
    ensures IsSafe(codec, s) <==> forall t | t in s.active :: CanFinish(codec, s.disk, s.active[t])
  {
    hide Reaches;
    hide CanFinish;
    hide StatusHolds;
    if forall t | t in s.active :: CanFinish(codec, s.disk, s.active[t]) {
      forall s', steps: nat | Reaches(codec, s, s', steps)
        ensures StatusHolds(codec, s'.disk)
      {
        RunKeeps(codec, s, s', steps);
      }
    }
    forall t | t in s.active && !CanFinish(codec, s.disk, s.active[t])
      ensures !IsSafe(codec, s)
    {
      FinishingIsRun(codec, s, t);
      FinishedIsBroken(codec, s, t);
    }
  }

  /** What a prune would leave a download with: its index, or files that some index lists or that are still to come. */
  ghost predicate SurvivesPrune(codec: Codec, disk: Disk, d: Download)
    requires codec.IsSound() && IsProper(d)
  {
    || IndexFilePath(d.hex) in disk
    || forall n: nat | n < d.done && IsLast(d.entries, n) ::
         IsReferenced(codec, disk, CasPathOf(codec, d.entries[n]))
           || IsWrittenLater(codec, d, CasPathOf(codec, d.entries[n]))
  }

  lemma KeptByPrune(codec: Codec, disk: Disk, p: Path)
    requires codec.IsSound() && StatusHolds(codec, disk) && IsCasFile(p)
    ensures p in Pruned(codec, disk) <==> IsReferenced(codec, disk, p)
  {
    HexIsLong(codec);
    KindsAreDisjoint(p);
    if IsReferenced(codec, disk, p) {
      var q, name, info :| Mentions(codec, disk, q, name, info) && InfoPath(codec, info) == Some(p);
      assert IsVerified(codec, disk, info);
    }
  }

  lemma SurvivesExactly(codec: Codec, disk: Disk, d: Download)
    requires codec.IsSound() && IsSoundStore(codec, disk) && IsProper(d)
    ensures CanFinish(codec, Pruned(codec, disk), d) <==> SurvivesPrune(codec, disk, d)
  {
    AddressKind(d.hex, "-index.json");
    KindsAreDisjoint(IndexFilePath(d.hex));
    assert IndexFilePath(d.hex) in Pruned(codec, disk) <==> IndexFilePath(d.hex) in disk;
    hide Pruned;
    hide IndexFilePath;
    forall n: nat | n < d.done
      ensures CasPathOf(codec, d.entries[n]) in Pruned(codec, disk) <==>
        IsReferenced(codec, disk, CasPathOf(codec, d.entries[n]))
    {
      CasPathIsCasFile(codec, d.entries[n]);
      KeptByPrune(codec, disk, CasPathOf(codec, d.entries[n]));
    }
    hide CasPathOf;
    hide IsReferenced;
    hide IsLast;
    hide IsWrittenLater;
    hide IsSoundStore;
  }

  /**
   * A prune among downloads does no harm, then or later, exactly when each download has its index or leaves behind
   * nothing, of what its index will list, that no index lists yet and that it does not write again.
   */
  lemma PruneIsSafeExactly(codec: Codec, s: State)
    requires codec.IsSound() && Inv(codec, s)
    ensures IsSafe(codec, s.(disk := Pruned(codec, s.disk))) <==>
      forall t | t in s.active :: SurvivesPrune(codec, s.disk, s.active[t])
  {
    hide CanFinish;
    hide SurvivesPrune;
    hide IsSafe;
    hide IsSoundStore;
    hide Pruned;
    PruneKeepsSound(codec, s.disk);
    SafeExactly(codec, s.(disk := Pruned(codec, s.disk)));
    forall t | t in s.active
      ensures CanFinish(codec, Pruned(codec, s.disk), s.active[t]) <==> SurvivesPrune(codec, s.disk, s.active[t])
    {
      SurvivesExactly(codec, s.disk, s.active[t]);
    }
  }

  /** Every file that the downloads have written so far is there. */
  predicate HoldsTheWritten(codec: Codec, s: State)
    requires codec.IsSound()
  {
    forall t, i: nat | t in s.active && i < s.active[t].done && i < |s.active[t].entries| ::
      CasPathOf(codec, s.active[t].entries[i]) in s.disk
  }

  /** A prune leaves all written files in place exactly when some index lists each of them. */
  lemma WrittenStayExactly(codec: Codec, s: State)
    requires codec.IsSound() && StatusHolds(codec, s.disk)
    ensures HoldsTheWritten(codec, s.(disk := Pruned(codec, s.disk))) <==>
      forall t, i: nat | t in s.active && i < s.active[t].done && i < |s.active[t].entries| ::
        IsReferenced(codec, s.disk, CasPathOf(codec, s.active[t].entries[i]))
  {
    hide Pruned;
    hide IsReferenced;
    hide StatusHolds;
    forall t, i: nat | t in s.active && i < s.active[t].done && i < |s.active[t].entries|
      ensures CasPathOf(codec, s.active[t].entries[i]) in Pruned(codec, s.disk)
        <==> IsReferenced(codec, s.disk, CasPathOf(codec, s.active[t].entries[i]))
    {
      CasPathIsCasFile(codec, s.active[t].entries[i]);
      KeptByPrune(codec, s.disk, CasPathOf(codec, s.active[t].entries[i]));
    }
  }

  /**
   * In particular a prune has to wait for a download that has no index yet, and whose last entry of some name is
   * done, listed by no index and not written again: going on, that download leaves a store that does not check out.
   */
  lemma PruneHasToWait(codec: Codec, s: State, t: Task, n: nat)
    requires codec.IsSound() && Inv(codec, s) && t in s.active
    requires var d := s.active[t];
      && IndexFilePath(d.hex) !in s.disk
      && n < d.done && IsLast(d.entries, n)
      && !IsReferenced(codec, s.disk, CasPathOf(codec, d.entries[n]))
      && !IsWrittenLater(codec, d, CasPathOf(codec, d.entries[n]))
    ensures
      var pruned := s.(disk := Pruned(codec, s.disk));
      && Reaches(codec, pruned, Finished(codec, pruned, t), |s.active[t].entries| - s.active[t].done + 1)
      && !StatusHolds(codec, Finished(codec, pruned, t).disk)
  {
    hide *;
    var pruned := s.(disk := Pruned(codec, s.disk));
    ActiveIsProper(codec, s, t);
    DoesNotSurvive(codec, s.disk, s.active[t], n);
    SurvivesExactly(codec, s.disk, s.active[t]);
    FinishingIsRun(codec, pruned, t);
    FinishedIsBroken(codec, pruned, t);
  }

  lemma ActiveIsProper(codec: Codec, s: State, t: Task)
    requires codec.IsSound() && Inv(codec, s) && t in s.active
    ensures IsSoundStore(codec, s.disk) && IsProper(s.active[t]) && s.active[t].done <= |s.active[t].entries|
  {
    hide IsSoundStore;
  }

  lemma DoesNotSurvive(codec: Codec, disk: Disk, d: Download, n: nat)
    requires codec.IsSound() && IsProper(d) && IndexFilePath(d.hex) !in disk
    requires n < d.done && IsLast(d.entries, n)
    requires !IsReferenced(codec, disk, CasPathOf(codec, d.entries[n]))
    requires !IsWrittenLater(codec, d, CasPathOf(codec, d.entries[n]))
    ensures !SurvivesPrune(codec, disk, d)
  {
  }

  /** The first entry of a first download into an empty store is such an entry. */
  lemma FirstEntryIsAtRisk(codec: Codec, hex: string, e: Entry)
    requires codec.IsSound() && IsHex(hex)
    ensures var s := State(EntryWritten(codec, map[], e), map[0 := Download(hex, [e], 1)]);
      Inv(codec, s) && !SurvivesPrune(codec, s.disk, s.active[0])
  {
    var s := State(EntryWritten(codec, map[], e), map[0 := Download(hex, [e], 1)]);
    EmptyStoreIsSound(codec);
    EntryKeepsSound(codec, map[], e);
    CasPathIsCasFile(codec, e);
    AddressKind(hex, "-index.json");
    hide CasPathOf;
    hide IndexFilePath;
    assert IsLast([e], 0);
    assert !IsReferenced(codec, s.disk, CasPathOf(codec, e));
    assert !IsWrittenLater(codec, s.active[0], CasPathOf(codec, [e][0]));
  }

  /** A prune waits for downloads; it leaves what is listed, and a store with an index that cannot be read as it is. */
  lemma PruneByPath(codec: Codec, s: State, s': State)
    requires codec.IsSound()
    ensures Prune(codec, s, s') <==>
      && s.active == map[] && s'.active == map[]
      && (AllRead(codec, s.disk) ==> forall p :: p in s'.disk <==> IsLeft(codec, s.disk, p))
      && (AllRead(codec, s.disk) ==> forall p :: p in s'.disk ==> s'.disk[p] == s.disk[p])
      && (!AllRead(codec, s.disk) ==> s'.disk == s.disk)
  {
    ParseByPath(codec, s.disk);
    PrunedByPath(codec, s.disk);
    hide Pruned;
    hide AllParse;
    hide AllRead;
    var pruned := Pruned(codec, s.disk);
    if (forall p :: p in s'.disk <==> IsLeft(codec, s.disk, p))
      && (forall p :: p in s'.disk ==> s'.disk[p] == s.disk[p]) {
      assert s'.disk == pruned by {
        hide IsLeft;
      }
    }
    hide IsLeft;
  }

  /** Any download may stop at any point, and with none under way the store may be pruned. */
  lemma StopsAndPrunesAreSteps(codec: Codec, s: State)
    requires codec.IsSound()
    ensures forall t :: t in s.active ==> Next(codec, s, s.(active := s.active - {t}))
    ensures s.active == map[] ==> exists s' :: Prune(codec, s, s') && Next(codec, s, s')
  {
    forall t | t in s.active
      ensures Next(codec, s, s.(active := s.active - {t}))
    {
      assert Stop(s, t, s.(active := s.active - {t}));
    }
    if s.active == map[] {
      var s' := s.(disk := if AllParse(codec, s.disk) then Pruned(codec, s.disk) else s.disk);
      assert Prune(codec, s, s') && Next(codec, s, s');
    }
  }
}
