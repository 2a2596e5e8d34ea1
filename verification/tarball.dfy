/** Unpacking a package into the store, and finding it there again. */
module Tarballs {
  import opened Wrappers
  import opened StoreLayout
  import opened StoreContents
  import opened StoreByPath
  import opened StoreDirs
  import opened ArchiveNames

  datatype NetworkMode = Online | Offline

  datatype TarballError = LoadFailed(error: LoadError) | OfflineCacheMiss | Checksum

  function CasPathOf(codec: Codec, e: Entry): Path
    requires codec.IsSound()
  {
    HexIsLong(codec);
    CasFilePath(codec.digest(e.contents), IsAllExec(e.mode))
  }

  function InfoOf(codec: Codec, e: Entry): PackageFileInfo {
    PackageFileInfo(e.checkedAt, codec.integrityOf(codec.digest(e.contents)), e.mode, e.size)
  }

  function CasPathsOf(codec: Codec, entries: seq<Entry>): map<string, Path>
    requires codec.IsSound()
  {
    if entries == [] then map[]
    else
      var last := entries[|entries| - 1];
      CasPathsOf(codec, entries[..|entries| - 1])[CleanedPath(last) := CasPathOf(codec, last)]
  }

  function IndexOf(codec: Codec, entries: seq<Entry>): FilesIndex {
    if entries == [] then map[]
    else
      var last := entries[|entries| - 1];
      IndexOf(codec, entries[..|entries| - 1])[CleanedPath(last) := InfoOf(codec, last)]
  }

  function EntryWritten(codec: Codec, disk: Disk, e: Entry): Disk
    requires codec.IsSound()
  {
    Ensured(disk, CasPathOf(codec, e), e.contents)
  }

  function EntriesWritten(codec: Codec, disk: Disk, entries: seq<Entry>): Disk
    requires codec.IsSound()
  {
    if entries == [] then disk
    else EntryWritten(codec, EntriesWritten(codec, disk, entries[..|entries| - 1]), entries[|entries| - 1])
  }

  function IndexWritten(codec: Codec, disk: Disk, hex: string, entries: seq<Entry>): Disk
    requires IsHex(hex)
  {
    Ensured(disk, IndexFilePath(hex), codec.encode(IndexOf(codec, entries)))
  }

  /** The store after a download; the index comes last. */
  function Downloaded(codec: Codec, disk: Disk, hex: string, entries: seq<Entry>): Disk
    requires codec.IsSound() && IsHex(hex)
  {
    IndexWritten(codec, EntriesWritten(codec, disk, entries), hex, entries)
  }

  /** Entry `i` is the last one with its name. */
  predicate IsLastOfName(entries: seq<Entry>, i: nat, name: string) {
    i < |entries| && CleanedPath(entries[i]) == name && forall j | i < j < |entries| :: CleanedPath(entries[j]) != name
  }

  predicate IsLast(entries: seq<Entry>, i: nat)
    requires i < |entries|
  {
    IsLastOfName(entries, i, CleanedPath(entries[i]))
  }

  /** Among entries with one name the last one counts, for the map of places as for the index. */
  lemma {:induction false} LastEntryCounts(codec: Codec, entries: seq<Entry>, name: string)
    requires codec.IsSound()
    ensures name in CasPathsOf(codec, entries) <==> exists i: nat :: IsLastOfName(entries, i, name)
    ensures name in IndexOf(codec, entries) <==> name in CasPathsOf(codec, entries)
    ensures forall i: nat | IsLastOfName(entries, i, name) ::
      && name in CasPathsOf(codec, entries)
      && CasPathsOf(codec, entries)[name] == CasPathOf(codec, entries[i])
      && IndexOf(codec, entries)[name] == InfoOf(codec, entries[i])
  {
    hide CleanedPath;
    hide CasPathOf;
    hide InfoOf;
    if entries != [] {
      var front := entries[..|entries| - 1];
      LastEntryCounts(codec, front, name);
      if CleanedPath(entries[|entries| - 1]) == name {
        assert IsLastOfName(entries, |entries| - 1, name);
        assert forall i: nat | IsLastOfName(entries, i, name) :: i == |entries| - 1;
      } else {
        forall i: nat
          ensures IsLastOfName(entries, i, name) <==> IsLastOfName(front, i, name)
        {
        }
      }
    }
  }

  /** Reading an entry's integrity back leads to the place the entry was written to. */
  lemma InfoLeadsBack(codec: Codec, e: Entry)
    requires codec.IsSound()
    ensures codec.hexOf(InfoOf(codec, e).integrity) == Some(codec.digest(e.contents))
    ensures |codec.digest(e.contents)| >= 2
    ensures InfoPath(codec, InfoOf(codec, e)) == Some(CasPathOf(codec, e))
  {
    HexIsLong(codec);
  }

  lemma {:induction false} EntriesKeepIndexes(codec: Codec, disk: Disk, entries: seq<Entry>)
    requires codec.IsSound()
    ensures forall p :: p in disk ==>
      p in EntriesWritten(codec, disk, entries) && EntriesWritten(codec, disk, entries)[p] == disk[p]
    ensures forall p :: p in EntriesWritten(codec, disk, entries) && p !in disk ==> IsCasFile(p)
    ensures forall i | 0 <= i < |entries| :: CasPathOf(codec, entries[i]) in EntriesWritten(codec, disk, entries)
  {
    hide CasPathOf;
    hide IsCasFile;
    if entries != [] {
      var front, last := entries[..|entries| - 1], entries[|entries| - 1];
      EntriesKeepIndexes(codec, disk, front);
      CasPathIsCasFile(codec, last);
      forall i | 0 <= i < |entries|
        ensures CasPathOf(codec, entries[i]) in EntriesWritten(codec, disk, entries)
      {
        if i < |entries| - 1 {
          assert entries[i] == front[i];
        }
      }
    }
  }

  /** What is there after unpacking was there before or belongs to an entry. */
  lemma {:induction false} OnlyEntriesWritten(codec: Codec, disk: Disk, entries: seq<Entry>, p: Path)
    requires codec.IsSound()
    ensures p in EntriesWritten(codec, disk, entries) ==>
      p in disk || exists i | 0 <= i < |entries| :: CasPathOf(codec, entries[i]) == p
  {
    hide CasPathOf;
    if entries != [] {
      var front := entries[..|entries| - 1];
      OnlyEntriesWritten(codec, disk, front, p);
      if i :| 0 <= i < |front| && CasPathOf(codec, front[i]) == p {
        assert entries[i] == front[i];
      }
    }
  }

  lemma CasPathIsCasFile(codec: Codec, e: Entry)
    requires codec.IsSound()
    ensures IsCasFile(CasPathOf(codec, e))
    ensures IsAddressOf(CasPathOf(codec, e), codec.digest(e.contents))
  {
    HexIsLong(codec);
    AddressKind(codec.digest(e.contents), CasSuffix(IsAllExec(e.mode)));
  }

  /** With no index before, what a download returns is what reloading gives, duplicates and mixed modes included. */
  lemma DownloadThenReload(codec: Codec, disk: Disk, hex: string, entries: seq<Entry>)
    requires codec.IsSound() && IsHex(hex)
    requires IndexFilePath(hex) !in disk
    ensures LoadFromStore(codec, Downloaded(codec, disk, hex, entries), hex) == Ok(Some(CasPathsOf(codec, entries)))
  {
    var after := Downloaded(codec, disk, hex, entries);
    var p := IndexFilePath(hex);
    EntriesKeepIndexes(codec, disk, entries);
    AddressKind(hex, "-index.json");
    var index := IndexOf(codec, entries);
    assert codec.decode(after[p]) == Some(index);
    ReloadedIndex(codec, entries);
    HexIsLong(codec);
    assert CasPathsOf(codec, entries) ==
      map name | name in index :: CasFilePath(codec.hexOf(index[name].integrity).value, IsAllExec(index[name].mode));
  }

  lemma ReloadedIndex(codec: Codec, entries: seq<Entry>)
    requires codec.IsSound()
    ensures forall name | name in IndexOf(codec, entries) :: codec.hexOf(IndexOf(codec, entries)[name].integrity).Some?
    ensures IndexOf(codec, entries).Keys == CasPathsOf(codec, entries).Keys
    ensures forall name | name in IndexOf(codec, entries) ::
      && |codec.hexOf(IndexOf(codec, entries)[name].integrity).value| >= 2
      && CasPathsOf(codec, entries)[name] ==
        CasFilePath(codec.hexOf(IndexOf(codec, entries)[name].integrity).value,
          IsAllExec(IndexOf(codec, entries)[name].mode))
  {
    hide CasFilePath;
    hide CleanedPath;
    HexIsLong(codec);
    forall name
      ensures name in IndexOf(codec, entries) <==> name in CasPathsOf(codec, entries)
    {
      LastEntryCounts(codec, entries, name);
    }
    forall name | name in IndexOf(codec, entries)
      ensures codec.hexOf(IndexOf(codec, entries)[name].integrity).Some?
      ensures InfoPath(codec, IndexOf(codec, entries)[name]) == Some(CasPathsOf(codec, entries)[name])
    {
      LastEntryCounts(codec, entries, name);
      var i: nat :| IsLastOfName(entries, i, name);
      InfoLeadsBack(codec, entries[i]);
    }
  }

  /** A package that has an index keeps it: a second download of it changes nothing that reloading sees. */
  lemma DownloadKeepsIndexes(codec: Codec, disk: Disk, hex: string, entries: seq<Entry>, other: string)
    requires codec.IsSound() && IsHex(hex) && IsHex(other)
    requires other == hex ==> IndexFilePath(hex) in disk
    ensures LoadFromStore(codec, Downloaded(codec, disk, hex, entries), other) == LoadFromStore(codec, disk, other)
  {
    var p := IndexFilePath(other);
    EntriesKeepIndexes(codec, disk, entries);
    AddressKind(other, "-index.json");
    if p == IndexFilePath(hex) {
      AddressesDiffer(hex, "-index.json", other, "-index.json");
    }
    var after := Downloaded(codec, disk, hex, entries);
    assert p in after <==> p in disk;
    assert p in disk ==> after[p] == disk[p];
  }

  /** With components as paths have them, the maps are those that the names in the archive call for. */
  lemma MapsAreByName(codec: Codec, entries: seq<Entry>)
    requires codec.IsSound() && forall e | e in entries :: HasPlainComponents(e)
    ensures IsUnpacked(codec, entries, CasPathsOf(codec, entries))
    ensures IsIndexed(codec, entries, IndexOf(codec, entries))
  {
    hide *;
    forall name, i | 0 <= i < |entries|
      ensures IsNameOf(name, entries[i]) <==> name == CleanedPath(entries[i])
    {
      NameIsCleanedPath(name, entries[i]);
    }
    forall name
      ensures NamedInMaps(codec, entries, name)
    {
      MapsAtName(codec, entries, name);
    }
    MapsFromNames(codec, entries);
  }

  /** What the two maps hold under one name. */
  ghost predicate NamedInMaps(codec: Codec, entries: seq<Entry>, name: string)
    requires codec.IsSound()
  {
    var paths, index := CasPathsOf(codec, entries), IndexOf(codec, entries);
    && (name in paths <==> exists i :: 0 <= i < |entries| && IsNameOf(name, entries[i]))
    && (name in index <==> name in paths)
    && forall i: nat :: IsLastNamed(entries, i, name) ==>
         && name in paths && StandsFor(paths[name], codec.digest(entries[i].contents), entries[i].mode)
         && codec.hexOf(index[name].integrity) == Some(codec.digest(entries[i].contents))
         && index[name].mode == entries[i].mode
         && index[name].checkedAt == entries[i].checkedAt
         && index[name].size == entries[i].size
  }

  lemma MapsFromNames(codec: Codec, entries: seq<Entry>)
    requires codec.IsSound() && forall name :: NamedInMaps(codec, entries, name)
    ensures IsUnpacked(codec, entries, CasPathsOf(codec, entries))
    ensures IsIndexed(codec, entries, IndexOf(codec, entries))
  {
    hide CasPathsOf;
    hide IndexOf;
    hide IsNameOf;
    hide StandsFor;
    var paths, index := CasPathsOf(codec, entries), IndexOf(codec, entries);
    forall name
      ensures name in paths <==> exists i :: 0 <= i < |entries| && IsNameOf(name, entries[i])
      ensures name in index <==> name in paths
    {
      assert NamedInMaps(codec, entries, name);
    }
    forall name, i: nat | IsLastNamed(entries, i, name)
      ensures name in paths && StandsFor(paths[name], codec.digest(entries[i].contents), entries[i].mode)
      ensures codec.hexOf(index[name].integrity) == Some(codec.digest(entries[i].contents))
      ensures index[name].mode == entries[i].mode
      ensures index[name].checkedAt == entries[i].checkedAt && index[name].size == entries[i].size
    {
      assert NamedInMaps(codec, entries, name);
    }
  }

  lemma MapsAtName(codec: Codec, entries: seq<Entry>, name: string)
    requires codec.IsSound()
    requires forall i | 0 <= i < |entries| :: IsNameOf(name, entries[i]) <==> name == CleanedPath(entries[i])
    ensures NamedInMaps(codec, entries, name)
  {
    hide CleanedPath;
    hide IsNameOf;
    hide StandsFor;
    hide CasPathsOf;
    hide IndexOf;
    hide CasPathOf;
    LastEntryCounts(codec, entries, name);
    forall i: nat
      ensures IsLastNamed(entries, i, name) <==> IsLastOfName(entries, i, name)
    {
    }
    LastOfNameExists(entries, name);
    forall i: nat | IsLastNamed(entries, i, name)
      ensures StandsFor(CasPathOf(codec, entries[i]), codec.digest(entries[i].contents), entries[i].mode)
      ensures codec.hexOf(InfoOf(codec, entries[i]).integrity) == Some(codec.digest(entries[i].contents))
    {
      EntryStandsFor(codec, entries[i]);
    }
  }

  lemma {:induction false} LastOfNameExists(entries: seq<Entry>, name: string)
    ensures (exists i :: 0 <= i < |entries| && CleanedPath(entries[i]) == name) <==>
      exists i: nat :: IsLastOfName(entries, i, name)
  {
    hide CleanedPath;
    if entries != [] && CleanedPath(entries[|entries| - 1]) != name {
      var front := entries[..|entries| - 1];
      LastOfNameExists(front, name);
      forall i: nat
        ensures IsLastOfName(entries, i, name) <==> IsLastOfName(front, i, name)
      {
      }
      if i :| 0 <= i < |entries| && CleanedPath(entries[i]) == name {
        assert CleanedPath(front[i]) == name;
      }
    } else if entries != [] {
      assert IsLastOfName(entries, |entries| - 1, name);
    }
  }

  lemma EntryStandsFor(codec: Codec, e: Entry)
    requires codec.IsSound()
    ensures StandsFor(CasPathOf(codec, e), codec.digest(e.contents), e.mode)
    ensures codec.hexOf(InfoOf(codec, e).integrity) == Some(codec.digest(e.contents))
  {
    HexIsLong(codec);
    CasFileIsAt(CasPathOf(codec, e), codec.digest(e.contents), e.mode);
  }

  /** Archives that differ in the name of the top directory only unpack to the same files and the same index. */
  lemma {:induction false} TopDirectoryDoesNotCount(codec: Codec, entries: seq<Entry>, others: seq<Entry>)
    requires codec.IsSound() && SameBelowTop(entries, others)
    ensures CasPathsOf(codec, entries) == CasPathsOf(codec, others)
    ensures IndexOf(codec, entries) == IndexOf(codec, others)
  {
    if entries != [] {
      var front, others' := entries[..|entries| - 1], others[..|others| - 1];
      TopDirectoryDoesNotCount(codec, front, others');
      SameName(entries[|entries| - 1], others[|others| - 1]);
      hide CleanedPath;
      hide CasFilePath;
    }
  }

  /** There is an index of that hash; if there was none before, it says what the archive calls for. */
  ghost predicate IsIndexWritten(codec: Codec, before: Disk, after: Disk, hex: string, entries: seq<Entry>) {
    forall q :: IsAddress(q, hex, "-index.json") ==>
      && q in after
      && (q in before ==> after[q] == before[q])
      && (q !in before ==> codec.decode(after[q]).Some? && IsIndexed(codec, entries, codec.decode(after[q]).value))
  }

  lemma IndexIsByName(codec: Codec, disk: Disk, hex: string, entries: seq<Entry>)
    requires codec.IsSound() && IsHex(hex) && forall e | e in entries :: HasPlainComponents(e)
    ensures IsIndexWritten(codec, disk, Downloaded(codec, disk, hex, entries), hex, entries)
  {
    hide CasPathOf;
    hide CleanedPath;
    hide IsIndexed;
    hide IsAddress;
    hide HasPlainComponents;
    EntriesKeepIndexes(codec, disk, entries);
    MapsAreByName(codec, entries);
    forall q | IsAddress(q, hex, "-index.json")
      ensures q == IndexFilePath(hex) && !IsCasFile(q)
    {
      AddressOf(q, hex, "-index.json");
      AddressKind(hex, "-index.json");
    }
    hide IndexFilePath;
    hide EntriesWritten;
    hide IsCasFile;
  }

  /** Fetches and unpacks a package; `intact` says whether its archive has the expected hash. */
  method RunWithoutMemCache(store: StoreDir, hex: string, intact: bool, entries: seq<Entry>)
    returns (r: Result<map<string, Path>, TarballError>)
    requires store.codec.IsSound() && IsHex(hex)
    modifies store
    ensures intact ==> r == Ok(CasPathsOf(store.codec, entries))
    ensures intact ==> store.disk == Downloaded(store.codec, old(store.disk), hex, entries)
    ensures intact && (forall e | e in entries :: HasPlainComponents(e)) ==>
      IsUnpacked(store.codec, entries, r.value) && IsIndexWritten(store.codec, old(store.disk), store.disk, hex,
        entries)
    ensures !intact ==> r == Err(Checksum) && store.disk == old(store.disk)
  {
    if !intact {
      return Err(Checksum);
    }
    hide CleanedPath;
    hide CasFilePath;
    var casPaths: map<string, Path> := map[];
    var index: FilesIndex := map[];
    for i := 0 to |entries|
      invariant store.disk == EntriesWritten(store.codec, old(store.disk), entries[..i])
      invariant casPaths == CasPathsOf(store.codec, entries[..i])
      invariant index == IndexOf(store.codec, entries[..i])
    {
      var e := entries[i];
      var path, fileHex := store.WriteCasFile(e.contents, IsAllExec(e.mode));
      casPaths := casPaths[CleanedPath(e) := path];
      index := index[CleanedPath(e) := PackageFileInfo(e.checkedAt, store.codec.integrityOf(fileHex), e.mode, e.size)];
      assert entries[..i + 1][..i] == entries[..i];
    }
    assert entries[..|entries|] == entries;
    if forall e | e in entries :: HasPlainComponents(e) {
      MapsAreByName(store.codec, entries);
      IndexIsByName(store.codec, old(store.disk), hex, entries);
    }
    store.WriteIndexFile(hex, index);
    return Ok(casPaths);
  }

  /**
   * The result, given the index file at `q`: an index that cannot be read is an error whatever the mode; without an
   * index it takes the network and an intact archive, and the mode is looked at first.
   */
  ghost predicate IsOutcome(codec: Codec, disk: Disk, q: Path, mode: NetworkMode, intact: bool, entries: seq<Entry>,
                            r: Result<map<string, Path>, TarballError>)
  {
    match r
    case Err(LoadFailed(ParseFile)) => q in disk && codec.decode(disk[q]).None?
    case Err(LoadFailed(ParseFileIntegrity)) =>
      && q in disk && codec.decode(disk[q]).Some?
      && exists name | name in codec.decode(disk[q]).value ::
           codec.hexOf(codec.decode(disk[q]).value[name].integrity).None?
    case Err(OfflineCacheMiss) => q !in disk && mode == Offline
    case Err(Checksum) => q !in disk && mode == Online && !intact
    case Ok(paths) =>
      if q in disk then codec.decode(disk[q]).Some? && IsLoaded(codec, codec.decode(disk[q]).value, paths)
      else
        && mode == Online && intact
        && ((forall e | e in entries :: HasPlainComponents(e)) ==> IsUnpacked(codec, entries, paths))
  }

  /** What the leader of a download does: the index is reused if there is one, otherwise the archive is fetched. */
  method LoadOrDownload(store: StoreDir, hex: string, mode: NetworkMode, intact: bool, entries: seq<Entry>)
    returns (r: Result<map<string, Path>, TarballError>)
    requires store.codec.IsSound() && IsHex(hex)
    modifies store
    ensures r.Ok? ==> LoadFromStore(store.codec, store.disk, hex) == Ok(Some(r.value))
    ensures IndexFilePath(hex) in old(store.disk) || r.Err? ==> store.disk == old(store.disk)
    ensures IndexFilePath(hex) !in old(store.disk) && r.Ok? ==>
      store.disk == Downloaded(store.codec, old(store.disk), hex, entries)
    ensures forall q :: IsAddress(q, hex, "-index.json") ==>
      IsOutcome(store.codec, old(store.disk), q, mode, intact, entries, r)
  {
    hide CasPathsOf;
    hide EntriesWritten;
    ghost var before := store.disk;
    var loaded := LoadFromStore(store.codec, store.disk, hex);
    forall q | IsAddress(q, hex, "-index.json")
      ensures IsReload(store.codec, before, q, loaded)
    {
      LoadByPath(store.codec, before, hex, q);
    }
    match loaded {
      case Err(error) => r := Err(LoadFailed(error));
      case Ok(Some(casPaths)) => r := Ok(casPaths);
      case Ok(None) =>
        if mode == Offline {
          return Err(OfflineCacheMiss);
        }
        DownloadThenReload(store.codec, store.disk, hex, entries);
        r := RunWithoutMemCache(store, hex, intact, entries);
    }
  }
}
