/** The store directory: pruning, checking, and writing what a package consists of. */
module StoreDirs {
  import opened Wrappers
  import opened StoreLayout
  import opened StoreContents
  import S = StoreByPath

  datatype StoreError =
    | ParseIndexFile(path: Path)
    | ParseIntegrity(path: Path)
    | ReadStoreFile(path: Path)
    | VerifyStoreFile(path: Path)

  datatype StoreStatus = StoreStatus(checkedPackages: nat, checkedFiles: nat)

  predicate IsUnder(p: Path, dir: Path) {
    |p| > |dir| && p[..|dir|] == dir
  }

  function DirEntries(disk: Disk, dir: Path): set<string> {
    set p | p in disk && IsUnder(p, dir) :: p[|dir|]
  }

  predicate IsDir(disk: Disk, dir: Path) {
    exists p | p in disk :: IsUnder(p, dir)
  }

  lemma StoreFileIsListed(disk: Disk, p: Path)
    requires p in disk && IsStoreFile(p)
    ensures p == FILES + [p[2], p[3]]
    ensures IsUnder(p, FILES) && p[2] in DirEntries(disk, FILES)
    ensures IsUnder(p, FILES + [p[2]]) && p[3] in DirEntries(disk, FILES + [p[2]])
  {
    assert p == p[..2] + [p[2], p[3]];
    assert p[..3] == FILES + [p[2]];
    assert p[|FILES|] == p[2];
    assert p[|FILES + [p[2]]|] == p[3];
  }

  function ListedFiles(codec: Codec, index: FilesIndex): set<Path>
    requires codec.IsSound()
  {
    HexIsLong(codec);
    set name | name in index && InfoPath(codec, index[name]).Some? :: InfoPath(codec, index[name]).value
  }

  /** What some of the index files list. */
  function ListedIn(codec: Codec, disk: Disk, indexes: set<Path>): set<Path>
    requires codec.IsSound()
  {
    set p, target | p in indexes && p in disk && codec.decode(disk[p]).Some?
      && target in ListedFiles(codec, codec.decode(disk[p]).value) :: target
  }

  lemma ListOneMore(codec: Codec, disk: Disk, indexes: set<Path>, p: Path)
    requires codec.IsSound() && p in disk && codec.decode(disk[p]).Some?
    ensures ListedIn(codec, disk, indexes + {p}) ==
      ListedIn(codec, disk, indexes) + ListedFiles(codec, codec.decode(disk[p]).value)
  {
    hide ListedFiles;
  }

  /** Every file that some index lists. */
  function ReferencedFiles(codec: Codec, disk: Disk): set<Path>
    requires codec.IsSound()
  {
    ListedIn(codec, disk, IndexFiles(disk))
  }

  lemma ReferencedFilesAreReferenced(codec: Codec, disk: Disk)
    requires codec.IsSound()
    ensures forall target :: target in ReferencedFiles(codec, disk) <==> IsReferenced(codec, disk, target)
  {
    HexIsLong(codec);
    hide CasFilePath;
    hide IsIndexFile;
    forall target | target in ReferencedFiles(codec, disk)
      ensures IsReferenced(codec, disk, target)
    {
      var p :| p in IndexFiles(disk) && codec.decode(disk[p]).Some?
        && target in ListedFiles(codec, codec.decode(disk[p]).value);
      var index := codec.decode(disk[p]).value;
      var name :| name in index && InfoPath(codec, index[name]) == Some(target);
      assert Mentions(codec, disk, p, name, index[name]);
    }
    forall target | IsReferenced(codec, disk, target)
      ensures target in ReferencedFiles(codec, disk)
    {
      var p, name, info :| Mentions(codec, disk, p, name, info) && InfoPath(codec, info) == Some(target);
      assert p in IndexFiles(disk);
      assert target in ListedFiles(codec, codec.decode(disk[p]).value);
    }
  }

  /** The reason an operation on the store gives for failing is one that is there. */
  predicate Explains(codec: Codec, disk: Disk, error: StoreError)
    requires codec.IsSound()
  {
    match error
    case ParseIndexFile(p) => p in IndexFiles(disk) && codec.decode(disk[p]).None?
    case ParseIntegrity(p) => p in IndexFiles(disk) && codec.decode(disk[p]).Some? && !ParsesAt(codec, disk, p)
    case ReadStoreFile(p) => p in ReferencedFiles(codec, disk) && p !in disk
    case VerifyStoreFile(p) =>
      p in ReferencedFiles(codec, disk) && p in disk && !IsAddressOf(p, codec.digest(disk[p]))
  }

  lemma VerifiedByAddress(codec: Codec, disk: Disk, info: PackageFileInfo)
    requires codec.IsSound() && codec.hexOf(info.integrity).Some?
    ensures |codec.hexOf(info.integrity).value| >= 2
    ensures InfoPath(codec, info).Some?
    ensures IsVerified(codec, disk, info) <==>
      && InfoPath(codec, info).value in disk
      && IsAddressOf(InfoPath(codec, info).value, codec.digest(disk[InfoPath(codec, info).value]))
  {
    HexIsLong(codec);
    var hex := codec.hexOf(info.integrity).value;
    var p := InfoPath(codec, info).value;
    hide CasFilePath;
    assert IsAddressOf(p, hex);
    if p in disk && IsAddressOf(p, codec.digest(disk[p])) {
      OneHashPerAddress(p, hex, codec.digest(disk[p]));
    }
  }

  ghost predicate FilesVerify(codec: Codec, disk: Disk)
    requires codec.IsSound()
  {
    forall p :: p in ReferencedFiles(codec, disk) ==> p in disk && IsAddressOf(p, codec.digest(disk[p]))
  }

  /** A file that two indexes list, whatever integrity texts they give for it, has to verify only once. */
  lemma StatusIsPerFile(codec: Codec, disk: Disk)
    requires codec.IsSound()
    ensures StatusHolds(codec, disk) <==> AllParse(codec, disk) && FilesVerify(codec, disk)
  {
    HexIsLong(codec);
    ReferencedFilesAreReferenced(codec, disk);
    hide ReferencedFiles;
    hide IsAddressOf;
    hide IsVerified;
    if StatusHolds(codec, disk) {
      forall p | p in ReferencedFiles(codec, disk)
        ensures p in disk && IsAddressOf(p, codec.digest(disk[p]))
      {
        var q, name, info :| Mentions(codec, disk, q, name, info) && InfoPath(codec, info) == Some(p);
        VerifiedByAddress(codec, disk, info);
      }
    }
    if AllParse(codec, disk) && FilesVerify(codec, disk) {
      forall p, name, info | Mentions(codec, disk, p, name, info)
        ensures IsVerified(codec, disk, info)
      {
        assert ParsesAt(codec, disk, p);
        VerifiedByAddress(codec, disk, info);
        assert IsReferenced(codec, disk, InfoPath(codec, info).value);
      }
    }
  }

  lemma NothingListed(codec: Codec, index: FilesIndex)
    requires codec.IsSound() && index.Keys == {}
    ensures ListedFiles(codec, index) == {}
  {
  }

  lemma AddressOfInfo(codec: Codec, info: PackageFileInfo)
    requires codec.IsSound() && codec.hexOf(info.integrity).Some?
    ensures |codec.hexOf(info.integrity).value| >= 2
    ensures IsAddressOf(CasFilePath(codec.hexOf(info.integrity).value, IsAllExec(info.mode)),
      codec.hexOf(info.integrity).value)
  {
    HexIsLong(codec);
    hide CasFilePath;
  }

  lemma ListedOneLess(codec: Codec, index: FilesIndex, names: set<string>, name: string)
    requires codec.IsSound() && name in index && name in names && codec.hexOf(index[name].integrity).Some?
    ensures |codec.hexOf(index[name].integrity).value| >= 2
    ensures ListedFiles(codec, index - (names - {name})) ==
      ListedFiles(codec, index - names)
      + {CasFilePath(codec.hexOf(index[name].integrity).value, IsAllExec(index[name].mode))}
  {
    HexIsLong(codec);
    hide CasFilePath;
    var less, more := index - names, index - (names - {name});
    var path := InfoPath(codec, index[name]).value;
    assert more == less[name := index[name]];
    forall p | p in ListedFiles(codec, less)
      ensures p in ListedFiles(codec, more)
    {
      var other :| other in less && InfoPath(codec, less[other]) == Some(p);
      assert other in more && more[other] == less[other];
    }
    assert more[name] == index[name] && InfoPath(codec, more[name]) == Some(path);
    assert path in ListedFiles(codec, more);
  }

  /** All index files count, and each listed file once. */
  ghost predicate IsCounted(codec: Codec, disk: Disk, status: StoreStatus) {
    exists indexes: set<Path>, listed: set<Path> ::
      && (forall q :: q in indexes <==> q in disk && S.IsNamedIndex(q))
      && (forall p :: p in listed <==> S.IsListed(codec, disk, p))
      && status == StoreStatus(|indexes|, |listed|)
  }

  lemma CountsByPath(codec: Codec, disk: Disk)
    requires codec.IsSound()
    ensures IsCounted(codec, disk, StoreStatus(|IndexFiles(disk)|, |ReferencedFiles(codec, disk)|))
  {
    var indexes, listed := IndexFiles(disk), ReferencedFiles(codec, disk);
    forall q
      ensures q in indexes <==> q in disk && S.IsNamedIndex(q)
    {
      S.KindsByPath(q);
    }
    ReferencedFilesAreReferenced(codec, disk);
    forall p
      ensures p in listed <==> S.IsListed(codec, disk, p)
    {
      S.ReferencedIsListed(codec, disk, p);
    }
    hide ReferencedFiles;
    hide IndexFiles;
    hide IsReferenced;
    hide S.IsListed;
    hide S.IsNamedIndex;
  }

  /** The reasons given for failing, path by path. */
  ghost predicate IsFault(codec: Codec, disk: Disk, error: StoreError) {
    match error
    case ParseIndexFile(q) => q in disk && S.IsNamedIndex(q) && codec.decode(disk[q]).None?
    case ParseIntegrity(q) => exists info :: S.Lists(codec, disk, q, info) && codec.hexOf(info.integrity).None?
    case ReadStoreFile(p) => S.IsListed(codec, disk, p) && p !in disk
    case VerifyStoreFile(p) => S.IsListed(codec, disk, p) && p in disk && forall suffix ::
      suffix in {"", "-exec"} ==> !S.IsAddress(p, codec.digest(disk[p]), suffix)
  }

  lemma ExplainsByPath(codec: Codec, disk: Disk, error: StoreError)
    requires codec.IsSound() && Explains(codec, disk, error)
    ensures IsFault(codec, disk, error)
  {
    HexIsLong(codec);
    ReferencedFilesAreReferenced(codec, disk);
    S.KindsByPath(error.path);
    S.ReferencedIsListed(codec, disk, error.path);
    hide ReferencedFiles;
    hide IsReferenced;
    hide S.IsListed;
    hide S.IsNamedIndex;
    match error
    case ParseIntegrity(q) =>
      var index := codec.decode(disk[q]).value;
      var name :| name in index && codec.hexOf(index[name].integrity).None?;
      assert S.Lists(codec, disk, q, index[name]);
    case VerifyStoreFile(p) =>
      S.AddressOf(p, codec.digest(disk[p]), "");
      S.AddressOf(p, codec.digest(disk[p]), "-exec");
    case _ =>
  }

  class StoreDir {
    const codec: Codec
    var disk: Disk

    constructor (codec: Codec, disk: Disk)
      ensures this.codec == codec && this.disk == disk
    {
      this.codec := codec;
      this.disk := disk;
    }

    /** Writes a file under its hash; the same contents are never written twice. */
    method WriteCasFile(contents: Bytes, executable: bool) returns (path: Path, hex: string)
      requires codec.IsSound()
      modifies this
      ensures IsHex(hex) && hex == codec.digest(contents)
      ensures path == CasFilePath(hex, executable)
      ensures |path| == 4 && path[0] == "v3" && path[1] == "files" && |path[2]| == 2
      ensures path[2] + path[3] == hex + if executable then "-exec" else ""
      ensures disk == Ensured(old(disk), path, contents)
    {
      hex := codec.digest(contents);
      path := CasFilePath(hex, executable);
      S.AddressOf(path, hex, CasSuffix(executable));
      if path !in disk {
        disk := disk[path := contents];
      }
    }

    /** Writes the index of a package, unless it has one. */
    method WriteIndexFile(hex: string, index: FilesIndex)
      requires IsHex(hex)
      modifies this
      ensures disk == Ensured(old(disk), IndexFilePath(hex), codec.encode(index))
      ensures exists q :: q in disk && S.IsAddress(q, hex, "-index.json")
    {
      var path := IndexFilePath(hex);
      S.AddressOf(path, hex, "-index.json");
      if path !in disk {
        disk := disk[path := codec.encode(index)];
      }
    }

    /** The index files, found by listing the directories below `files` in any order. */
    method IndexFilePaths() returns (paths: seq<Path>)
      ensures forall p :: p in paths <==> p in IndexFiles(disk)
      ensures forall i, j | 0 <= i < j < |paths| :: paths[i] != paths[j]
    {
      paths := [];
      var heads := DirEntries(disk, FILES);
      while heads != {}
        invariant forall p :: p in paths <==> p in IndexFiles(disk) && p[2] !in heads
        invariant forall i, j | 0 <= i < j < |paths| :: paths[i] != paths[j]
      {
        var head :| head in heads;
        ghost var left := heads;
        heads := heads - {head};
        if !IsDir(disk, FILES + [head]) {
          assert forall p :: p in IndexFiles(disk) ==> p[2] != head by {
            forall p | p in IndexFiles(disk)
              ensures p[2] != head
            {
              StoreFileIsListed(disk, p);
            }
          }
          continue;
        }
        var names := DirEntries(disk, FILES + [head]);
        assert forall p :: p in IndexFiles(disk) ==> p[3] in DirEntries(disk, FILES + [p[2]]) by {
          forall p | p in IndexFiles(disk)
            ensures p[3] in DirEntries(disk, FILES + [p[2]])
          {
            StoreFileIsListed(disk, p);
          }
        }
        while names != {}
          invariant forall p :: p in paths <==>
            p in IndexFiles(disk) && (p[2] !in left || (p[2] == head && p[3] !in names))
          invariant forall i, j | 0 <= i < j < |paths| :: paths[i] != paths[j]
        {
          var name :| name in names;
          names := names - {name};
          var path := FILES + [head, name];
          assert forall p :: IsStoreFile(p) && p[2] == head && p[3] == name ==> p == path by {
            forall p | IsStoreFile(p) && p[2] == head && p[3] == name
              ensures p == path
            {
              assert p == p[..2] + [p[2], p[3]];
            }
          }
          assert path[..2] == FILES && path[2] == head && path[3] == name;
          if path in disk && IsIndexName(name) {
            paths := paths + [path];
          }
        }
      }
    }

    /** The files one index lists, or the error of an integrity that does not read. */
    method ReferencedByIndex(p: Path, index: FilesIndex, referenced: set<Path>)
      returns (r: Result<set<Path>, StoreError>)
      requires codec.IsSound()
      ensures r.Ok? <==> forall name :: name in index ==> codec.hexOf(index[name].integrity).Some?
      ensures r.Ok? ==> r.value == referenced + ListedFiles(codec, index)
      ensures r.Err? ==> r.error == ParseIntegrity(p)
    {
      HexIsLong(codec);
      var found := referenced;
      var names := index.Keys;
      while names != {}
        invariant names <= index.Keys
        invariant forall name :: name in index && name !in names ==> codec.hexOf(index[name].integrity).Some?
        invariant found == referenced + set name | name in index && name !in names :: InfoPath(codec, index[name]).value
      {
        var name :| name in names;
        var info := index[name];
        match codec.hexOf(info.integrity) {
          case None => return Err(ParseIntegrity(p));
          case Some(hex) =>
            found := found + {CasFilePath(hex, IsAllExec(info.mode))};
            names := names - {name};
        }
      }
      return Ok(found);
    }

    /** All files that some index lists; every index has to be readable. */
    method ReferencedStoreFiles() returns (r: Result<set<Path>, StoreError>)
      requires codec.IsSound()
      ensures r.Ok? <==> AllParse(codec, disk)
      ensures r.Ok? ==> r.value == ReferencedFiles(codec, disk)
      ensures r.Err? ==> Explains(codec, disk, r.error) && (r.error.ParseIndexFile? || r.error.ParseIntegrity?)
    {
      hide CasFilePath;
      hide ListedFiles;
      hide IsIndexFile;
      var referenced: set<Path> := {};
      var paths := IndexFilePaths();
      for i := 0 to |paths|
        invariant forall j | 0 <= j < i :: ParsesAt(codec, disk, paths[j])
        invariant referenced == ListedIn(codec, disk, set j | 0 <= j < i :: paths[j])
      {
        assert paths[i] in paths;
        match codec.decode(disk[paths[i]]) {
          case None => return Err(ParseIndexFile(paths[i]));
          case Some(index) =>
            var more := ReferencedByIndex(paths[i], index, referenced);
            if more.Err? {
              return Err(more.error);
            }
            referenced := more.value;
            assert (set j | 0 <= j < i + 1 :: paths[j]) == (set j | 0 <= j < i :: paths[j]) + {paths[i]};
            ListOneMore(codec, disk, set j | 0 <= j < i :: paths[j], paths[i]);
        }
      }
      assert (set j | 0 <= j < |paths| :: paths[j]) == IndexFiles(disk);
      return Ok(referenced);
    }

    /** Removes from one directory the files that are neither indexes nor listed. */
    method RemoveOrphansIn(head: string, referenced: set<Path>)
      modifies this
      ensures disk == map p | p in old(disk) && (IsCasFile(p) && p[2] == head ==> p in referenced) :: old(disk)[p]
    {
      hide IsIndexName;
      hide DirEntries;
      ghost var before := disk;
      var names := DirEntries(disk, FILES + [head]);
      forall p | p in before && IsStoreFile(p) && p[2] == head
        ensures p[3] in names
      {
        StoreFileIsListed(before, p);
      }
      while names != {}
        invariant disk ==
          map p | p in before && (IsCasFile(p) && p[2] == head && p[3] !in names ==> p in referenced) :: before[p]
      {
        var name :| name in names;
        names := names - {name};
        var path := FILES + [head, name];
        PathOf(head, name);
        if path in disk && !IsIndexName(name) && path !in referenced {
          disk := disk - {path};
        }
      }
    }

    /** Removes the files in the store's directories that are neither indexes nor listed. */
    method RemoveOrphanCasFiles(referenced: set<Path>)
      modifies this
      ensures disk == map p | p in old(disk) && (IsCasFile(p) ==> p in referenced) :: old(disk)[p]
    {
      hide IsIndexName;
      hide DirEntries;
      ghost var before := disk;
      var heads := DirEntries(disk, FILES);
      forall p | p in before && IsStoreFile(p)
        ensures p[2] in heads
      {
        StoreFileIsListed(before, p);
      }
      while heads != {}
        invariant disk == map p | p in before && (IsCasFile(p) && p[2] !in heads ==> p in referenced) :: before[p]
      {
        var head :| head in heads;
        heads := heads - {head};
        if IsDir(disk, FILES + [head]) {
          RemoveOrphansIn(head, referenced);
        } else {
          forall p | p in disk && IsStoreFile(p)
            ensures p[2] != head
          {
            StoreFileIsListed(disk, p);
          }
        }
      }
    }

    /** Empties the `tmp` directory. */
    method ClearTmpDir()
      modifies this
      ensures disk == map p | p in old(disk) && !IsInTmp(p) :: old(disk)[p]
    {
      hide DirEntries;
      ghost var before := disk;
      var names := DirEntries(disk, TMP);
      TmpIsListed(before);
      while names != {}
        invariant disk == map p | p in before && !(IsInTmp(p) && p[2] !in names) :: before[p]
      {
        var name :| name in names;
        names := names - {name};
        var path := TMP + [name];
        BelowTmp(name);
        if IsDir(disk, path) {
          disk := map p | p in disk && !(path <= p) :: disk[p];
        } else {
          OnlyTheFile(disk, path);
          disk := disk - {path};
        }
      }
    }

    /** Removes what no index lists, provided every index can be read. */
    method Prune() returns (r: Result<(), StoreError>)
      requires codec.IsSound()
      modifies this
      ensures r.Ok? <==> AllParse(codec, old(disk))
      ensures r.Ok? ==> disk == Pruned(codec, old(disk))
      ensures r.Ok? <==> S.AllRead(codec, old(disk))
      ensures r.Ok? ==> forall p :: p in disk <==> S.IsLeft(codec, old(disk), p)
      ensures r.Ok? ==> forall p :: p in disk ==> disk[p] == old(disk)[p]
      ensures r.Err? ==> disk == old(disk) && Explains(codec, disk, r.error) && IsFault(codec, disk, r.error)
      ensures r.Err? ==> r.error.ParseIndexFile? || r.error.ParseIntegrity?
    {
      hide ReferencedFiles;
      S.ParseByPath(codec, disk);
      S.PrunedByPath(codec, disk);
      ReferencedFilesAreReferenced(codec, disk);
      var referenced := ReferencedStoreFiles();
      if referenced.Err? {
        ExplainsByPath(codec, disk, referenced.error);
        return Err(referenced.error);
      }
      RemoveOrphanCasFiles(referenced.value);
      ClearTmpDir();
      return Ok(());
    }

    /** Adds the files one index lists, each with the hash it was first listed with. */
    method UniqueFilesOfIndex(p: Path, index: FilesIndex, unique: map<Path, string>)
      returns (r: Result<map<Path, string>, StoreError>)
      requires codec.IsSound()
      requires forall path :: path in unique ==> IsAddressOf(path, unique[path])
      ensures r.Ok? <==> forall name :: name in index ==> codec.hexOf(index[name].integrity).Some?
      ensures r.Ok? ==> r.value.Keys == unique.Keys + ListedFiles(codec, index)
      ensures r.Ok? ==> forall path :: path in r.value ==> IsAddressOf(path, r.value[path])
      ensures r.Err? ==> r.error == ParseIntegrity(p)
    {
      hide *;
      var found := unique;
      var names := index.Keys;
      NothingListed(codec, index - names);
      while names != {}
        invariant names <= index.Keys
        invariant forall name :: name in index && name !in names ==> codec.hexOf(index[name].integrity).Some?
        invariant found.Keys == unique.Keys + ListedFiles(codec, index - names)
        invariant forall path :: path in found ==> IsAddressOf(path, found[path])
      {
        var name :| name in names;
        var info := index[name];
        match codec.hexOf(info.integrity) {
          case None => return Err(ParseIntegrity(p));
          case Some(hex) =>
            AddressOfInfo(codec, info);
            ListedOneLess(codec, index, names, name);
            var path := CasFilePath(hex, IsAllExec(info.mode));
            if path !in found {
              found := found[path := hex];
            }
            names := names - {name};
        }
      }
      assert index - names == index;
      return Ok(found);
    }

    /** Each listed file once, with its hash; every index has to be readable. */
    method UniqueFiles(paths: seq<Path>) returns (r: Result<map<Path, string>, StoreError>)
      requires codec.IsSound()
      requires forall p :: p in paths <==> p in IndexFiles(disk)
      ensures r.Ok? <==> AllParse(codec, disk)
      ensures r.Ok? ==> r.value.Keys == ReferencedFiles(codec, disk)
      ensures r.Ok? ==> forall path :: path in r.value ==> IsAddressOf(path, r.value[path])
      ensures r.Err? ==> Explains(codec, disk, r.error)
    {
      hide CasFilePath;
      hide ListedFiles;
      hide IsIndexFile;
      hide IsAddressOf;
      var unique: map<Path, string> := map[];
      for i := 0 to |paths|
        invariant forall j | 0 <= j < i :: ParsesAt(codec, disk, paths[j])
        invariant unique.Keys == ListedIn(codec, disk, set j | 0 <= j < i :: paths[j])
        invariant forall path :: path in unique ==> IsAddressOf(path, unique[path])
      {
        assert paths[i] in paths;
        match codec.decode(disk[paths[i]]) {
          case None => return Err(ParseIndexFile(paths[i]));
          case Some(index) =>
            var more := UniqueFilesOfIndex(paths[i], index, unique);
            if more.Err? {
              return Err(more.error);
            }
            unique := more.value;
            assert (set j | 0 <= j < i + 1 :: paths[j]) == (set j | 0 <= j < i :: paths[j]) + {paths[i]};
            ListOneMore(codec, disk, set j | 0 <= j < i :: paths[j], paths[i]);
        }
      }
      assert (set j | 0 <= j < |paths| :: paths[j]) == IndexFiles(disk);
      return Ok(unique);
    }

    /** Checks every listed file against its hash, in any order. */
    method CheckFiles(unique: map<Path, string>) returns (r: Result<(), StoreError>)
      requires codec.IsSound()
      requires unique.Keys == ReferencedFiles(codec, disk)
      requires forall path :: path in unique ==> IsAddressOf(path, unique[path])
      ensures r.Ok? <==> FilesVerify(codec, disk)
      ensures r.Err? ==> Explains(codec, disk, r.error)
    {
      hide ReferencedFiles;
      hide CasFilePath;
      var paths := unique.Keys;
      while paths != {}
        invariant paths <= unique.Keys
        invariant forall p :: p in unique && p !in paths ==> p in disk && IsAddressOf(p, codec.digest(disk[p]))
      {
        var p :| p in paths;
        paths := paths - {p};
        if p !in disk {
          return Err(ReadStoreFile(p));
        }
        if codec.digest(disk[p]) != unique[p] {
          if IsAddressOf(p, codec.digest(disk[p])) {
            OneHashPerAddress(p, codec.digest(disk[p]), unique[p]);
          }
          return Err(VerifyStoreFile(p));
        }
      }
      return Ok(());
    }

    /** Whether the store is in order, and how many packages and files it holds. */
    method Status() returns (r: Result<StoreStatus, StoreError>)
      requires codec.IsSound()
      ensures r.Ok? <==> StatusHolds(codec, disk)
      ensures r.Ok? ==> r.value == StoreStatus(|IndexFiles(disk)|, |ReferencedFiles(codec, disk)|)
      ensures r.Ok? <==> S.AllRead(codec, disk) && S.AllVerify(codec, disk)
      ensures r.Ok? ==> IsCounted(codec, disk, r.value)
      ensures r.Err? ==> Explains(codec, disk, r.error) && IsFault(codec, disk, r.error)
    {
      hide *;
      S.StatusByPath(codec, disk);
      CountsByPath(codec, disk);
      StatusIsPerFile(codec, disk);
      var paths := IndexFilePaths();
      CountDistinct(paths, IndexFiles(disk));
      var unique := UniqueFiles(paths);
      if unique.Err? {
        ExplainsByPath(codec, disk, unique.error);
        return Err(unique.error);
      }
      var checked := CheckFiles(unique.value);
      if checked.Err? {
        ExplainsByPath(codec, disk, checked.error);
        return Err(checked.error);
      }
      return Ok(StoreStatus(|paths|, |unique.value|));
    }
  }

  lemma TmpIsListed(disk: Disk)
    ensures forall p :: p in disk && IsInTmp(p) ==> p[2] in DirEntries(disk, TMP)
  {
    forall p | p in disk && IsInTmp(p)
      ensures p[2] in DirEntries(disk, TMP)
    {
      assert IsUnder(p, TMP);
      assert p[|TMP|] == p[2];
    }
  }

  lemma BelowTmp(name: string)
    ensures forall p: Path :: TMP + [name] <= p <==> IsInTmp(p) && p[2] == name
  {
    forall p: Path | IsInTmp(p) && p[2] == name
      ensures TMP + [name] <= p
    {
      assert p == p[..2] + [p[2]] + p[3..];
    }
    assert (TMP + [name])[..2] == TMP;
    forall p: Path | TMP + [name] <= p
      ensures IsInTmp(p) && p[2] == name
    {
      assert p[2] == (TMP + [name])[2];
      assert p[..2] == TMP;
    }
  }

  lemma OnlyTheFile(disk: Disk, path: Path)
    requires !IsDir(disk, path)
    ensures forall p :: p in disk && path <= p ==> p == path
  {
    forall p | p in disk && path <= p
      ensures p == path
    {
      assert !IsUnder(p, path);
    }
  }

  lemma {:induction false} CountDistinct(paths: seq<Path>, all: set<Path>)
    requires forall p :: p in paths <==> p in all
    requires forall i, j | 0 <= i < j < |paths| :: paths[i] != paths[j]
    ensures |paths| == |all|
  {
    if paths != [] {
      var front, last := paths[..|paths| - 1], paths[|paths| - 1];
      assert paths == front + [last];
      CountDistinct(front, all - {last});
    }
  }

  lemma PathOf(head: string, name: string)
    ensures forall p :: IsStoreFile(p) && p[2] == head && p[3] == name <==> p == FILES + [head, name]
  {
    forall p | IsStoreFile(p) && p[2] == head && p[3] == name
      ensures p == FILES + [head, name]
    {
      assert p == p[..2] + [p[2], p[3]];
    }
    assert (FILES + [head, name])[..2] == FILES;
  }
}
