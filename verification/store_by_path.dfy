/** Where the store keeps its files, path by path, and what pruning, checking and reloading mean in those terms. */
module StoreByPath {
  import opened Wrappers
  import opened StoreLayout
  import opened StoreContents

  /** A file in one of the directories under `v3/files`. */
  predicate IsInFiles(p: Path) {
    |p| == 4 && p[0] == "v3" && p[1] == "files"
  }

  /** The first two digits of the hash name the directory, the others and the suffix the file. */
  predicate IsAddress(p: Path, hex: string, suffix: string) {
    IsInFiles(p) && |p[2]| == 2 && p[2] + p[3] == hex + suffix
  }

  /** The bits by which user, group and others may execute. */
  predicate AllMayExecute(mode: bv32) {
    mode & 64 != 0 && mode & 8 != 0 && mode & 1 != 0
  }

  /** Where a file with this hash and mode is kept. */
  predicate StandsFor(p: Path, hex: string, mode: bv32) {
    IsAddress(p, hex, if AllMayExecute(mode) then "-exec" else "")
  }

  predicate IsNamedIndex(p: Path) {
    IsInFiles(p) && |p[3]| >= 11 && p[3][|p[3]| - 11..] == "-index.json"
  }

  /** The index file at `q` lists a file with this information. */
  predicate Lists(codec: Codec, disk: Disk, q: Path, info: PackageFileInfo) {
    && q in disk && IsNamedIndex(q) && codec.decode(disk[q]).Some?
    && exists name | name in codec.decode(disk[q]).value :: codec.decode(disk[q]).value[name] == info
  }

  /** Some index file lists the file that is kept at `p`. */
  ghost predicate IsListed(codec: Codec, disk: Disk, p: Path) {
    exists q, info :: Lists(codec, disk, q, info)
      && codec.hexOf(info.integrity).Some? && StandsFor(p, codec.hexOf(info.integrity).value, info.mode)
  }

  lemma MaskIsBits(mode: bv32)
    ensures IsAllExec(mode) <==> AllMayExecute(mode)
  {
    assert mode & 0x49 == 0x49 <==> mode & 64 != 0 && mode & 8 != 0 && mode & 1 != 0;
  }

  lemma AddressOf(p: Path, hex: string, suffix: string)
    requires |hex| >= 2
    ensures IsAddress(p, hex, suffix) <==> p == FilePathByHexStr(hex, suffix)
  {
    var q := FilePathByHexStr(hex, suffix);
    assert q == ["v3", "files", hex[..2], hex[2..] + suffix];
    assert hex[..2] + (hex[2..] + suffix) == hex + suffix;
    if IsAddress(p, hex, suffix) {
      assert p[2] == (p[2] + p[3])[..2] == (hex + suffix)[..2] == hex[..2];
      assert p[3] == (p[2] + p[3])[2..] == (hex + suffix)[2..] == hex[2..] + suffix;
      assert p == ["v3", "files", p[2], p[3]];
    }
  }

  lemma CasFileIsAt(p: Path, hex: string, mode: bv32)
    requires |hex| >= 2
    ensures StandsFor(p, hex, mode) <==> p == CasFilePath(hex, IsAllExec(mode))
  {
    MaskIsBits(mode);
    AddressOf(p, hex, CasSuffix(IsAllExec(mode)));
    hide FilePathByHexStr;
    hide IsAddress;
    hide IsAllExec;
    hide AllMayExecute;
  }

  lemma KindsByPath(p: Path)
    ensures IsIndexFile(p) <==> IsNamedIndex(p)
    ensures IsCasFile(p) <==> IsInFiles(p) && !IsNamedIndex(p)
    ensures IsInTmp(p) <==> |p| >= 3 && p[0] == "v3" && p[1] == "tmp"
  {
    if |p| >= 2 {
      assert p[..2] == [p[0], p[1]];
    }
  }

  lemma InfoIsAt(codec: Codec, info: PackageFileInfo, p: Path)
    requires codec.IsSound()
    ensures codec.hexOf(info.integrity).Some? ==> |codec.hexOf(info.integrity).value| >= 2
    ensures InfoPath(codec, info) == Some(p) <==>
      codec.hexOf(info.integrity).Some? && StandsFor(p, codec.hexOf(info.integrity).value, info.mode)
  {
    HexIsLong(codec);
    if codec.hexOf(info.integrity).Some? {
      CasFileIsAt(p, codec.hexOf(info.integrity).value, info.mode);
    }
    hide CasFilePath;
    hide StandsFor;
    hide IsAllExec;
  }

  lemma MentionsIsLists(codec: Codec, disk: Disk, q: Path, info: PackageFileInfo)
    ensures Lists(codec, disk, q, info) <==> exists name :: Mentions(codec, disk, q, name, info)
  {
    KindsByPath(q);
    hide IsIndexFile;
    hide IsNamedIndex;
    if Lists(codec, disk, q, info) {
      var name :| name in codec.decode(disk[q]).value && codec.decode(disk[q]).value[name] == info;
      assert Mentions(codec, disk, q, name, info);
    }
  }

  lemma ReferencedIsListed(codec: Codec, disk: Disk, p: Path)
    requires codec.IsSound()
    ensures IsReferenced(codec, disk, p) <==> IsListed(codec, disk, p)
  {
    HexIsLong(codec);
    hide Lists;
    hide Mentions;
    hide InfoPath;
    hide StandsFor;
    if IsReferenced(codec, disk, p) {
      var q, name, info :| Mentions(codec, disk, q, name, info) && InfoPath(codec, info) == Some(p);
      MentionsIsLists(codec, disk, q, info);
      InfoIsAt(codec, info, p);
    }
    if IsListed(codec, disk, p) {
      var q, info :| Lists(codec, disk, q, info)
        && codec.hexOf(info.integrity).Some? && StandsFor(p, codec.hexOf(info.integrity).value, info.mode);
      MentionsIsLists(codec, disk, q, info);
      InfoIsAt(codec, info, p);
    }
  }

  /** What pruning leaves: nothing under `tmp`, and under `files` only indexes and what one of them lists. */
  ghost predicate IsLeft(codec: Codec, disk: Disk, p: Path) {
    && p in disk
    && !(|p| >= 3 && p[0] == "v3" && p[1] == "tmp")
    && (IsInFiles(p) && !IsNamedIndex(p) ==> IsListed(codec, disk, p))
  }

  lemma PrunedByPath(codec: Codec, disk: Disk)
    requires codec.IsSound()
    ensures forall p :: p in Pruned(codec, disk) <==> IsLeft(codec, disk, p)
    ensures forall p :: p in Pruned(codec, disk) ==> Pruned(codec, disk)[p] == disk[p]
  {
    forall p
      ensures IsKept(codec, disk, p) && p in disk <==> IsLeft(codec, disk, p)
    {
      KindsByPath(p);
      ReferencedIsListed(codec, disk, p);
      hide IsReferenced;
      hide IsListed;
      hide IsCasFile;
      hide IsInTmp;
      hide IsInFiles;
      hide IsNamedIndex;
    }
    hide IsKept;
    hide IsLeft;
  }

  /** Every index file can be read, and so can every integrity in it. */
  ghost predicate AllRead(codec: Codec, disk: Disk) {
    && (forall q :: q in disk && IsNamedIndex(q) ==> codec.decode(disk[q]).Some?)
    && (forall q, info :: Lists(codec, disk, q, info) ==> codec.hexOf(info.integrity).Some?)
  }

  /** The file is where its hash and mode say, and has that hash. */
  ghost predicate IsInPlace(codec: Codec, disk: Disk, info: PackageFileInfo) {
    && codec.hexOf(info.integrity).Some?
    && var hex := codec.hexOf(info.integrity).value;
       exists p :: p in disk && StandsFor(p, hex, info.mode) && codec.digest(disk[p]) == hex
  }

  ghost predicate AllVerify(codec: Codec, disk: Disk) {
    forall q, info :: Lists(codec, disk, q, info) ==> IsInPlace(codec, disk, info)
  }

  lemma ParseByPath(codec: Codec, disk: Disk)
    ensures AllParse(codec, disk) <==> AllRead(codec, disk)
  {
    forall q
      ensures q in IndexFiles(disk) <==> q in disk && IsNamedIndex(q)
    {
      KindsByPath(q);
    }
    hide IndexFiles;
    hide IsNamedIndex;
    if AllParse(codec, disk) {
      forall q, info | Lists(codec, disk, q, info)
        ensures codec.hexOf(info.integrity).Some?
      {
        assert ParsesAt(codec, disk, q);
      }
    }
    if AllRead(codec, disk) {
      forall q | q in IndexFiles(disk)
        ensures ParsesAt(codec, disk, q)
      {
        forall name | name in codec.decode(disk[q]).value
          ensures codec.hexOf(codec.decode(disk[q]).value[name].integrity).Some?
        {
          assert Lists(codec, disk, q, codec.decode(disk[q]).value[name]);
        }
      }
    }
  }

  lemma VerifiedByPath(codec: Codec, disk: Disk, info: PackageFileInfo)
    requires codec.IsSound() && codec.hexOf(info.integrity).Some?
    ensures |codec.hexOf(info.integrity).value| >= 2
    ensures IsVerified(codec, disk, info) <==> IsInPlace(codec, disk, info)
  {
    HexIsLong(codec);
    forall p
      ensures InfoPath(codec, info) == Some(p) <==> StandsFor(p, codec.hexOf(info.integrity).value, info.mode)
    {
      InfoIsAt(codec, info, p);
    }
    assert InfoPath(codec, info).Some?;
    hide InfoPath;
    hide StandsFor;
  }

  /** A store checks out exactly when every index reads and every listed file is in its place, unharmed. */
  lemma StatusByPath(codec: Codec, disk: Disk)
    requires codec.IsSound()
    ensures StatusHolds(codec, disk) <==> AllRead(codec, disk) && AllVerify(codec, disk)
  {
    ParseByPath(codec, disk);
    HexIsLong(codec);
    forall q, info
      ensures Lists(codec, disk, q, info) <==> exists name :: Mentions(codec, disk, q, name, info)
    {
      MentionsIsLists(codec, disk, q, info);
    }
    hide AllParse;
    hide Mentions;
    hide Lists;
    hide IsVerified;
    hide IsInPlace;
    hide IsNamedIndex;
    if AllRead(codec, disk) && AllVerify(codec, disk) {
      forall q, name, info | Mentions(codec, disk, q, name, info)
        ensures IsVerified(codec, disk, info)
      {
        assert Lists(codec, disk, q, info);
        VerifiedByPath(codec, disk, info);
      }
    }
    if StatusHolds(codec, disk) {
      forall q, info | Lists(codec, disk, q, info)
        ensures IsInPlace(codec, disk, info)
      {
        var name :| Mentions(codec, disk, q, name, info);
        VerifiedByPath(codec, disk, info);
      }
    }
  }

  /** Each file of a package, as its index has it, under the place where its contents are kept. */
  ghost predicate IsLoaded(codec: Codec, index: FilesIndex, paths: map<string, Path>) {
    && paths.Keys == index.Keys
    && forall name :: name in index ==>
         codec.hexOf(index[name].integrity).Some?
         && StandsFor(paths[name], codec.hexOf(index[name].integrity).value, index[name].mode)
  }

  /** What reloading gives, with the index file at `q`: it fails only if that cannot be read. */
  ghost predicate IsReload(codec: Codec, disk: Disk, q: Path, r: Result<Option<map<string, Path>>, LoadError>) {
    match r
    case Ok(None) => q !in disk
    case Err(ParseFile) => q in disk && codec.decode(disk[q]).None?
    case Err(ParseFileIntegrity) =>
      && q in disk && codec.decode(disk[q]).Some?
      && exists name | name in codec.decode(disk[q]).value ::
           codec.hexOf(codec.decode(disk[q]).value[name].integrity).None?
    case Ok(Some(paths)) =>
      q in disk && codec.decode(disk[q]).Some? && IsLoaded(codec, codec.decode(disk[q]).value, paths)
  }

  lemma LoadByPath(codec: Codec, disk: Disk, hex: string, q: Path)
    requires codec.IsSound() && IsHex(hex) && IsAddress(q, hex, "-index.json")
    ensures IsReload(codec, disk, q, LoadFromStore(codec, disk, hex))
  {
    AddressOf(q, hex, "-index.json");
    assert q == IndexFilePath(hex);
    HexIsLong(codec);
    var r := LoadFromStore(codec, disk, hex);
    if r.Ok? && r.value.Some? {
      var index := codec.decode(disk[q]).value;
      forall name | name in index
        ensures codec.hexOf(index[name].integrity).Some?
        ensures StandsFor(r.value.value[name], codec.hexOf(index[name].integrity).value, index[name].mode)
      {
        CasFileIsAt(r.value.value[name], codec.hexOf(index[name].integrity).value, index[name].mode);
      }
    }
  }

  /** Pruning leaves the plain and the executable file of an index in place, one at its hash, one with a suffix. */
  lemma ListedFilesAreLeft(codec: Codec, disk: Disk, q: Path, plain: PackageFileInfo, executable: PackageFileInfo,
                           p: Path, x: Path)
    requires codec.IsSound() && Lists(codec, disk, q, plain) && Lists(codec, disk, q, executable)
    requires plain.mode == 420 && executable.mode == 493
    requires codec.hexOf(plain.integrity).Some? && codec.hexOf(executable.integrity).Some?
    requires p in disk && IsAddress(p, codec.hexOf(plain.integrity).value, "")
    requires x in disk && IsAddress(x, codec.hexOf(executable.integrity).value, "-exec")
    ensures p in Pruned(codec, disk) && x in Pruned(codec, disk)
  {
    assert !AllMayExecute(420) && AllMayExecute(493);
    PrunedByPath(codec, disk);
    hide Pruned;
    hide Lists;
    hide IsNamedIndex;
    hide AllMayExecute;
    hide IsAddress;
    AddressIsNotTmp(p, codec.hexOf(plain.integrity).value, "");
    AddressIsNotTmp(x, codec.hexOf(executable.integrity).value, "-exec");
  }

  lemma AddressIsNotTmp(p: Path, hex: string, suffix: string)
    requires IsAddress(p, hex, suffix)
    ensures p[1] != "tmp"
  {
    assert "files"[0] != "tmp"[0];
  }
}
