/** What a store's index files refer to, and what pruning, checking and reloading make of it. */
module StoreContents {
  import opened Wrappers
  import opened StoreLayout

  function IndexFiles(disk: Disk): set<Path> {
    set p | p in disk && IsIndexFile(p)
  }

  /** An index file that can be read, with integrities that can be read. */
  predicate ParsesAt(codec: Codec, disk: Disk, p: Path) {
    && p in disk
    && codec.decode(disk[p]).Some?
    && forall name | name in codec.decode(disk[p]).value ::
      codec.hexOf(codec.decode(disk[p]).value[name].integrity).Some?
  }

  ghost predicate AllParse(codec: Codec, disk: Disk) {
    forall p :: p in IndexFiles(disk) ==> ParsesAt(codec, disk, p)
  }

  /** Where the contents of a listed file are kept. */
  function InfoPath(codec: Codec, info: PackageFileInfo): Option<Path>
    requires codec.hexOf(info.integrity).Some? ==> |codec.hexOf(info.integrity).value| >= 2
  {
    match codec.hexOf(info.integrity)
    case None => None
    case Some(hex) => Some(CasFilePath(hex, IsAllExec(info.mode)))
  }

  lemma HexIsLong(codec: Codec)
    requires codec.IsSound()
    ensures forall text :: codec.hexOf(text).Some? ==> |codec.hexOf(text).value| >= 2
    ensures forall contents :: |codec.digest(contents)| >= 2
  {
  }

  /** The index file at `p` lists, among others, this file. */
  predicate Mentions(codec: Codec, disk: Disk, p: Path, name: string, info: PackageFileInfo) {
    && p in disk && IsIndexFile(p)
    && codec.decode(disk[p]).Some?
    && name in codec.decode(disk[p]).value
    && codec.decode(disk[p]).value[name] == info
  }

  ghost predicate IsReferenced(codec: Codec, disk: Disk, target: Path)
    requires codec.IsSound()
  {
    HexIsLong(codec);
    exists p, name, info :: Mentions(codec, disk, p, name, info) && InfoPath(codec, info) == Some(target)
  }

  ghost predicate IsKept(codec: Codec, disk: Disk, p: Path)
    requires codec.IsSound()
  {
    !IsInTmp(p) && (IsCasFile(p) ==> IsReferenced(codec, disk, p))
  }

  /** The store after pruning: orphans and temporary files are gone, everything else is as it was. */
  ghost function Pruned(codec: Codec, disk: Disk): Disk
    requires codec.IsSound()
  {
    map p | p in disk && IsKept(codec, disk, p) :: disk[p]
  }

  /** A listed file is there and its contents have the hash it is listed with. */
  predicate IsVerified(codec: Codec, disk: Disk, info: PackageFileInfo)
    requires codec.hexOf(info.integrity).Some? ==> |codec.hexOf(info.integrity).value| >= 2
  {
    && InfoPath(codec, info).Some?
    && InfoPath(codec, info).value in disk
    && codec.digest(disk[InfoPath(codec, info).value]) == codec.hexOf(info.integrity).value
  }

  /** What `status` looks for: every index reads, and every file listed in one verifies. */
  ghost predicate StatusHolds(codec: Codec, disk: Disk)
    requires codec.IsSound()
  {
    HexIsLong(codec);
    && AllParse(codec, disk)
    && forall p, name, info :: Mentions(codec, disk, p, name, info) ==> IsVerified(codec, disk, info)
  }

  /** The address of a file with this hash, executable or not. */
  predicate IsAddressOf(p: Path, hex: string) {
    IsHex(hex) && (p == CasFilePath(hex, false) || p == CasFilePath(hex, true))
  }

  lemma OneHashPerAddress(p: Path, hex: string, hex': string)
    requires IsAddressOf(p, hex) && IsAddressOf(p, hex')
    ensures hex == hex'
  {
    var suffix := if p == CasFilePath(hex, false) then "" else "-exec";
    var suffix' := if p == CasFilePath(hex', false) then "" else "-exec";
    AddressesDiffer(hex, suffix, hex', suffix');
  }

  datatype LoadError = ParseFile | ParseFileIntegrity

  /** The map from a package's files to their places in the store, as its index file has it. */
  function LoadFromStore(codec: Codec, disk: Disk, hex: string): Result<Option<map<string, Path>>, LoadError>
    requires codec.IsSound() && IsHex(hex)
  {
    var p := IndexFilePath(hex);
    if p !in disk then Ok(None)
    else
      match codec.decode(disk[p])
      case None => Err(ParseFile)
      case Some(index) =>
        if exists name | name in index :: codec.hexOf(index[name].integrity).None? then Err(ParseFileIntegrity)
        else
          HexIsLong(codec);
          Ok(Some(
            map name | name in index ::
              CasFilePath(codec.hexOf(index[name].integrity).value, IsAllExec(index[name].mode))))
  }

  lemma KindsAreDisjoint(p: Path)
    requires IsStoreFile(p)
    ensures !IsInTmp(p)
  {
    assert p[..2][1] == "files";
  }

  lemma MentionsAfterPrune(codec: Codec, disk: Disk, p: Path, name: string, info: PackageFileInfo)
    requires codec.IsSound()
    ensures Mentions(codec, Pruned(codec, disk), p, name, info) <==> Mentions(codec, disk, p, name, info)
  {
    if IsIndexFile(p) {
      KindsAreDisjoint(p);
    }
  }

  lemma ReferencedAfterPrune(codec: Codec, disk: Disk, target: Path)
    requires codec.IsSound()
    ensures IsReferenced(codec, Pruned(codec, disk), target) <==> IsReferenced(codec, disk, target)
  {
    hide Mentions;
    hide Pruned;
    hide InfoPath;
    HexIsLong(codec);
    forall p, name, info
      ensures Mentions(codec, Pruned(codec, disk), p, name, info) <==> Mentions(codec, disk, p, name, info)
    {
      MentionsAfterPrune(codec, disk, p, name, info);
    }
  }

  /** Pruning twice is pruning once. */
  lemma PruneIsIdempotent(codec: Codec, disk: Disk)
    requires codec.IsSound()
    ensures Pruned(codec, Pruned(codec, disk)) == Pruned(codec, disk)
  {
    hide IsReferenced;
    hide IsInTmp;
    hide IsCasFile;
    var once := Pruned(codec, disk);
    forall p | p in once
      ensures IsKept(codec, once, p)
    {
      ReferencedAfterPrune(codec, disk, p);
    }
  }

  /** No package loses its place: reloading gives the same answer after pruning as before. */
  lemma PruneKeepsReload(codec: Codec, disk: Disk, hex: string)
    requires codec.IsSound() && IsHex(hex)
    ensures LoadFromStore(codec, Pruned(codec, disk), hex) == LoadFromStore(codec, disk, hex)
  {
    var p := IndexFilePath(hex);
    AddressKind(hex, "-index.json");
    KindsAreDisjoint(p);
    assert IsKept(codec, disk, p);
    assert p in Pruned(codec, disk) <==> p in disk;
  }

  lemma IndexFilesAfterPrune(codec: Codec, disk: Disk)
    requires codec.IsSound()
    ensures IndexFiles(Pruned(codec, disk)) == IndexFiles(disk)
    ensures AllParse(codec, Pruned(codec, disk)) <==> AllParse(codec, disk)
  {
    hide IsReferenced;
    forall p | p in disk && IsIndexFile(p)
      ensures IsKept(codec, disk, p)
    {
      KindsAreDisjoint(p);
    }
    assert IndexFiles(Pruned(codec, disk)) == IndexFiles(disk);
    forall p | p in IndexFiles(disk)
      ensures ParsesAt(codec, Pruned(codec, disk), p) <==> ParsesAt(codec, disk, p)
    {
    }
  }

  lemma VerifiedAfterPrune(codec: Codec, disk: Disk, p: Path, name: string, info: PackageFileInfo)
    requires codec.IsSound() && Mentions(codec, disk, p, name, info)
    ensures codec.hexOf(info.integrity).Some? ==> |codec.hexOf(info.integrity).value| >= 2
    ensures IsVerified(codec, Pruned(codec, disk), info) <==> IsVerified(codec, disk, info)
  {
    HexIsLong(codec);
    if InfoPath(codec, info).Some? {
      var target := InfoPath(codec, info).value;
      assert IsReferenced(codec, disk, target);
      AddressKind(codec.hexOf(info.integrity).value, CasSuffix(IsAllExec(info.mode)));
      KindsAreDisjoint(target);
      assert IsKept(codec, disk, target);
    }
  }

  /** Whether the store checks out, and what it is found to hold, are the same after pruning as before. */
  lemma PruneKeepsStatus(codec: Codec, disk: Disk)
    requires codec.IsSound()
    ensures StatusHolds(codec, Pruned(codec, disk)) <==> StatusHolds(codec, disk)
    ensures forall target :: IsReferenced(codec, Pruned(codec, disk), target) <==> IsReferenced(codec, disk, target)
    ensures IndexFiles(Pruned(codec, disk)) == IndexFiles(disk)
  {
    IndexFilesAfterPrune(codec, disk);
    HexIsLong(codec);
    forall target
      ensures IsReferenced(codec, Pruned(codec, disk), target) <==> IsReferenced(codec, disk, target)
    {
      ReferencedAfterPrune(codec, disk, target);
    }
    hide Pruned;
    hide Mentions;
    hide IsVerified;
    hide AllParse;
    hide IsReferenced;
    forall p, name, info
      ensures Mentions(codec, Pruned(codec, disk), p, name, info) <==> Mentions(codec, disk, p, name, info)
    {
      MentionsAfterPrune(codec, disk, p, name, info);
    }
    forall p, name, info | Mentions(codec, disk, p, name, info)
      ensures IsVerified(codec, Pruned(codec, disk), info) <==> IsVerified(codec, disk, info)
    {
      VerifiedAfterPrune(codec, disk, p, name, info);
    }
  }
}
