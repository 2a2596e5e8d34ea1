/**
 * The content-addressed store as a map from paths to contents. Hashing, and the reading and writing of integrities
 * and index files, are done by libraries, of which only what `IsSound` says is used.
 */
module StoreLayout {
  import opened Wrappers
  import opened Text

  newtype byte = x: int | 0 <= x < 256
  type Bytes = seq<byte>

  /** A path by its components, from the root of the store. */
  type Path = seq<string>
  type Disk = map<Path, Bytes>

  datatype PackageFileInfo = PackageFileInfo(checkedAt: Option<nat>, integrity: string, mode: bv32, size: Option<nat>)

  type FilesIndex = map<string, PackageFileInfo>

  /**
   * `digest` is the hash of a file in hexadecimal, `integrityOf` the integrity text of such a hash, and
   * `hexOf` reads an integrity text back; `encode` and `decode` write and read index files.
   */
  datatype Codec = Codec(
    digest: Bytes -> string,
    integrityOf: string -> string,
    hexOf: string -> Option<string>,
    encode: FilesIndex -> Bytes,
    decode: Bytes -> Option<FilesIndex>)
  {
    ghost predicate IsSound() {
      && (forall contents :: IsHex(digest(contents)))
      && (forall hex :: IsHex(hex) ==> hexOf(integrityOf(hex)) == Some(hex))
      && (forall text :: hexOf(text).Some? ==> IsHex(hexOf(text).value))
      && (forall index :: decode(encode(index)) == Some(index))
    }
  }

  predicate IsHexDigit(c: char) { '0' <= c <= '9' || 'a' <= c <= 'f' }

  predicate IsHex(s: string) {
    |s| >= 2 && forall i | 0 <= i < |s| :: IsHexDigit(s[i])
  }

  const EXEC_MASK: bv32 := 0x49

  predicate IsAllExec(mode: bv32) { mode & EXEC_MASK == EXEC_MASK }

  const FILES: Path := ["v3", "files"]
  const TMP: Path := ["v3", "tmp"]

  /** The first two digits name a directory, the rest and the suffix the file in it. */
  function FilePathByHexStr(hex: string, suffix: string): Path
    requires |hex| >= 2
  {
    FILES + [hex[..2], hex[2..] + suffix]
  }

  function CasSuffix(executable: bool): string {
    if executable then "-exec" else ""
  }

  function CasFilePath(hex: string, executable: bool): Path
    requires |hex| >= 2
  {
    FilePathByHexStr(hex, CasSuffix(executable))
  }

  function IndexFilePath(hex: string): Path
    requires |hex| >= 2
  {
    FilePathByHexStr(hex, "-index.json")
  }

  predicate IsIndexName(name: string) {
    |name| >= 11 && name[|name| - 11..] == "-index.json"
  }

  /** A file two levels below `files`, where the store keeps its own. */
  predicate IsStoreFile(p: Path) {
    |p| == 4 && p[..2] == FILES
  }

  predicate IsIndexFile(p: Path) {
    IsStoreFile(p) && IsIndexName(p[3])
  }

  predicate IsCasFile(p: Path) {
    IsStoreFile(p) && !IsIndexName(p[3])
  }

  predicate IsInTmp(p: Path) {
    |p| >= 3 && p[..2] == TMP
  }

  /** Create the file unless it is there. */
  function Ensured(disk: Disk, p: Path, contents: Bytes): Disk {
    if p in disk then disk else disk[p := contents]
  }

  /** The suffix of an address begins with the first dash. */
  lemma DashIsFirst(a: string, s: string)
    requires '-' !in a && (s == [] || s[0] == '-')
    ensures Find(a + s, '-') == |a|
  {
    if s == [] {
      assert a + s == a;
      FindShape(a, '-');
    } else {
      assert a + s == a + ['-'] + s[1..];
      FindAt(a, '-', s[1..]);
    }
  }

  lemma TailsDiffer(a: string, s: string, b: string, t: string)
    requires '-' !in a && '-' !in b
    requires (s == [] || s[0] == '-') && (t == [] || t[0] == '-')
    requires a + s == b + t
    ensures a == b && s == t
  {
    DashIsFirst(a, s);
    DashIsFirst(b, t);
    assert a == (a + s)[..|a|] == (b + t)[..|b|] == b;
    assert s == (a + s)[|a|..] == (b + t)[|b|..] == t;
  }

  predicate IsSuffix(s: string) {
    s in {"", "-exec", "-index.json"}
  }

  /** Plain, executable and index addresses never meet, and each address belongs to one hash. */
  lemma AddressesDiffer(hex: string, suffix: string, hex': string, suffix': string)
    requires IsHex(hex) && IsHex(hex') && IsSuffix(suffix) && IsSuffix(suffix')
    requires FilePathByHexStr(hex, suffix) == FilePathByHexStr(hex', suffix')
    ensures hex == hex' && suffix == suffix'
  {
    var p, q := FilePathByHexStr(hex, suffix), FilePathByHexStr(hex', suffix');
    assert p[2] == hex[..2] && p[3] == hex[2..] + suffix;
    assert q[2] == hex'[..2] && q[3] == hex'[2..] + suffix';
    TailsDiffer(hex[2..], suffix, hex'[2..], suffix');
    assert hex == hex[..2] + hex[2..] && hex' == hex'[..2] + hex'[2..];
  }

  /** An address is a store file, and an index file exactly when it is the address of an index. */
  lemma AddressKind(hex: string, suffix: string)
    requires IsHex(hex) && IsSuffix(suffix)
    ensures IsStoreFile(FilePathByHexStr(hex, suffix))
    ensures IsIndexFile(FilePathByHexStr(hex, suffix)) <==> suffix == "-index.json"
  {
    var p := FilePathByHexStr(hex, suffix);
    var name := p[3];
    assert p[..2] == FILES;
    assert name == hex[2..] + suffix;
    assert |name| >= |suffix| && name[|name| - |suffix|..] == suffix;
    if suffix == "-exec" {
      assert name[|name| - 1] == suffix[4] == 'c';
      assert |name| >= 11 ==> name[|name| - 11..][10] == name[|name| - 1];
    } else if suffix == "" {
      assert name == hex[2..];
      assert |name| >= 11 ==> name[|name| - 11..][0] == hex[2..][|name| - 11];
    }
  }
}
