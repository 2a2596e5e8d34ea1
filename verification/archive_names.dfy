/** The names that files of an archive get: their path below the archive's top directory. */
module ArchiveNames {
  import opened Wrappers
  import opened Text
  import opened StoreLayout
  import opened StoreContents
  import opened StoreByPath

  /** A file in the archive; `checkedAt` is the clock when it is unpacked, `size` what its header says. */
  datatype Entry = Entry(components: seq<string>, mode: bv32, contents: Bytes, checkedAt: Option<nat>,
                         size: Option<nat>)

  function Joined(components: seq<string>): string {
    if components == [] then ""
    else if |components| == 1 then components[0]
    else components[0] + "/" + Joined(components[1..])
  }

  /** The name of a file within its package: the archive's top directory does not count. */
  function CleanedPath(e: Entry): string {
    Joined(if e.components == [] then [] else e.components[1..])
  }

  /** The pieces between slashes. */
  function Split(text: string): (pieces: seq<string>)
    ensures pieces != []
  {
    if text == [] then [""]
    else
      var rest := Split(text[1..]);
      if text[0] == '/' then [""] + rest else [[text[0]] + rest[0]] + rest[1..]
  }

  /** Below the top directory, components are what stands between slashes. */
  predicate HasPlainComponents(e: Entry) {
    forall i | 1 <= i < |e.components| :: '/' !in e.components[i]
  }

  /** The name splits into the components of the entry without the first. */
  predicate IsNameOf(name: string, e: Entry) {
    if |e.components| <= 1 then name == "" else Split(name) == e.components[1..]
  }

  lemma {:induction false} SplitPiece(piece: string, rest: string)
    requires '/' !in piece
    ensures Split(piece) == [piece]
    ensures Split(piece + "/" + rest) == [piece] + Split(rest)
  {
    var text := piece + "/" + rest;
    if piece == [] {
      assert text[1..] == rest;
    } else {
      SplitPiece(piece[1..], rest);
      assert text[1..] == piece[1..] + "/" + rest;
      assert piece == [piece[0]] + piece[1..];
    }
  }

  lemma {:induction false} SplitJoined(components: seq<string>)
    requires components != [] && forall i | 0 <= i < |components| :: '/' !in components[i]
    ensures Split(Joined(components)) == components
  {
    if |components| == 1 {
      SplitPiece(components[0], "");
    } else {
      SplitPiece(components[0], Joined(components[1..]));
      SplitJoined(components[1..]);
    }
  }

  lemma {:induction false} JoinedSplit(text: string)
    ensures Joined(Split(text)) == text
  {
    if text != [] {
      var rest := Split(text[1..]);
      JoinedSplit(text[1..]);
      var pieces := Split(text);
      if text[0] == '/' {
        assert pieces[1..] == rest;
      } else {
        assert pieces[1..] == rest[1..];
      }
    }
  }

  /** With components as paths have them, the cleaned path is the one name that splits in this way. */
  lemma NameIsCleanedPath(name: string, e: Entry)
    requires HasPlainComponents(e)
    ensures IsNameOf(name, e) <==> name == CleanedPath(e)
  {
    if |e.components| > 1 {
      var below := e.components[1..];
      assert forall i | 0 <= i < |below| :: '/' !in below[i] by {
        assert forall i | 0 <= i < |below| :: below[i] == e.components[i + 1];
      }
      SplitJoined(below);
      JoinedSplit(name);
    }
  }

  /** Of the entries with this name, entry `i` comes last. */
  predicate IsLastNamed(entries: seq<Entry>, i: nat, name: string) {
    i < |entries| && IsNameOf(name, entries[i]) && forall j | i < j < |entries| :: !IsNameOf(name, entries[j])
  }

  /** What unpacking returns: for each name the place of the contents that its last entry has. */
  ghost predicate IsUnpacked(codec: Codec, entries: seq<Entry>, paths: map<string, Path>) {
    && (forall name :: name in paths <==> exists i :: 0 <= i < |entries| && IsNameOf(name, entries[i]))
    && forall name, i: nat :: IsLastNamed(entries, i, name) ==>
         name in paths && StandsFor(paths[name], codec.digest(entries[i].contents), entries[i].mode)
  }

  /** What the index says: for each name the hash of its last entry, the mode, the clock and the size. */
  ghost predicate IsIndexed(codec: Codec, entries: seq<Entry>, index: FilesIndex) {
    && (forall name :: name in index <==> exists i :: 0 <= i < |entries| && IsNameOf(name, entries[i]))
    && forall name, i: nat :: IsLastNamed(entries, i, name) ==>
         && name in index
         && codec.hexOf(index[name].integrity) == Some(codec.digest(entries[i].contents))
         && index[name].mode == entries[i].mode
         && index[name].checkedAt == entries[i].checkedAt
         && index[name].size == entries[i].size
  }

  /** The archives differ in the name of the top directory at most. */
  predicate SameBelowTop(entries: seq<Entry>, others: seq<Entry>) {
    && |entries| == |others|
    && forall i | 0 <= i < |entries| :: SameEntryBelowTop(entries[i], others[i])
  }

  predicate SameEntryBelowTop(e: Entry, f: Entry) {
    && |e.components| == |f.components|
    && (forall i | 1 <= i < |e.components| :: e.components[i] == f.components[i])
    && e.mode == f.mode && e.contents == f.contents && e.checkedAt == f.checkedAt && e.size == f.size
  }

  lemma SameName(e: Entry, f: Entry)
    requires SameEntryBelowTop(e, f)
    ensures CleanedPath(e) == CleanedPath(f)
  {
    if e.components != [] {
      assert e.components[1..] == f.components[1..];
    }
  }
}
