/**
 * One codec that meets what the store asks of hashing, integrities and index files. It writes everything as numbers,
 * and a number as that many ones with a zero behind them.
 */
module PlainCodec {
  import opened Wrappers
  import opened StoreLayout

  function PutNumber(n: nat, rest: Bytes): Bytes {
    if n == 0 then [0] + rest else [1] + PutNumber(n - 1, rest)
  }

  lemma {:induction false} NumberReads(n: nat, rest: Bytes, n': nat, rest': Bytes)
    requires PutNumber(n, rest) == PutNumber(n', rest')
    ensures n == n' && rest == rest'
  {
    var a, b := PutNumber(n, rest), PutNumber(n', rest');
    assert a[0] == b[0] && a[1..] == b[1..];
    if n == 0 {
      assert a[1..] == rest;
      assert n' == 0 && b[1..] == rest';
    } else {
      assert a[1..] == PutNumber(n - 1, rest);
      assert n' > 0 && b[1..] == PutNumber(n' - 1, rest');
      NumberReads(n - 1, rest, n' - 1, rest');
    }
  }

  function PutNumbers(ns: seq<nat>): Bytes {
    if ns == [] then [] else PutNumber(ns[0], PutNumbers(ns[1..]))
  }

  lemma {:induction false} NumbersRead(ns: seq<nat>, ns': seq<nat>)
    requires PutNumbers(ns) == PutNumbers(ns')
    ensures ns == ns'
  {
    if ns != [] && ns' != [] {
      NumberReads(ns[0], PutNumbers(ns[1..]), ns'[0], PutNumbers(ns'[1..]));
      NumbersRead(ns[1..], ns'[1..]);
      assert ns == [ns[0]] + ns[1..] && ns' == [ns'[0]] + ns'[1..];
    }
  }

  function PutText(s: string, rest: seq<nat>): seq<nat> {
    [|s|] + seq(|s|, i requires 0 <= i < |s| => s[i] as nat) + rest
  }

  lemma TextReads(s: string, rest: seq<nat>, s': string, rest': seq<nat>)
    requires PutText(s, rest) == PutText(s', rest')
    ensures s == s' && rest == rest'
  {
    var a, b := PutText(s, rest), PutText(s', rest');
    assert |s| == a[0] == b[0] == |s'|;
    assert forall i | 0 <= i < |s| :: s[i] as nat == a[i + 1] == b[i + 1] == s'[i] as nat;
    assert rest == a[|s| + 1..] == b[|s| + 1..] == rest';
  }

  function OptionNumber(n: Option<nat>): nat {
    if n.None? then 0 else n.value + 1
  }

  function PutItem(name: string, info: PackageFileInfo, rest: seq<nat>): seq<nat> {
    PutText(name, PutText(info.integrity,
      [OptionNumber(info.checkedAt), info.mode as nat, OptionNumber(info.size)] + rest))
  }

  lemma ItemReads(name: string, info: PackageFileInfo, rest: seq<nat>, name': string, info': PackageFileInfo,
                  rest': seq<nat>)
    requires PutItem(name, info, rest) == PutItem(name', info', rest')
    ensures name == name' && info == info' && rest == rest'
  {
    var a := [OptionNumber(info.checkedAt), info.mode as nat, OptionNumber(info.size)] + rest;
    var b := [OptionNumber(info'.checkedAt), info'.mode as nat, OptionNumber(info'.size)] + rest';
    TextReads(name, PutText(info.integrity, a), name', PutText(info'.integrity, b));
    TextReads(info.integrity, a, info'.integrity, b);
    assert a[0] == b[0] && a[1] == b[1] && a[2] == b[2];
    assert rest == a[3..] == b[3..] == rest';
    ModeReads(info.mode, info'.mode);
  }

  lemma ModeSurvives(mode: bv32)
    ensures (mode as nat) as bv32 == mode
  {
  }

  lemma ModeReads(mode: bv32, mode': bv32)
    requires mode as nat == mode' as nat
    ensures mode == mode'
  {
    ModeSurvives(mode);
    ModeSurvives(mode');
  }

  ghost function PutIndex(index: FilesIndex): seq<nat>
    decreases |index|
  {
    if index == map[] then []
    else
      var name :| name in index;
      assert |(index - {name}).Keys| < |index.Keys|;
      PutItem(name, index[name], PutIndex(index - {name}))
  }

  lemma PutFirst(index: FilesIndex) returns (name: string)
    requires index != map[]
    ensures name in index && PutIndex(index) == PutItem(name, index[name], PutIndex(index - {name}))
    ensures |index - {name}| < |index|
    ensures index == (index - {name})[name := index[name]]
    ensures PutIndex(index) != []
  {
    hide PutItem;
    name :| name in index && PutIndex(index) == PutItem(name, index[name], PutIndex(index - {name}));
    assert |(index - {name}).Keys| < |index.Keys|;
    ItemIsSomething(name, index[name], PutIndex(index - {name}));
  }

  lemma ItemIsSomething(name: string, info: PackageFileInfo, rest: seq<nat>)
    ensures PutItem(name, info, rest) != []
  {
  }

  lemma {:induction false} IndexReads(index: FilesIndex, index': FilesIndex)
    requires PutIndex(index) == PutIndex(index')
    ensures index == index'
    decreases |index|
  {
    if index == map[] && index' == map[] {
    } else if index == map[] {
      var _ := PutFirst(index');
    } else if index' == map[] {
      var _ := PutFirst(index);
    } else {
      var name := PutFirst(index);
      var name' := PutFirst(index');
      hide PutIndex;
      hide PutItem;
      ItemReads(name, index[name], PutIndex(index - {name}), name', index'[name'], PutIndex(index' - {name'}));
      IndexReads(index - {name}, index' - {name});
    }
  }

  ghost function Encode(index: FilesIndex): Bytes {
    PutNumbers(PutIndex(index))
  }

  ghost function Decode(contents: Bytes): Option<FilesIndex> {
    if exists index :: Encode(index) == contents then
      var index :| Encode(index) == contents;
      Some(index)
    else None
  }

  ghost function Plain(): Codec {
    Codec(
      _ => "00",
      hex => hex,
      text => if IsHex(text) then Some(text) else None,
      index => Encode(index),
      contents => Decode(contents))
  }

  /** What is assumed of a codec can be met. */
  lemma PlainIsSound()
    ensures Plain().IsSound()
  {
    forall index: FilesIndex
      ensures Decode(Encode(index)) == Some(index)
    {
      var read := Decode(Encode(index)).value;
      assert Encode(read) == Encode(index);
      NumbersRead(PutIndex(read), PutIndex(index));
      IndexReads(read, index);
    }
  }
}
