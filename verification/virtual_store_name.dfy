/**
 * Directory names in the virtual store. The builder makes one pass over the peers; it replaced a chain of four
 * `replace` calls over the whole specifier, which is kept here as the reference.
 */
module VirtualStoreNames {
  import opened Wrappers
  import opened Text
  import opened PkgVerPeers
  import PkgNames
  import PkgNameSuffixes

  /** The reference: four replacements, one after the other, over the printed specifier. */
  function LegacyVirtualStoreName(specifier: PkgNameSuffixes.PkgNameVerPeer): string {
    Legacy(PkgNameSuffixes.Print(specifier))
  }

  function Legacy(text: string): string {
    ReplaceAll(ReplaceAll(ReplaceAll(ReplaceAll(text, "/", "+"), ")(", "_"), "(", "_"), ")", "")
  }

  /** The name the registry gives a package version. */
  function RegistryStoreName(name: string, version: string): string {
    ReplaceAll(name, "/", "+") + "@" + version
  }

  function FlatChar(c: char): string {
    match c
    case '/' => "+"
    case '(' => "_"
    case ')' => ""
    case _ => [c]
  }

  function Flatten(s: string): string {
    if s == [] then [] else FlatChar(s[0]) + Flatten(s[1..])
  }

  function StoreNamePrefix(name: PkgNames.PkgName): string {
    if name.scope.Some? then "@" + name.scope.value + "+" + name.bare else name.bare
  }

  function VirtualStoreName(specifier: PkgNameSuffixes.PkgNameVerPeer): string {
    StoreNamePrefix(specifier.name) + "@" + specifier.suffix.version + Flatten(specifier.suffix.peer)
  }

  method PushVirtualStorePeerSuffix(buf: string, peer: string) returns (result: string)
    ensures result == buf + Flatten(peer)
  {
    result := buf;
    for i := 0 to |peer|
      invariant result == buf + Flatten(peer[..i])
    {
      match peer[i] {
        case '/' => result := result + "+";
        case '(' => result := result + "_";
        case ')' =>
        case ch => result := result + [ch];
      }
      FlattenConcat(peer[..i], [peer[i]]);
      assert peer[..i + 1] == peer[..i] + [peer[i]];
    }
    assert peer[..|peer|] == peer;
  }

  method PushVirtualStoreName(buf: string, name: PkgNames.PkgName) returns (result: string)
    ensures result == buf + StoreNamePrefix(name)
  {
    result := buf;
    if name.scope.Some? {
      result := result + "@";
      result := result + name.scope.value;
      result := result + "+";
    }
    result := result + name.bare;
  }

  /** The single-pass builder agrees with the four replacements wherever the lockfile's names are well formed. */
  method ToVirtualStoreNameFromParts(name: PkgNames.PkgName, verPeer: PkgVerPeer) returns (result: string)
    ensures result == VirtualStoreName(PkgNameSuffixes.PkgNameVerPeer(name, verPeer))
    ensures IsPlain(verPeer.version) ==>
      (result == LegacyVirtualStoreName(PkgNameSuffixes.PkgNameVerPeer(name, verPeer))
       <==> IsFlat(PkgNames.Letters(name)))
  {
    result := PushVirtualStoreName("", name);
    result := result + "@";
    result := result + verPeer.version;
    result := PushVirtualStorePeerSuffix(result, verPeer.peer);
    if IsPlain(verPeer.version) {
      FastEqualsLegacy(PkgNameSuffixes.PkgNameVerPeer(name, verPeer));
    }
  }

  /** Nothing in the text is changed by the replacements. */
  predicate IsFlat(s: string) {
    '/' !in s && '(' !in s && ')' !in s
  }

  lemma {:induction false} FlattenConcat(a: string, b: string)
    ensures Flatten(a + b) == Flatten(a) + Flatten(b)
  {
    if a == [] {
      assert a + b == b;
    } else {
      assert (a + b)[1..] == a[1..] + b;
      FlattenConcat(a[1..], b);
    }
  }

  lemma {:induction false} FlattenIsFlat(s: string)
    ensures IsFlat(Flatten(s))
    ensures IsFlat(s) ==> Flatten(s) == s
  {
    if s != [] {
      FlattenIsFlat(s[1..]);
    }
  }

  lemma ReplaceStep(c: char, rest: string, d: char, to: string)
    ensures ReplaceAll([c] + rest, [d], to) == (if c == d then to else [c]) + ReplaceAll(rest, [d], to)
  {
    var s := [c] + rest;
    assert s[1..] == rest;
    assert ([d] <= s) == (s[0] == d);
  }

  /** The last two replacements, character by character. */
  lemma LastTwoStep(c: char, rest: string)
    ensures ReplaceAll(ReplaceAll([c] + rest, "(", "_"), ")", "")
         == (if c == '(' then "_" else if c == ')' then "" else [c])
            + ReplaceAll(ReplaceAll(rest, "(", "_"), ")", "")
  {
    ReplaceStep(c, rest, '(', "_");
    var next := ReplaceAll(rest, "(", "_");
    ReplaceStep(if c == '(' then '_' else c, next, ')', "");
  }

  /** Collapsing `)(` first makes no difference to the result: the two later replacements would do the same. */
  lemma {:induction false} LegacyTail(s: string)
    requires '/' !in s
    ensures ReplaceAll(ReplaceAll(ReplaceAll(s, ")(", "_"), "(", "_"), ")", "") == Flatten(s)
  {
    if s != [] {
      if ")(" <= s {
        var rest := s[2..];
        assert s[1..][1..] == rest && s[0] == ')' && s[1..][0] == '(';
        LegacyTail(rest);
        LastTwoStep('_', ReplaceAll(rest, ")(", "_"));
        assert Flatten(s) == FlatChar(')') + (FlatChar('(') + Flatten(rest));
      } else {
        LegacyTail(s[1..]);
        LastTwoStep(s[0], ReplaceAll(s[1..], ")(", "_"));
      }
    }
  }

  lemma {:induction false} FlattenAfterSlash(s: string)
    ensures '/' !in ReplaceAll(s, "/", "+")
    ensures Flatten(ReplaceAll(s, "/", "+")) == Flatten(s)
  {
    ReplaceCharRemoves(s, '/', "+");
    if s != [] {
      FlattenAfterSlash(s[1..]);
      assert s == [s[0]] + s[1..];
      ReplaceStep(s[0], s[1..], '/', "+");
      var first := if s[0] == '/' then "+" else [s[0]];
      FlattenConcat(first, ReplaceAll(s[1..], "/", "+"));
    }
  }

  /** The four replacements amount to one replacement per character, on any text. */
  lemma LegacyIsFlatten(s: string)
    ensures Legacy(s) == Flatten(s)
  {
    FlattenAfterSlash(s);
    LegacyTail(ReplaceAll(s, "/", "+"));
  }

  lemma LegacyParts(specifier: PkgNameSuffixes.PkgNameVerPeer)
    requires IsPlain(specifier.suffix.version)
    ensures LegacyVirtualStoreName(specifier)
      == Flatten(PkgNames.Print(specifier.name)) + ("@" + specifier.suffix.version + Flatten(specifier.suffix.peer))
  {
    var name := PkgNames.Print(specifier.name);
    var suffix := PkgVerPeers.Print(specifier.suffix);
    LegacyIsFlatten(name + "@" + suffix);
    hide PkgNames.Print;
    hide Legacy;
    hide Flatten;
    FlattenConcat(name + "@", suffix);
    FlattenConcat(name, "@");
    FlattenConcat(specifier.suffix.version, specifier.suffix.peer);
    FlattenIsFlat(specifier.suffix.version);
    FlattenIsFlat("@");
    AroundAt(Flatten(name), specifier.suffix.version, Flatten(specifier.suffix.peer));
  }

  lemma AroundAt(name: string, version: string, peer: string)
    ensures name + "@" + (version + peer) == name + ("@" + version + peer)
  {
  }

  /** The letters of a name are among the characters of its directory name. */
  lemma FlatPrefix(name: PkgNames.PkgName)
    requires IsFlat(StoreNamePrefix(name))
    ensures IsFlat(PkgNames.Letters(name))
  {
    var prefix := StoreNamePrefix(name);
    if name.scope.Some? {
      assert prefix == "@" + (name.scope.value + ("+" + name.bare));
    }
  }

  lemma FlattenScoped(scope: string, bare: string)
    ensures Flatten("@" + scope + "/" + bare) == "@" + Flatten(scope) + "+" + Flatten(bare)
  {
    FlattenConcat("@" + scope + "/", bare);
    FlattenConcat("@" + scope, "/");
    FlattenConcat("@", scope);
    FlattenIsFlat("@");
    assert Flatten("/") == "+" + Flatten("");
  }

  lemma FlattenName(name: PkgNames.PkgName)
    ensures Flatten(PkgNames.Print(name)) == StoreNamePrefix(name) <==> IsFlat(PkgNames.Letters(name))
  {
    FlattenIsFlat(PkgNames.Print(name));
    if Flatten(PkgNames.Print(name)) == StoreNamePrefix(name) {
      FlatPrefix(name);
    }
    if IsFlat(PkgNames.Letters(name)) {
      FlattenIsFlat(name.bare);
      if name.scope.Some? {
        FlattenScoped(name.scope.value, name.bare);
        FlattenIsFlat(name.scope.value);
      }
    }
  }

  /** The fast form equals the reference exactly for names without `/`, `(` or `)` of their own, whatever the peers. */
  lemma FastEqualsLegacy(specifier: PkgNameSuffixes.PkgNameVerPeer)
    requires IsPlain(specifier.suffix.version)
    ensures VirtualStoreName(specifier) == LegacyVirtualStoreName(specifier)
       <==> IsFlat(PkgNames.Letters(specifier.name))
  {
    LegacyParts(specifier);
    FlattenName(specifier.name);
    hide LegacyVirtualStoreName;
    hide Flatten;
    hide PkgNames.Print;
    hide StoreNamePrefix;
    var tail := "@" + specifier.suffix.version + Flatten(specifier.suffix.peer);
    SamePrefix(Flatten(PkgNames.Print(specifier.name)), StoreNamePrefix(specifier.name), tail);
    assert VirtualStoreName(specifier) == StoreNamePrefix(specifier.name) + tail;
    assert LegacyVirtualStoreName(specifier) == Flatten(PkgNames.Print(specifier.name)) + tail;
  }

  lemma SamePrefix(a: string, b: string, tail: string)
    ensures a + tail == b + tail <==> a == b
  {
    if a + tail == b + tail {
      assert a == (a + tail)[..|a|] == (b + tail)[..|b|] == b;
    }
  }

  /** Without peers the fast form is the registry's own name exactly when only the scope separator is a `/`. */
  lemma FastEqualsRegistry(name: string, version: string)
    requires PkgNames.Parse(name).Ok?
    ensures var parsed := PkgNames.Parse(name).value;
      var specifier := PkgNameSuffixes.PkgNameVerPeer(parsed, PkgVerPeer(version, ""));
      VirtualStoreName(specifier) == RegistryStoreName(name, version) <==> '/' !in parsed.bare
  {
    PkgNames.PrintParse(name);
    var parsed := PkgNames.Parse(name).value;
    RegistryPrefix(parsed);
    var prefix := StoreNamePrefix(parsed);
    assert VirtualStoreName(PkgNameSuffixes.PkgNameVerPeer(parsed, PkgVerPeer(version, "")))
      == prefix + ("@" + version);
    assert RegistryStoreName(name, version) == ReplaceAll(name, "/", "+") + ("@" + version);
    SamePrefix(prefix, ReplaceAll(name, "/", "+"), "@" + version);
  }

  lemma RegistryPrefix(name: PkgNames.PkgName)
    requires PkgNames.IsParsed(name)
    ensures StoreNamePrefix(name) == ReplaceAll(PkgNames.Print(name), "/", "+") <==> '/' !in name.bare
  {
    var printed := PkgNames.Print(name);
    ReplaceCharRemoves(printed, '/', "+");
    ReplaceCharRemoves(name.bare, '/', "+");
    if '/' !in name.bare {
      ReplaceNothing(name.bare, "/", "+");
    }
    if name.scope.Some? {
      var scope := name.scope.value;
      assert printed == "@" + scope + ("/" + name.bare);
      ReplaceCharConcat("@" + scope, "/" + name.bare, '/', "+");
      ReplaceStep('/', name.bare, '/', "+");
      ReplaceNothing("@" + scope, "/", "+");
      var prefix := StoreNamePrefix(name);
      assert forall c :: c in name.bare ==> c in prefix;
    }
  }

  /** A scope and bare name that no separator of the store name can be confused with. */
  predicate IsUnambiguous(name: PkgNames.PkgName) {
    && PkgNames.IsParsed(name)
    && var letters := PkgNames.Letters(name);
       '+' !in letters && '@' !in letters && '/' !in letters
  }

  lemma PrefixShowsScope(name: PkgNames.PkgName)
    requires IsUnambiguous(name)
    ensures StoreNamePrefix(name) != [] && (StoreNamePrefix(name)[0] == '@' <==> name.scope.Some?)
  {
  }

  /** Unambiguous names and plain versions can be read back from the store name. */
  lemma StoreNameInjective(a: PkgNames.PkgName, v: string, b: PkgNames.PkgName, w: string)
    requires IsUnambiguous(a) && IsUnambiguous(b) && '@' !in v && '@' !in w
    requires StoreNamePrefix(a) + "@" + v == StoreNamePrefix(b) + "@" + w
    ensures a == b && v == w
  {
    LastSeparator(StoreNamePrefix(a), v, StoreNamePrefix(b), w);
    PrefixShowsScope(a);
    PrefixShowsScope(b);
    var prefix := StoreNamePrefix(a);
    if a.scope.Some? && b.scope.Some? {
      assert forall c :: c in a.scope.value ==> c in PkgNames.Letters(a);
      assert forall c :: c in b.scope.value ==> c in PkgNames.Letters(b);
      assert prefix[1..] == a.scope.value + ['+'] + a.bare;
      assert prefix[1..] == b.scope.value + ['+'] + b.bare;
      SplitOnceAt(a.scope.value, '+', a.bare);
      SplitOnceAt(b.scope.value, '+', b.bare);
    }
  }

  lemma LastSeparator(p: string, v: string, q: string, w: string)
    requires '@' !in v && '@' !in w
    requires p + "@" + v == q + "@" + w
    ensures p == q && v == w
  {
    var s := p + "@" + v;
    assert s[|p|] == '@' && s[|q|] == '@';
    assert forall i | |p| < i < |s| :: s[i] == v[i - |p| - 1] != '@';
    assert forall i | |q| < i < |s| :: s[i] == w[i - |q| - 1] != '@';
    assert p == s[..|p|] && q == s[..|q|];
    assert v == s[|p| + 1..] && w == s[|q| + 1..];
  }
}
