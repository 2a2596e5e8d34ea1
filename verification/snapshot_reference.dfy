/**
 * References from one snapshot to another. The lockfile stores them untagged, so reading one means trying two
 * parsers in turn; the lockfile tries the version first, the fetch command tries the key first.
 */
module SnapshotReferences {
  import opened Wrappers
  import opened Text
  import opened PkgVerPeers
  import PkgNameSuffixes
  import PkgNames
  import opened DependencyPaths

  datatype PackageSnapshotDependency = PkgVerPeerRef(verPeer: PkgVerPeer) | DependencyPathRef(path: DependencyPath)

  function Print(reference: PackageSnapshotDependency): string {
    match reference
    case PkgVerPeerRef(verPeer) => PkgVerPeers.Print(verPeer)
    case DependencyPathRef(path) => DependencyPaths.Print(path)
  }

  predicate IsParsed(semver: Semver, reference: PackageSnapshotDependency) {
    match reference
    case PkgVerPeerRef(verPeer) => PkgVerPeers.IsParsed(semver, verPeer)
    case DependencyPathRef(path) => DependencyPaths.IsParsed(semver, path)
  }

  /** The order of the untagged enumeration. */
  function Decode(semver: Semver, s: string): Option<PackageSnapshotDependency> {
    match PkgVerPeers.Parse(semver, s)
    case Ok(verPeer) => Some(PkgVerPeerRef(verPeer))
    case Err(_) =>
      match DependencyPaths.Parse(semver, s)
      case Ok(path) => Some(DependencyPathRef(path))
      case Err(_) => None
  }

  /** The order in which the fetch command reads an optional dependency. */
  function DecodePathFirst(semver: Semver, s: string): Option<PackageSnapshotDependency> {
    match DependencyPaths.Parse(semver, s)
    case Ok(path) => Some(DependencyPathRef(path))
    case Err(_) =>
      match PkgVerPeers.Parse(semver, s)
      case Ok(verPeer) => Some(PkgVerPeerRef(verPeer))
      case Err(_) => None
  }

  /** A registry that reads as a version with an opened peer group, on a key that has peers to close it. */
  predicate ReadsAsVersion(semver: Semver, path: DependencyPath) {
    var registry := RegistryText(path);
    && '(' in registry
    && semver(registry[..Find(registry, '(')]).Some?
    && path.packageSpecifier.suffix.peer != []
  }

  lemma PathText(semver: Semver, path: DependencyPath)
    requires SemverLibrary(semver)
    requires DependencyPaths.IsParsed(semver, path)
    ensures var verPeer := path.packageSpecifier.suffix;
      var before := RegistryText(path) + ['/'] + (PkgNames.Print(path.packageSpecifier.name) + "@");
      && DependencyPaths.Print(path) == before + (verPeer.version + verPeer.peer)
      && (EndsWith(DependencyPaths.Print(path), ')') <==> verPeer.peer != [])
  {
    var verPeer := path.packageSpecifier.suffix;
    PrintShape(path);
    var name := PkgNames.Print(path.packageSpecifier.name);
    assert RegistryText(path) + ['/'] + (name + "@") == RegistryText(path) + "/" + name + "@";
    assert IsSoundOn(semver, verPeer.version);
    var text := DependencyPaths.Print(path);
    if verPeer.peer == [] {
      assert text[|text| - 1] == verPeer.version[|verPeer.version| - 1];
    } else {
      assert text[|text| - 1] == verPeer.peer[|verPeer.peer| - 1];
    }
  }

  /** A `/` before the first parenthesis cannot be part of a version. */
  lemma SlashIsNoVersion(semver: Semver, registry: string, rest: string)
    requires SemverLibrary(semver) && '(' !in registry
    ensures PkgVerPeers.Parse(semver, registry + ['/'] + rest).Err?
  {
    var text := registry + ['/'] + rest;
    assert text[|registry|] == '/';
    assert IsSoundOn(semver, text);
    var opening := Find(text, '(');
    FindShape(text, '(');
    assert IsSoundOn(semver, text[..opening]);
    assert forall i | 0 <= i <= |registry| :: text[i] != '(';
    assert opening < |text| ==> text[..opening][|registry|] == '/';
  }

  /** The part before the first parenthesis decides, and the text must end by closing one. */
  lemma ParenthesisInRegistry(semver: Semver, registry: string, rest: string)
    requires '(' in registry
    ensures PkgVerPeers.Parse(semver, registry + ['/'] + rest).Ok?
       <==> EndsWith(registry + ['/'] + rest, ')') && semver(registry[..Find(registry, '(')]).Some?
  {
    var text := registry + ['/'] + rest;
    FindShape(registry, '(');
    var n := Find(registry, '(');
    assert registry[..n] + ['('] + registry[n + 1..] == registry || n == |registry|;
    assert registry[..|registry|] == registry;
    assert text == registry[..n] + ['('] + text[n + 1..];
    FindAt(registry[..n], '(', text[n + 1..]);
    assert text[..n] == registry[..n];
    assert text[n] == '(';
  }

  /** When the version parser takes over a printed key. */
  lemma PathAcceptedAsVersion(semver: Semver, path: DependencyPath)
    requires SemverLibrary(semver)
    requires DependencyPaths.IsParsed(semver, path)
    ensures PkgVerPeers.Parse(semver, DependencyPaths.Print(path)).Ok? <==> ReadsAsVersion(semver, path)
  {
    hide PkgVerPeers.Parse;
    hide EndsWith;
    hide Find;
    hide PkgNames.Print;
    PathText(semver, path);
    hide DependencyPaths.Print;
    hide DependencyPaths.IsParsed;
    var registry := RegistryText(path);
    var verPeer := path.packageSpecifier.suffix;
    var rest := PkgNames.Print(path.packageSpecifier.name) + "@" + (verPeer.version + verPeer.peer);
    assert DependencyPaths.Print(path) == registry + ['/'] + rest;
    if '(' in registry {
      ParenthesisInRegistry(semver, registry, rest);
    } else {
      SlashIsNoVersion(semver, registry, rest);
    }
  }

  /**
   * A reference survives printing and reading exactly when it is not a key whose registry reads as a version;
   * in particular every reference whose registry holds no `(` survives.
   */
  lemma DecodePrint(semver: Semver, reference: PackageSnapshotDependency)
    requires SemverLibrary(semver)
    requires IsParsed(semver, reference)
    ensures Decode(semver, Print(reference)) == Some(reference)
       <==> !(reference.DependencyPathRef? && ReadsAsVersion(semver, reference.path))
  {
    hide PkgVerPeers.Parse;
    hide DependencyPaths.Parse;
    match reference
    case PkgVerPeerRef(verPeer) => PkgVerPeers.ParsePrint(semver, verPeer);
    case DependencyPathRef(path) =>
      PathAcceptedAsVersion(semver, path);
      DependencyPaths.ParsePrint(semver, path);
  }

  /** Peer text made of parenthesised groups, none inside another. */
  predicate IsUnnested(peer: string) {
    if peer == [] then true
    else
      var closing := Find(peer, ')');
      peer[0] == '(' && closing < |peer| && '(' !in peer[1..closing] && IsUnnested(peer[closing + 1..])
  }

  /** Inside an unnested group the next parenthesis is the one that closes it. */
  lemma {:induction false} NextParenthesisCloses(peer: string, i: nat)
    requires IsUnnested(peer) && i < |peer| && peer[i] != '(' && peer[i] != ')'
    ensures EndsWith(peer[i + 1..], ')')
    ensures var tail := peer[i + 1..];
      ')' in tail[..Find(tail, '(')]
  {
    var closing := Find(peer, ')');
    FindShape(peer, ')');
    var tail := peer[i + 1..];
    FindShape(tail, '(');
    if i < closing {
      var k := closing - (i + 1);
      assert tail[k] == ')';
      assert forall j | 0 <= j < k :: tail[j] == peer[1..closing][i + j] != '(';
      assert k < Find(tail, '(');
      assert tail[..Find(tail, '(')][k] == ')';
      UnnestedEnds(peer);
    } else {
      NextParenthesisCloses(peer[closing + 1..], i - (closing + 1));
      assert peer[closing + 1..][i - (closing + 1) + 1..] == tail;
    }
  }

  lemma {:induction false} UnnestedEnds(peer: string)
    requires IsUnnested(peer) && peer != []
    ensures EndsWith(peer, ')')
  {
    var closing := Find(peer, ')');
    FindShape(peer, ')');
    if closing + 1 < |peer| {
      UnnestedEnds(peer[closing + 1..]);
    }
  }

  /** A suffix that closes a parenthesis before opening one is no version with peers. */
  lemma ClosedEarly(semver: Semver, suffix: string)
    requires SemverLibrary(semver)
    requires EndsWith(suffix, ')') && ')' in suffix[..Find(suffix, '(')]
    ensures PkgVerPeers.Parse(semver, suffix).Err?
  {
    assert IsSoundOn(semver, suffix[..Find(suffix, '(')]);
  }

  /** Behind the first `/` of the peer text a package specifier can be read. */
  predicate HoldsSpecifier(semver: Semver, peer: string) {
    SplitOnce(peer, '/').Some? && PkgNameSuffixes.Parse(semver, SplitOnce(peer, '/').value.1).Ok?
  }

  /** With no `/` in the version, the first one in its peer text ends what is read as a registry. */
  lemma SplitInPeer(spelling: string, peer: string)
    requires '/' !in spelling
    ensures SplitOnce(spelling + peer, '/').Some? <==> SplitOnce(peer, '/').Some?
    ensures SplitOnce(peer, '/').Some? ==>
      var (before, rest) := SplitOnce(peer, '/').value;
      SplitOnce(spelling + peer, '/') == Some((spelling + before, rest))
  {
    SplitOnceShape(spelling + peer, '/');
    SplitOnceShape(peer, '/');
    if SplitOnce(peer, '/').Some? {
      var (before, rest) := SplitOnce(peer, '/').value;
      assert spelling + peer == spelling + before + ['/'] + rest;
      SplitOnceAt(spelling + before, '/', rest);
    }
  }

  /** When a key can be read out of a version with peers, and which. */
  lemma PathInPeer(semver: Semver, spelling: string, peer: string)
    requires spelling != [] && '/' !in spelling
    ensures DependencyPaths.Parse(semver, spelling + peer).Ok? <==> HoldsSpecifier(semver, peer)
    ensures HoldsSpecifier(semver, peer) ==>
      var (before, rest) := SplitOnce(peer, '/').value;
      DependencyPaths.Parse(semver, spelling + peer)
        == Ok(DependencyPath(Some(spelling + before), PkgNameSuffixes.Parse(semver, rest).value))
  {
    hide SplitOnce;
    hide PkgNameSuffixes.Parse;
    SplitInPeer(spelling, peer);
  }

  /**
   * The two reading orders disagree on a text exactly when it is a version whose peer text holds a package
   * specifier behind its first `/`; the fetch command then sees a key in a registry that begins with the version.
   */
  lemma OrdersAgreeExactly(semver: Semver, s: string)
    requires SemverLibrary(semver)
    ensures DecodePathFirst(semver, s) == Decode(semver, s) <==>
      !(PkgVerPeers.Parse(semver, s).Ok? && HoldsSpecifier(semver, PkgVerPeers.Parse(semver, s).value.peer))
  {
    hide DependencyPaths.Parse;
    hide PkgVerPeers.Parse;
    hide HoldsSpecifier;
    if PkgVerPeers.Parse(semver, s).Ok? {
      var spelling := PkgVerPeers.ParseShape(semver, s);
      assert IsSoundOn(semver, spelling);
      PathInPeer(semver, spelling, PkgVerPeers.Parse(semver, s).value.peer);
    }
  }

  lemma Regrouped(peer: string, before: string, specifier: string, name: string, suffix: string)
    requires peer == before + ['/'] + specifier && specifier == name + ("@" + suffix)
    ensures peer == before + ['/'] + name + ['@'] + suffix
  {
    assert before + ['/'] + (name + ("@" + suffix)) == before + ['/'] + name + ['@'] + suffix;
  }

  lemma SuffixOfPeer(peer: string, before: string, suffix: string)
    requires IsUnnested(peer) && peer == before + ['@'] + suffix
    ensures EndsWith(suffix, ')')
    ensures ')' in suffix[..Find(suffix, '(')]
  {
    assert peer[|before|] == '@';
    assert peer[|before| + 1..] == suffix;
    NextParenthesisCloses(peer, |before|);
  }

  /** No package specifier can be read out of unnested peers. */
  lemma UnnestedHoldsNoSpecifier(semver: Semver, peer: string)
    requires SemverLibrary(semver) && IsUnnested(peer)
    ensures !HoldsSpecifier(semver, peer)
  {
    hide PkgVerPeers.Parse;
    hide PkgNames.Parse;
    hide PkgNameSuffixes.SplitName;
    hide SplitOnce;
    hide IsUnnested;
    hide EndsWith;
    SplitOnceShape(peer, '/');
    if SplitOnce(peer, '/').Some? {
      var (before, specifier) := SplitOnce(peer, '/').value;
      if specifier != [] && PkgNameSuffixes.SplitName(specifier).Some? {
        var (name, suffix) := PkgNameSuffixes.SplitName(specifier).value;
        PkgNameSuffixes.SplitNameShape(specifier);
        Regrouped(peer, before, specifier, name, suffix);
        SuffixOfPeer(peer, before + ['/'] + name, suffix);
        ClosedEarly(semver, suffix);
      }
    }
  }

  /** A version with unnested peers is never also a key, so the two reading orders agree on it. */
  lemma AtMostOneParser(semver: Semver, s: string)
    requires SemverLibrary(semver)
    requires PkgVerPeers.Parse(semver, s).Ok?
    requires IsUnnested(PkgVerPeers.Parse(semver, s).value.peer)
    ensures DependencyPaths.Parse(semver, s).Err?
    ensures DecodePathFirst(semver, s) == Decode(semver, s)
  {
    hide DependencyPaths.Parse;
    hide HoldsSpecifier;
    UnnestedHoldsNoSpecifier(semver, PkgVerPeers.Parse(semver, s).value.peer);
    OrdersAgreeExactly(semver, s);
  }

  lemma NestedText(scope: string, bare: string, w: string, inner: string)
    ensures "(@" + scope + "/" + bare + "@" + w + "(" + inner
      == ("(@" + scope) + ['/'] + (bare + "@" + (w + ("(" + inner)))
  {
  }

  lemma HeldSpecifier(semver: Semver, bare: string, w: string, inner: string)
    requires SemverLibrary(semver) && IsCanonical(semver, w)
    requires '@' !in bare && bare != [] && EndsWith(inner, ')')
    ensures PkgNameSuffixes.Parse(semver, bare + "@" + (w + ("(" + inner)))
      == Ok(PkgNameSuffixes.PkgNameVerPeer(PkgNames.PkgName(None, bare), PkgVerPeer(w, "(" + inner)))
  {
    hide PkgNameSuffixes.Parse;
    var peer := "(" + inner;
    assert peer[|peer| - 1] == inner[|inner| - 1];
    PkgNameSuffixes.ParsePrint(semver,
      PkgNameSuffixes.PkgNameVerPeer(PkgNames.PkgName(None, bare), PkgVerPeer(w, peer)));
  }

  /** The specifier held by a scoped peer that has peers of its own. */
  lemma NestedPeerHoldsSpecifier(semver: Semver, scope: string, bare: string, w: string, inner: string)
    requires SemverLibrary(semver) && IsCanonical(semver, w)
    requires '/' !in scope && '@' !in bare && bare != [] && EndsWith(inner, ')')
    ensures var peer := "(@" + scope + "/" + bare + "@" + w + "(" + inner;
      var rest := bare + "@" + (w + ("(" + inner));
      && SplitOnce(peer, '/') == Some(("(@" + scope, rest))
      && PkgNameSuffixes.Parse(semver, rest)
        == Ok(PkgNameSuffixes.PkgNameVerPeer(PkgNames.PkgName(None, bare), PkgVerPeer(w, "(" + inner)))
  {
    hide *;
    NestedText(scope, bare, w, inner);
    SplitOnceAt("(@" + scope, '/', bare + "@" + (w + ("(" + inner)));
    HeldSpecifier(semver, bare, w, inner);
  }

  lemma VerPeerText(v: string, peer: string)
    ensures PkgVerPeers.Print(PkgVerPeer(v, peer)) == v + peer
  {
  }

  /**
   * A scoped peer that has peers of its own makes the text readable both ways: the lockfile sees version `v`,
   * the fetch command sees a key in registry `v(@scope`.
   */
  lemma NestedPeerIsReadBothWays(semver: Semver, v: string, scope: string, bare: string, w: string, inner: string)
    requires SemverLibrary(semver)
    requires IsCanonical(semver, v) && IsCanonical(semver, w)
    requires '/' !in scope && '@' !in bare && bare != [] && EndsWith(inner, ')')
    ensures var peer := "(@" + scope + "/" + bare + "@" + w + "(" + inner;
      var path := DependencyPath(Some(v + ("(@" + scope)),
        PkgNameSuffixes.PkgNameVerPeer(PkgNames.PkgName(None, bare), PkgVerPeer(w, "(" + inner)));
      && Decode(semver, v + peer) == Some(PkgVerPeerRef(PkgVerPeer(v, peer)))
      && DecodePathFirst(semver, v + peer) == Some(DependencyPathRef(path))
  {
    hide PkgVerPeers.Parse;
    hide DependencyPaths.Parse;
    hide PkgNameSuffixes.Parse;
    hide PkgVerPeers.Print;
    hide SplitOnce;
    var peer := "(@" + scope + "/" + bare + "@" + w + "(" + inner;
    assert IsSoundOn(semver, v);
    assert EndsWith(peer, ')') by {
      assert peer[|peer| - 1] == inner[|inner| - 1];
    }
    VerPeerText(v, peer);
    PkgVerPeers.ParsePrint(semver, PkgVerPeer(v, peer));
    NestedPeerHoldsSpecifier(semver, scope, bare, w, inner);
    PathInPeer(semver, v, peer);
  }
}
