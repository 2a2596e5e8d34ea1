/** Keys of the lockfile's `packages` map: `{registry}/{name}@{version}{peer}`. */
module DependencyPaths {
  import opened Wrappers
  import opened Text
  import opened PkgVerPeers
  import PkgNameSuffixes
  import PkgNames

  datatype DependencyPath =
    DependencyPath(customRegistry: Option<string>, packageSpecifier: PkgNameSuffixes.PkgNameVerPeer)

  datatype ParseDependencyPathError =
    | InvalidSyntax
    | ParsePackageSpecifierFailure(error: PkgNameSuffixes.ParseError)

  function Parse(semver: Semver, s: string): (r: Result<DependencyPath, ParseDependencyPathError>)
  {
    match SplitOnce(s, '/')
    case None => Err(InvalidSyntax)
    case Some((registry, specifier)) =>
      var customRegistry := if registry == [] then None else Some(registry);
      match PkgNameSuffixes.Parse(semver, specifier)
      case Err(error) => Err(ParsePackageSpecifierFailure(error))
      case Ok(packageSpecifier) => Ok(DependencyPath(customRegistry, packageSpecifier))
  }

  function RegistryText(path: DependencyPath): string {
    if path.customRegistry.Some? then path.customRegistry.value else ""
  }

  function Print(path: DependencyPath): string {
    RegistryText(path) + "/" + PkgNameSuffixes.Print(path.packageSpecifier)
  }

  /** The values a parse can produce. */
  predicate IsParsed(semver: Semver, path: DependencyPath) {
    && path.customRegistry != Some("")
    && '/' !in RegistryText(path)
    && PkgNameSuffixes.IsParsed(semver, path.packageSpecifier)
  }

  /** The part of a key before its version. */
  function BeforeVersion(path: DependencyPath): string {
    RegistryText(path) + "/" + PkgNames.Print(path.packageSpecifier.name) + "@"
  }

  lemma PrintShape(path: DependencyPath)
    ensures var verPeer := path.packageSpecifier.suffix;
      Print(path) == BeforeVersion(path) + (verPeer.version + verPeer.peer)
  {
    var name := PkgNames.Print(path.packageSpecifier.name);
    var suffix := PkgVerPeers.Print(path.packageSpecifier.suffix);
    Regroup(RegistryText(path), name, suffix);
  }

  lemma Regroup(registry: string, name: string, suffix: string)
    ensures registry + "/" + (name + "@" + suffix) == registry + "/" + name + "@" + suffix
  {
  }

  lemma ParseParts(semver: Semver, s: string) returns (specifier: string)
    requires Parse(semver, s).Ok?
    ensures var path := Parse(semver, s).value;
      && path.customRegistry != Some("") && '/' !in RegistryText(path)
      && s == RegistryText(path) + "/" + specifier
      && PkgNameSuffixes.Parse(semver, specifier) == Ok(path.packageSpecifier)
  {
    hide PkgNameSuffixes.Parse;
    SplitOnceShape(s, '/');
    specifier := SplitOnce(s, '/').value.1;
  }

  /**
   * Only the spelling of the version can be lost by reading a key: the printed key equals the text that
   * was read exactly when the version in it was spelled canonically.
   */
  lemma PrintParse(semver: Semver, s: string) returns (spelling: string)
    requires SemverLibrary(semver)
    requires Parse(semver, s).Ok?
    ensures var path := Parse(semver, s).value;
      var verPeer := path.packageSpecifier.suffix;
      && IsParsed(semver, path)
      && s == BeforeVersion(path) + (spelling + verPeer.peer)
      && semver(spelling) == Some(verPeer.version)
      && (Print(path) == s <==> IsCanonical(semver, spelling))
  {
    hide Parse;
    hide PkgNameSuffixes.Parse;
    hide PkgNameSuffixes.Print;
    hide PkgNames.Print;
    hide PkgNameSuffixes.IsParsed;
    hide RegistryText;
    var path := Parse(semver, s).value;
    var verPeer := path.packageSpecifier.suffix;
    var specifier := ParseParts(semver, s);
    spelling := PkgNameSuffixes.ParseShape(semver, specifier);
    Regroup(RegistryText(path), PkgNames.Print(path.packageSpecifier.name), spelling + verPeer.peer);
    PrintShape(path);
    hide Print;
    SameMiddle(BeforeVersion(path), spelling, verPeer.version, verPeer.peer);
  }

  lemma SameMiddle(a: string, x: string, y: string, b: string)
    ensures a + (x + b) == a + (y + b) <==> x == y
  {
    if a + (x + b) == a + (y + b) {
      assert x + b == (a + (x + b))[|a|..] == y + b;
      assert x == (x + b)[..|x|] == y;
    }
  }

  /** A key survives printing and parsing exactly when it is one that parsing can produce. */
  lemma ParsePrint(semver: Semver, path: DependencyPath)
    requires SemverLibrary(semver)
    ensures Parse(semver, Print(path)) == Ok(path) <==> IsParsed(semver, path)
  {
    if IsParsed(semver, path) {
      SplitOnceAt(RegistryText(path), '/', PkgNameSuffixes.Print(path.packageSpecifier));
      PkgNameSuffixes.ParsePrint(semver, path.packageSpecifier);
    } else if Parse(semver, Print(path)) == Ok(path) {
      var _ := PrintParse(semver, Print(path));
    }
  }

  /** Reading a key, printing it and reading it again is reading it once. */
  lemma ReparseIsStable(semver: Semver, s: string)
    requires SemverLibrary(semver)
    requires Parse(semver, s).Ok?
    ensures Parse(semver, Print(Parse(semver, s).value)) == Parse(semver, s)
  {
    var _ := PrintParse(semver, s);
    ParsePrint(semver, Parse(semver, s).value);
  }

  /** Two keys read from a lockfile that print alike are the same key. */
  lemma PrintInjective(semver: Semver, a: DependencyPath, b: DependencyPath)
    requires SemverLibrary(semver)
    requires IsParsed(semver, a) && IsParsed(semver, b)
    requires Print(a) == Print(b)
    ensures a == b
  {
    ParsePrint(semver, a);
    ParsePrint(semver, b);
  }

  /** Which text reads as which key, and which error the others get. */
  lemma ParseExactly(semver: Semver, s: string, registry: string, specifier: string)
    ensures Parse(semver, s) == Err(InvalidSyntax) <==> '/' !in s
    ensures s == registry + "/" + specifier && '/' !in registry ==>
      Parse(semver, s) == match PkgNameSuffixes.Parse(semver, specifier)
        case Err(error) => Err(ParsePackageSpecifierFailure(error))
        case Ok(read) => Ok(DependencyPath(if registry == "" then None else Some(registry), read))
  {
    hide PkgNameSuffixes.Parse;
    SplitOnceShape(s, '/');
    if '/' !in registry {
      SplitOnceAt(registry, '/', specifier);
    }
  }
}
