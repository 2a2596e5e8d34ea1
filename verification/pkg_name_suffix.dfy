/** Package specifiers `{name}@{version}{peer}`, the instance of `{name}@{suffix}` that lockfile keys use. */
module PkgNameSuffixes {
  import opened Wrappers
  import opened Text
  import PkgNames
  import opened PkgVerPeers

  datatype PkgNameVerPeer = PkgNameVerPeer(name: PkgNames.PkgName, suffix: PkgVerPeer)

  datatype ParseError =
    | EmptyInput
    | MissingSuffix
    | EmptyName
    | ParseSuffixFailure(suffixError: ParsePkgVerPeerError)
    | ParseNameFailure(nameError: PkgNames.ParsePkgNameError)

  /** Separates the name from the suffix: the leading `@` of a scope is not a separator. */
  function SplitName(value: string): Option<(string, string)>
    requires value != []
  {
    if value[0] == '@' then
      match SplitOnce(value[1..], '@')
      case None => None
      case Some((name, suffix)) => Some((value[..|name| + 1], suffix))
    else SplitOnce(value, '@')
  }

  function Parse(semver: Semver, value: string): (r: Result<PkgNameVerPeer, ParseError>)
  {
    if value == [] then Err(EmptyInput)
    else
      match SplitName(value)
      case None => Err(MissingSuffix)
      case Some((name, suffix)) =>
        if name in {"", "@", "@/"} then Err(EmptyName)
        else if suffix == [] then Err(MissingSuffix)
        else
          match PkgVerPeers.Parse(semver, suffix)
          case Err(error) => Err(ParseSuffixFailure(error))
          case Ok(verPeer) =>
            match PkgNames.Parse(name)
            case Err(error) => Err(ParseNameFailure(error))
            case Ok(pkgName) => Ok(PkgNameVerPeer(pkgName, verPeer))
  }

  function Print(p: PkgNameVerPeer): string {
    PkgNames.Print(p.name) + "@" + PkgVerPeers.Print(p.suffix)
  }

  /** The values a parse can produce: the name is a parsed one, not blank, and holds no `@` of its own. */
  predicate IsParsed(semver: Semver, p: PkgNameVerPeer) {
    && PkgNames.IsParsed(p.name)
    && '@' !in PkgNames.Letters(p.name)
    && PkgNames.Letters(p.name) != []
    && PkgVerPeers.IsParsed(semver, p.suffix)
  }

  /** The name side of the split holds no `@` but a leading one, and nothing else is lost. */
  lemma SplitNameShape(value: string)
    requires value != [] && SplitName(value).Some?
    ensures var (name, suffix) := SplitName(value).value;
      value == name + ("@" + suffix) && (name == [] || '@' !in name[1..])
  {
    if value[0] == '@' {
      SplitOnceShape(value[1..], '@');
      var (name, suffix) := SplitOnce(value[1..], '@').value;
      assert value[1..] == name + "@" + suffix;
      assert value[..|name| + 1][1..] == name;
    } else {
      SplitOnceShape(value, '@');
    }
  }

  /** The split undoes `{name}@{suffix}` for the names a specifier can hold. */
  lemma SplitNameAt(name: PkgNames.PkgName, suffix: string)
    requires PkgNames.IsParsed(name) && '@' !in PkgNames.Letters(name)
    ensures SplitName(PkgNames.Print(name) + "@" + suffix) == Some((PkgNames.Print(name), suffix))
  {
    var value := PkgNames.Print(name) + "@" + suffix;
    match name.scope
    case Some(scope) =>
      var inner := scope + "/" + name.bare;
      assert '@' !in inner;
      assert value[1..] == inner + ['@'] + suffix;
      SplitOnceAt(inner, '@', suffix);
      assert value[..|inner| + 1] == "@" + inner == PkgNames.Print(name);
    case None =>
      SplitOnceAt(name.bare, '@', suffix);
  }

  /** A name with no inner `@` and something in it is one a specifier can hold. */
  lemma NameOfSpecifier(text: string)
    requires text !in {"", "@", "@/"} && '@' !in text[1..]
    requires PkgNames.Parse(text).Ok?
    ensures var name := PkgNames.Parse(text).value;
      && PkgNames.IsParsed(name) && PkgNames.Print(name) == text
      && '@' !in PkgNames.Letters(name) && PkgNames.Letters(name) != []
  {
    PkgNames.PrintParse(text);
    var name := PkgNames.Parse(text).value;
    if text[0] == '@' {
      var scope := name.scope.value;
      assert text[1..] == scope + "/" + name.bare;
      assert forall c :: c in scope || c in name.bare ==> c in text[1..];
      assert scope == [] && name.bare == [] ==> text == "@/";
    } else {
      assert text == [text[0]] + text[1..];
    }
  }

  /** An accepted text is the printed name, an `@`, a spelling of the version and the peer text. */
  lemma ParseShape(semver: Semver, value: string) returns (spelling: string)
    requires SemverLibrary(semver)
    requires Parse(semver, value).Ok?
    ensures var p := Parse(semver, value).value;
      && IsParsed(semver, p)
      && value == PkgNames.Print(p.name) + ("@" + (spelling + p.suffix.peer))
      && semver(spelling) == Some(p.suffix.version)
  {
    var (name, suffix) := SplitName(value).value;
    SplitNameShape(value);
    NameOfSpecifier(name);
    spelling := PkgVerPeers.ParseShape(semver, suffix);
  }

  /** What a specifier prints for its name is never blank. */
  lemma NameIsNotBlank(name: PkgNames.PkgName)
    requires PkgNames.IsParsed(name) && PkgNames.Letters(name) != []
    ensures PkgNames.Print(name) !in {"", "@", "@/"}
  {
    if name.scope.Some? {
      assert |PkgNames.Print(name)| == 2 + |PkgNames.Letters(name)|;
    }
  }

  /** A specifier survives printing and parsing exactly when it is one that parsing can produce. */
  lemma ParsePrint(semver: Semver, p: PkgNameVerPeer)
    requires SemverLibrary(semver)
    ensures Parse(semver, Print(p)) == Ok(p) <==> IsParsed(semver, p)
  {
    hide SplitName;
    hide PkgNames.Parse;
    hide PkgVerPeers.Parse;
    hide PkgNames.Print;
    hide IsPlain;
    if IsParsed(semver, p) {
      SplitNameAt(p.name, PkgVerPeers.Print(p.suffix));
      PkgNames.ParsePrint(p.name);
      PkgVerPeers.ParsePrint(semver, p.suffix);
      NameIsNotBlank(p.name);
      assert IsSoundOn(semver, p.suffix.version);
      assert PkgVerPeers.Print(p.suffix) != [];
    } else if Parse(semver, Print(p)) == Ok(p) {
      var _ := ParseShape(semver, Print(p));
    }
  }

  lemma SeparatorIsFound(name: string, suffix: string)
    requires name != "" && '@' !in name[1..]
    ensures SplitName(name + "@" + suffix) == Some((name, suffix))
  {
    var value := name + "@" + suffix;
    if name[0] == '@' {
      assert value[1..] == name[1..] + ['@'] + suffix;
      SplitOnceAt(name[1..], '@', suffix);
      assert value[..|name[1..]| + 1] == name;
    } else {
      assert name == [name[0]] + name[1..];
      SplitOnceAt(name, '@', suffix);
    }
  }

  /** Text without an `@` behind its first character has no suffix. */
  lemma NoSeparator(semver: Semver, value: string)
    requires value == "" || '@' !in value[1..]
    ensures Parse(semver, value) == Err(if value == "" then EmptyInput else MissingSuffix)
  {
    if value != "" {
      SplitOnceShape(value[1..], '@');
      SplitOnceShape(value, '@');
      if value[0] != '@' {
        assert value == [value[0]] + value[1..];
      }
    }
  }

  /** Any other text is taken apart at that `@`, and its parts are looked at in this order. */
  lemma ParseExactly(semver: Semver, name: string, suffix: string)
    requires name != "" && '@' !in name[1..]
    ensures var r := Parse(semver, name + "@" + suffix);
      && (r == Err(EmptyName) <==> name == "@" || name == "@/")
      && (r == Err(MissingSuffix) <==> r != Err(EmptyName) && suffix == "")
      && (r != Err(EmptyName) && suffix != "" ==>
            match PkgVerPeers.Parse(semver, suffix)
            case Err(error) => r == Err(ParseSuffixFailure(error))
            case Ok(verPeer) =>
              match PkgNames.Parse(name)
              case Err(error) => r == Err(ParseNameFailure(error))
              case Ok(read) => r == Ok(PkgNameVerPeer(read, verPeer)))
  {
    SeparatorIsFound(name, suffix);
    hide SplitName;
    hide PkgVerPeers.Parse;
    hide PkgNames.Parse;
  }
}
