/** Names of npm packages: `{bare}` or `@{scope}/{bare}`. */
module PkgNames {
  import opened Wrappers
  import opened Text

  datatype PkgName = PkgName(scope: Option<string>, bare: string)

  datatype ParsePkgNameError = MissingName | EmptyName

  function Parse(input: string): (r: Result<PkgName, ParsePkgNameError>)
  {
    if input == [] then Err(EmptyName)
    else if input[0] == '@' then
      match SplitOnce(input[1..], '/')
      case None => Err(MissingName)
      case Some((scope, bare)) => Ok(PkgName(Some(scope), bare))
    else Ok(PkgName(None, input))
  }

  function Print(name: PkgName): string {
    match name.scope
    case Some(scope) => "@" + scope + "/" + name.bare
    case None => name.bare
  }

  /** Every character the name is made of. */
  function Letters(name: PkgName): string {
    match name.scope
    case Some(scope) => scope + name.bare
    case None => name.bare
  }

  /** The values a parse can produce: a scope holds no `/`, and an unscoped name cannot look scoped or be empty. */
  predicate IsParsed(name: PkgName) {
    match name.scope
    case Some(scope) => '/' !in scope
    case None => name.bare != [] && name.bare[0] != '@'
  }

  lemma ScopedText(input: string, scope: string, bare: string)
    requires input != [] && input[0] == '@' && input[1..] == scope + ['/'] + bare
    ensures input == "@" + scope + "/" + bare
  {
    assert "@" + scope + "/" + bare == ['@'] + (scope + ['/'] + bare);
  }

  /** Parsing loses nothing: the printed name is the text that was read. */
  lemma PrintParse(input: string)
    requires Parse(input).Ok?
    ensures IsParsed(Parse(input).value)
    ensures Print(Parse(input).value) == input
  {
    if input[0] == '@' {
      SplitOnceShape(input[1..], '/');
      var (scope, bare) := SplitOnce(input[1..], '/').value;
      ScopedText(input, scope, bare);
    }
  }

  /** A name survives printing and parsing exactly when it is one that parsing can produce. */
  lemma ParsePrint(name: PkgName)
    ensures Parse(Print(name)) == Ok(name) <==> IsParsed(name)
  {
    if Parse(Print(name)) == Ok(name) {
      PrintParse(Print(name));
    }
    if IsParsed(name) && name.scope.Some? {
      var scope := name.scope.value;
      assert Print(name)[1..] == scope + ['/'] + name.bare;
      SplitOnceAt(scope, '/', name.bare);
    }
  }

  /** Distinct parsed names print differently. */
  lemma PrintInjective(a: PkgName, b: PkgName)
    requires IsParsed(a) && IsParsed(b)
    requires Print(a) == Print(b)
    ensures a == b
  {
    ParsePrint(a);
    ParsePrint(b);
  }

  /** Which text reads as which name, and which error the others get. */
  lemma ParseExactly(input: string)
    ensures Parse(input) == Err(EmptyName) <==> input == ""
    ensures Parse(input) == Err(MissingName) <==> input != "" && input[0] == '@' && '/' !in input
    ensures Parse(input) == Ok(PkgName(None, input)) <==> input != "" && input[0] != '@'
    ensures forall scope, bare ::
      Parse(input) == Ok(PkgName(Some(scope), bare)) <==> '/' !in scope && input == "@" + scope + "/" + bare
  {
    if input != [] && input[0] == '@' {
      SplitOnceShape(input[1..], '/');
      assert '/' in input <==> '/' in input[1..];
    }
    forall scope, bare
      ensures Parse(input) == Ok(PkgName(Some(scope), bare)) <==> '/' !in scope && input == "@" + scope + "/" + bare
    {
      if Parse(input) == Ok(PkgName(Some(scope), bare)) {
        PrintParse(input);
      }
      if '/' !in scope && input == "@" + scope + "/" + bare {
        ParsePrint(PkgName(Some(scope), bare));
      }
    }
  }
}
