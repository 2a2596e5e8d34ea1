/** The `{version}{peer}` suffix of a package specifier, such as `1.21.3(react@17.0.2)`. */
module PkgVerPeers {
  import opened Wrappers
  import opened Text

  /** The semantic version library as a caller sees it: text in, canonical text of the version out. */
  type Semver = string -> Option<string>

  /** Characters that no version can contain under sections 2, 9 and 10 of Semantic Versioning 2.0.0. */
  predicate IsPlain(s: string) {
    '(' !in s && ')' !in s && '@' !in s && '/' !in s
  }

  /** What the grammar needs of the library: only plain text is accepted, and canonical text denotes itself. */
  ghost predicate SemverLibrary(semver: Semver) {
    forall s :: IsSoundOn(semver, s)
  }

  predicate IsSoundOn(semver: Semver, s: string) {
    semver(s).Some? ==> s != [] && IsPlain(s) && IsCanonical(semver, semver(s).value)
  }

  /** Text the library prints for some version. */
  predicate IsCanonical(semver: Semver, version: string) {
    semver(version) == Some(version)
  }

  datatype PkgVerPeer = PkgVerPeer(version: string, peer: string)

  datatype ParsePkgVerPeerError = ParseVersionFailure | MismatchParenthesis

  predicate EndsWith(s: string, c: char) {
    s != [] && s[|s| - 1] == c
  }

  function Parse(semver: Semver, value: string): (r: Result<PkgVerPeer, ParsePkgVerPeerError>)
  {
    if !EndsWith(value, ')') then
      if '(' in value || ')' in value then Err(MismatchParenthesis)
      else match semver(value)
        case None => Err(ParseVersionFailure)
        case Some(version) => Ok(PkgVerPeer(version, ""))
    else
      var opening := Find(value, '(');
      if opening == |value| then Err(MismatchParenthesis)
      else match semver(value[..opening])
        case None => Err(ParseVersionFailure)
        case Some(version) => Ok(PkgVerPeer(version, value[opening..]))
  }

  function Print(v: PkgVerPeer): string {
    v.version + v.peer
  }

  /** The values a parse can produce. */
  predicate IsParsed(semver: Semver, v: PkgVerPeer) {
    && IsCanonical(semver, v.version)
    && (v.peer == [] || (v.peer[0] == '(' && EndsWith(v.peer, ')')))
  }

  /** An accepted text is a spelling of the version followed by the peer text, which is kept as it is. */
  lemma ParseShape(semver: Semver, value: string) returns (spelling: string)
    requires SemverLibrary(semver)
    requires Parse(semver, value).Ok?
    ensures IsParsed(semver, Parse(semver, value).value)
    ensures value == spelling + Parse(semver, value).value.peer
    ensures semver(spelling) == Some(Parse(semver, value).value.version)
  {
    var v := Parse(semver, value).value;
    FindShape(value, '(');
    spelling := value[..|value| - |v.peer|];
    assert value[..|value|] == value;
    assert IsSoundOn(semver, spelling);
  }

  /** A suffix survives printing and parsing exactly when it is one that parsing can produce. */
  lemma ParsePrint(semver: Semver, v: PkgVerPeer)
    requires SemverLibrary(semver)
    ensures Parse(semver, Print(v)) == Ok(v) <==> IsParsed(semver, v)
  {
    if IsParsed(semver, v) {
      var text := Print(v);
      assert IsSoundOn(semver, v.version);
      if v.peer == [] {
        assert text == v.version;
        assert forall i | 0 <= i < |text| :: text[i] in v.version;
      } else {
        assert text == v.version + ['('] + v.peer[1..];
        FindAt(v.version, '(', v.peer[1..]);
        assert text[|text| - 1] == v.peer[|v.peer| - 1];
        assert text[..|v.version|] == v.version;
        assert text[|v.version|..] == v.peer;
      }
    } else if Parse(semver, Print(v)) == Ok(v) {
      var _ := ParseShape(semver, Print(v));
    }
  }

  /** Parentheses that do not match: a closing one at the end without an opening one, or any without it. */
  predicate IsMismatched(value: string) {
    if EndsWith(value, ')') then '(' !in value else '(' in value || ')' in value
  }

  /** The text is a spelling without peers, or with a text in parentheses behind it. */
  predicate IsSpelled(value: string, spelling: string, peer: string) {
    && value == spelling + peer && '(' !in spelling
    && (if peer == "" then ')' !in spelling else peer[0] == '(' && EndsWith(peer, ')'))
  }

  lemma SpelledIsRead(semver: Semver, spelling: string, peer: string)
    requires IsSpelled(spelling + peer, spelling, peer)
    ensures !IsMismatched(spelling + peer)
    ensures Parse(semver, spelling + peer) ==
      match semver(spelling) { case None => Err(ParseVersionFailure) case Some(v) => Ok(PkgVerPeer(v, peer)) }
  {
    var value := spelling + peer;
    if peer == "" {
      assert value == spelling;
    } else {
      assert value == spelling + ['('] + peer[1..];
      FindAt(spelling, '(', peer[1..]);
      assert value[|value| - 1] == peer[|peer| - 1];
      assert value[..|spelling|] == spelling && value[|spelling|..] == peer;
    }
  }

  /** Text whose parentheses match is a spelling with or without peers. */
  lemma MatchedIsSpelled(value: string) returns (spelling: string, peer: string)
    requires !IsMismatched(value)
    ensures IsSpelled(value, spelling, peer)
  {
    FindShape(value, '(');
    var opening := Find(value, '(');
    spelling, peer := value, "";
    if EndsWith(value, ')') {
      assert value[..|value|] == value;
      spelling, peer := value[..opening], value[opening..];
    }
  }

  /** Which text reads as which version with peers, and which error the others get. */
  lemma ParseExactly(semver: Semver, value: string)
    ensures Parse(semver, value) == Err(MismatchParenthesis) <==> IsMismatched(value)
    ensures !IsMismatched(value) ==> exists a, b :: IsSpelled(value, a, b)
    ensures forall spelling, peer :: IsSpelled(value, spelling, peer) ==>
      match semver(spelling)
      case None => Parse(semver, value) == Err(ParseVersionFailure)
      case Some(version) => Parse(semver, value) == Ok(PkgVerPeer(version, peer))
  {
    forall spelling, peer | IsSpelled(value, spelling, peer)
      ensures !IsMismatched(value)
      ensures Parse(semver, value) ==
        match semver(spelling) { case None => Err(ParseVersionFailure) case Some(v) => Ok(PkgVerPeer(v, peer)) }
    {
      SpelledIsRead(semver, spelling, peer);
    }
    if IsMismatched(value) {
      FindShape(value, '(');
      assert value[..|value|] == value;
    } else {
      var a, b := MatchedIsSpelled(value);
    }
    hide IsSpelled;
  }
}
