/**
 * One library that meets the grammar's needs: it accepts exactly the canonical text of
 * Semantic Versioning 2.0.0 (section 2 for the core, 9 for the pre-release, 10 for the build).
 */
module StrictSemver {
  import opened Wrappers
  import opened Text
  import opened PkgVerPeers

  predicate IsDigit(c: char) { '0' <= c <= '9' }

  predicate IsIdentifierChar(c: char) {
    IsDigit(c) || 'a' <= c <= 'z' || 'A' <= c <= 'Z' || c == '-'
  }

  predicate IsIdentifier(s: string) {
    s != [] && forall i | 0 <= i < |s| :: IsIdentifierChar(s[i])
  }

  predicate IsNumeric(s: string) {
    s != [] && (forall i | 0 <= i < |s| :: IsDigit(s[i])) && (s[0] == '0' ==> |s| == 1)
  }

  predicate IsPreRelease(s: string) {
    IsIdentifier(s) && ((forall i | 0 <= i < |s| :: IsDigit(s[i])) ==> IsNumeric(s))
  }

  /** Dot separated parts, any number of them, each of which satisfies `part`. */
  predicate IsDotted(s: string, part: string -> bool) {
    match SplitOnce(s, '.')
    case None => part(s)
    case Some((first, rest)) => part(first) && IsDotted(rest, part)
  }

  predicate IsCore(s: string) {
    match SplitOnce(s, '.')
    case None => false
    case Some((major, rest)) =>
      match SplitOnce(rest, '.')
      case None => false
      case Some((minor, patch)) => IsNumeric(major) && IsNumeric(minor) && IsNumeric(patch)
  }

  predicate IsBody(s: string) {
    match SplitOnce(s, '-')
    case None => IsCore(s)
    case Some((core, pre)) => IsCore(core) && IsDotted(pre, IsPreRelease)
  }

  predicate IsVersion(s: string) {
    match SplitOnce(s, '+')
    case None => IsBody(s)
    case Some((body, build)) => IsBody(body) && IsDotted(build, IsIdentifier)
  }

  function Strict(s: string): Option<string> {
    if IsVersion(s) then Some(s) else None
  }

  lemma {:induction false} DottedIsPlain(s: string, part: string -> bool)
    requires forall t :: part(t) ==> IsPlain(t)
    requires IsDotted(s, part)
    ensures IsPlain(s)
  {
    SplitOnceShape(s, '.');
    match SplitOnce(s, '.')
    case None =>
    case Some((first, rest)) =>
      DottedIsPlain(rest, part);
      Joined(first, '.', rest);
  }

  lemma Joined(a: string, c: char, b: string)
    requires IsPlain(a) && IsPlain([c]) && IsPlain(b)
    ensures IsPlain(a + [c] + b)
  {
  }

  lemma NumericIsPlain(s: string)
    requires IsNumeric(s)
    ensures IsPlain(s)
  {
  }

  lemma CoreIsPlain(s: string)
    requires IsCore(s)
    ensures s != [] && IsPlain(s)
  {
    var (major, rest) := SplitOnce(s, '.').value;
    var (minor, patch) := SplitOnce(rest, '.').value;
    SplitOnceShape(s, '.');
    SplitOnceShape(rest, '.');
    NumericIsPlain(major);
    NumericIsPlain(minor);
    NumericIsPlain(patch);
    Joined(minor, '.', patch);
    Joined(major, '.', rest);
  }

  lemma BodyIsPlain(s: string)
    requires IsBody(s)
    ensures s != [] && IsPlain(s)
  {
    SplitOnceShape(s, '-');
    match SplitOnce(s, '-')
    case None => CoreIsPlain(s);
    case Some((core, pre)) =>
      CoreIsPlain(core);
      DottedIsPlain(pre, IsPreRelease);
      Joined(core, '-', pre);
  }

  lemma VersionIsPlain(s: string)
    requires IsVersion(s)
    ensures s != [] && IsPlain(s)
  {
    hide IsBody;
    hide IsDotted;
    SplitOnceShape(s, '+');
    match SplitOnce(s, '+')
    case None => BodyIsPlain(s);
    case Some((body, build)) =>
      BodyIsPlain(body);
      DottedIsPlain(build, IsIdentifier);
      Joined(body, '+', build);
  }

  /** The hypotheses placed on the library can be met. */
  lemma StrictIsSemverLibrary()
    ensures SemverLibrary(Strict)
  {
    forall s | Strict(s).Some?
      ensures IsSoundOn(Strict, s)
    {
      VersionIsPlain(s);
    }
  }
}
