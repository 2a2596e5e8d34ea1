/** The handful of string searches that the lockfile grammar is written with. */
module Text {
  import opened Wrappers

  /** Position of the first `c` in `s`, or `|s|` when there is none. */
  function Find(s: string, c: char): (i: nat)
    ensures i <= |s|
  {
    if s == [] || s[0] == c then 0 else 1 + Find(s[1..], c)
  }

  lemma {:induction false} FindShape(s: string, c: char)
    ensures var i := Find(s, c);
      c !in s[..i] && (i < |s| ==> s[i] == c)
  {
    if s != [] && s[0] != c {
      FindShape(s[1..], c);
      var i := Find(s, c);
      assert s[..i] == [s[0]] + s[1..][..i - 1];
    }
  }

  /** Splits at the first `c`, which belongs to neither side. */
  function SplitOnce(s: string, c: char): (r: Option<(string, string)>)
  {
    var i := Find(s, c);
    if i == |s| then None else Some((s[..i], s[i + 1..]))
  }

  /** Splitting fails exactly when there is no `c`; otherwise nothing but that `c` is lost. */
  lemma SplitOnceShape(s: string, c: char)
    ensures SplitOnce(s, c).None? <==> c !in s
    ensures SplitOnce(s, c).Some? ==>
              var (a, b) := SplitOnce(s, c).value;
              s == a + [c] + b && c !in a
  {
    FindShape(s, c);
    var i := Find(s, c);
    if i == |s| {
      assert s[..i] == s;
    } else {
      assert s == s[..i] + [c] + s[i + 1..];
    }
  }

  /** A separator-free prefix is exactly what splitting gives back. */
  lemma SplitOnceAt(a: string, c: char, b: string)
    requires c !in a
    ensures SplitOnce(a + [c] + b, c) == Some((a, b))
  {
    FindAt(a, c, b);
    var s := a + [c] + b;
    assert s[..|a|] == a;
    assert s[|a| + 1..] == b;
  }

  /** The first `c` of a text whose part before it is known. */
  lemma FindAt(a: string, c: char, b: string)
    requires c !in a
    ensures Find(a + [c] + b, c) == |a|
  {
    var s := a + [c] + b;
    var i := Find(s, c);
    FindShape(s, c);
    assert s[|a|] == c;
    assert forall k | 0 <= k < |a| :: s[k] == a[k] != c;
    assert forall k | 0 <= k < i :: s[k] == s[..i][k] != c;
  }

  /** Replaces every occurrence of `pattern`, found left to right without overlap, as `str::replace` does. */
  function ReplaceAll(s: string, pattern: string, to: string): string
    requires pattern != []
  {
    if s == [] then []
    else if pattern <= s then to + ReplaceAll(s[|pattern|..], pattern, to)
    else [s[0]] + ReplaceAll(s[1..], pattern, to)
  }

  /** Replacing a single character distributes over concatenation. */
  lemma {:induction false} ReplaceCharConcat(a: string, b: string, c: char, to: string)
    ensures ReplaceAll(a + b, [c], to) == ReplaceAll(a, [c], to) + ReplaceAll(b, [c], to)
  {
    if a == [] {
      assert a + b == b;
    } else {
      assert (a + b)[1..] == a[1..] + b;
      assert ([c] <= a + b) == ([c] <= a) by {
        assert ([c] <= a) == (a[0] == c);
      }
      ReplaceCharConcat(a[1..], b, c, to);
    }
  }

  /** Text without the first character of the pattern is left alone. */
  lemma {:induction false} ReplaceNothing(s: string, pattern: string, to: string)
    requires pattern != []
    requires pattern[0] !in s
    ensures ReplaceAll(s, pattern, to) == s
  {
    if s != [] {
      assert s[0] in s;
      ReplaceNothing(s[1..], pattern, to);
    }
  }

  /** After replacing a character by text without it, the character is gone. */
  lemma {:induction false} ReplaceCharRemoves(s: string, c: char, to: string)
    requires c !in to
    ensures c !in ReplaceAll(s, [c], to)
    ensures forall d :: d !in s && d !in to ==> d !in ReplaceAll(s, [c], to)
  {
    if s != [] {
      assert ([c] <= s) == (s[0] == c);
      ReplaceCharRemoves(s[1..], c, to);
    }
  }
}
