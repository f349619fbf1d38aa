/** Python's `str.strip` family on strings of Unicode scalar values. */
module Text {

  /** The character sets the formatter strips: the characters for which
      Python's `str.isspace()` holds (what `str.strip()` with no argument
      removes), and the two characters of `lstrip(" :")`. */
  datatype Chars = Whitespace | SpaceColon {
    predicate Has(c: char) {
      match this
      case Whitespace =>
        c == ' ' || '\t' <= c <= '\r' || '\U{001C}' <= c <= '\U{001F}' ||
        c == '\U{0085}' || c == '\U{00A0}' || c == '\U{1680}' ||
        '\U{2000}' <= c <= '\U{200A}' || c == '\U{2028}' || c == '\U{2029}' ||
        c == '\U{202F}' || c == '\U{205F}' || c == '\U{3000}'
      case SpaceColon => c == ' ' || c == ':'
    }
  }

  predicate AllIn(s: string, cs: Chars) {
    forall i :: 0 <= i < |s| ==> cs.Has(s[i])
  }

  /** `s.lstrip(cs)`: the longest suffix of `s` whose removed prefix is made of `cs`. */
  function TrimLeft(s: string, cs: Chars): string
    decreases |s|
  {
    if s != [] && cs.Has(s[0]) then TrimLeft(s[1..], cs) else s
  }

  /** `lstrip` removes a prefix made of `cs` and stops at the first other character. */
  lemma {:induction false} TrimLeftShape(s: string, cs: Chars)
    ensures |TrimLeft(s, cs)| <= |s| && TrimLeft(s, cs) == s[|s| - |TrimLeft(s, cs)|..]
    ensures AllIn(s[..|s| - |TrimLeft(s, cs)|], cs)
    ensures TrimLeft(s, cs) != [] ==> !cs.Has(TrimLeft(s, cs)[0])
    decreases |s|
  {
    if s != [] && cs.Has(s[0]) {
      TrimLeftShape(s[1..], cs);
      var n := |s| - |TrimLeft(s, cs)|;
      assert s[..n] == [s[0]] + s[1..][..n - 1];
    }
  }

  /** `s.rstrip(cs)`: the longest prefix of `s` whose removed suffix is made of `cs`. */
  function TrimRight(s: string, cs: Chars): string
    decreases |s|
  {
    if s != [] && cs.Has(s[|s| - 1]) then TrimRight(s[..|s| - 1], cs) else s
  }

  /** `rstrip` removes a suffix made of `cs` and stops at the last other character. */
  lemma {:induction false} TrimRightShape(s: string, cs: Chars)
    ensures |TrimRight(s, cs)| <= |s| && TrimRight(s, cs) == s[..|TrimRight(s, cs)|]
    ensures AllIn(s[|TrimRight(s, cs)|..], cs)
    ensures TrimRight(s, cs) != [] ==> !cs.Has(TrimRight(s, cs)[|TrimRight(s, cs)| - 1])
    decreases |s|
  {
    if s != [] && cs.Has(s[|s| - 1]) {
      TrimRightShape(s[..|s| - 1], cs);
      var n := |TrimRight(s, cs)|;
      assert s[n..] == s[..|s| - 1][n..] + [s[|s| - 1]];
    }
  }

  /** `s.strip()`. */
  function Strip(s: string): string {
    TrimRight(TrimLeft(s, Whitespace), Whitespace)
  }

  /** What `strip()` returns: empty exactly for an all-space string, and
      otherwise a string that neither starts nor ends with a space. */
  lemma StripShape(s: string)
    ensures Strip(s) == [] <==> AllIn(s, Whitespace)
    ensures Strip(s) != [] ==> !Whitespace.Has(Strip(s)[0]) && !Whitespace.Has(Strip(s)[|Strip(s)| - 1])
  {
    TrimBoth(s, Whitespace);
  }

  lemma TrimBoth(s: string, cs: Chars)
    ensures TrimRight(TrimLeft(s, cs), cs) == [] <==> AllIn(s, cs)
    ensures TrimRight(TrimLeft(s, cs), cs) != [] ==> !cs.Has(TrimRight(TrimLeft(s, cs), cs)[0])
    ensures TrimRight(TrimLeft(s, cs), cs) != [] ==>
      !cs.Has(TrimRight(TrimLeft(s, cs), cs)[|TrimRight(TrimLeft(s, cs), cs)| - 1])
  {
    var l := TrimLeft(s, cs);
    var r := TrimRight(l, cs);
    TrimLeftShape(s, cs);
    TrimRightShape(l, cs);
    if r == [] {
      assert l[|r|..] == l;
      assert l == [];
      assert s[..|s| - |l|] == s;
    } else {
      assert r[0] == l[0];
      assert s[|s| - |l|] == l[0];
    }
  }

  /** A string with no space at either end is left alone by `strip()`. */
  lemma StripFixed(s: string)
    requires s == [] || (!Whitespace.Has(s[0]) && !Whitespace.Has(s[|s| - 1]))
    ensures Strip(s) == s
  {
  }
}
