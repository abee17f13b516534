/** Kotlin's String.trim() and CharSequence.isBlank(), the two string steps of
    reading a document: the extracted text is trimmed, and a blank result is
    rejected. Both are defined by the same whitespace predicate. */
module Text {

  /** The code-point ranges, both ends included, that Kotlin's
      Char.isWhitespace() accepts for the Unicode version whose separators are
      listed here: the ASCII controls TAB, LF, VT, FF and CR, the separators
      U+001C..U+001F, and the space, line and paragraph separators (categories
      Zs, Zl and Zp). */
  const WhitespaceRanges: seq<(char, char)> := [
    ('\t', '\r'), ('\U{1C}', ' '), ('\U{A0}', '\U{A0}'), ('\U{1680}', '\U{1680}'),
    ('\U{2000}', '\U{200A}'), ('\U{2028}', '\U{2029}'), ('\U{202F}', '\U{202F}'),
    ('\U{205F}', '\U{205F}'), ('\U{3000}', '\U{3000}')
  ]

  /** `c` lies in one of `ranges`. */
  predicate InRanges(c: char, ranges: seq<(char, char)>) {
    ranges != [] && ((ranges[0].0 <= c <= ranges[0].1) || InRanges(c, ranges[1..]))
  }

  /** `c` lies in one of `ranges` exactly when some listed range holds it:
      the recursive scan agrees with the plain reading of the table. */
  lemma {:induction false} InRangesIffListed(c: char, ranges: seq<(char, char)>)
    ensures InRanges(c, ranges) <==> exists i :: 0 <= i < |ranges| && ranges[i].0 <= c <= ranges[i].1
  {
    if ranges != [] {
      InRangesIffListed(c, ranges[1..]);
      if InRanges(c, ranges[1..]) {
        var i :| 0 <= i < |ranges[1..]| && ranges[1..][i].0 <= c <= ranges[1..][i].1;
        assert ranges[i + 1] == ranges[1..][i];
      }
      if exists i :: 0 <= i < |ranges| && ranges[i].0 <= c <= ranges[i].1 {
        var i :| 0 <= i < |ranges| && ranges[i].0 <= c <= ranges[i].1;
        if i > 0 {
          assert ranges[1..][i - 1] == ranges[i];
        }
      }
    }
  }

  /** Char.isWhitespace(), the test shared by trim() and isBlank(): the tab,
      line feed, vertical tab, form feed, carriage return and space are
      whitespace, and digits and Latin letters are not. No lemma below depends
      on which other characters it accepts. */
  predicate IsWhitespace(c: char)
    ensures ('\t' <= c <= '\r' || c == ' ') ==> IsWhitespace(c)
    ensures ('0' <= c <= '9' || 'A' <= c <= 'Z' || 'a' <= c <= 'z') ==> !IsWhitespace(c)
  {
    InRangesIffListed(c, WhitespaceRanges);
    InRanges(c, WhitespaceRanges)
  }

  /** CharSequence.isBlank(): empty, or made only of whitespace; that is,
      the leading whitespace trim() skips is the whole text. */
  predicate IsBlank(s: string)
    ensures IsBlank(s) <==> LeadingWhitespace(s) == |s|
  {
    forall i :: 0 <= i < |s| ==> IsWhitespace(s[i])
  }

  /** The number of whitespace characters `s` starts with. */
  function LeadingWhitespace(s: string): (n: nat)
    ensures n <= |s|
    ensures forall i :: 0 <= i < n ==> IsWhitespace(s[i])
    ensures n < |s| ==> !IsWhitespace(s[n])
  {
    if s == [] || !IsWhitespace(s[0]) then 0 else 1 + LeadingWhitespace(s[1..])
  }

  /** The number of whitespace characters `s` ends with. */
  function TrailingWhitespace(s: string): (n: nat)
    ensures n <= |s|
    ensures forall i :: |s| - n <= i < |s| ==> IsWhitespace(s[i])
    ensures n < |s| ==> !IsWhitespace(s[|s| - n - 1])
  {
    if s == [] || !IsWhitespace(s[|s| - 1]) then 0 else 1 + TrailingWhitespace(s[..|s| - 1])
  }

  /** String.trim(): skip the leading whitespace, then drop the trailing
      whitespace of what is left. The result is the slice s[k..k + |r|] where
      k counts the leading whitespace; everything after the slice is
      whitespace too, and the result neither starts nor ends with
      whitespace. */
  function Trim(s: string): (r: string)
    ensures var k := LeadingWhitespace(s);
            k + |r| <= |s| && r == s[k..k + |r|] &&
            forall i :: k + |r| <= i < |s| ==> IsWhitespace(s[i])
    ensures r == [] || (!IsWhitespace(r[0]) && !IsWhitespace(r[|r| - 1]))
  {
    var k := LeadingWhitespace(s);
    var rest := s[k..];
    var r := rest[..|rest| - TrailingWhitespace(rest)];
    assert forall i :: k + |r| <= i < |s| ==> s[i] == rest[i - k];
    r
  }

  /** trim() is the only way to cut `s` into blank head, core and blank tail
      where the core is empty or neither starts nor ends with whitespace:
      any such core s[a..b] is Trim(s). */
  lemma TrimIsTheOnlyCore(s: string, a: nat, b: nat)
    requires a <= b <= |s|
    requires IsBlank(s[..a]) && IsBlank(s[b..])
    requires a == b || (!IsWhitespace(s[a]) && !IsWhitespace(s[b - 1]))
    ensures s[a..b] == Trim(s)
  {
    var k := LeadingWhitespace(s);
    var r := Trim(s);
    assert forall i :: 0 <= i < a ==> IsWhitespace(s[i]) by {
      forall i | 0 <= i < a ensures IsWhitespace(s[i]) { assert s[i] == s[..a][i]; }
    }
    assert forall i :: b <= i < |s| ==> IsWhitespace(s[i]) by {
      forall i | b <= i < |s| ensures IsWhitespace(s[i]) { assert s[i] == s[b..][i - b]; }
    }
    if a == b {
      assert IsBlank(s);
      BlankIffTrimsToEmpty(s);
    } else {
      assert a == k;
      assert !IsWhitespace(s[k]);
      assert r != [];
      assert s[k + |r| - 1] == r[|r| - 1];
      assert b == k + |r|;
    }
  }

  /** Whitespace-only text trims to nothing, and only such text does. */
  lemma BlankIffTrimsToEmpty(s: string)
    ensures IsBlank(s) <==> Trim(s) == []
  {
    var r := Trim(s);
    var k := LeadingWhitespace(s);
    if r == [] {
      assert k == |s|;
    }
  }

  /** Once text is trimmed, the blank check and the emptiness check agree. */
  lemma TrimmedBlankIffEmpty(s: string)
    ensures IsBlank(Trim(s)) <==> Trim(s) == []
  {
    var r := Trim(s);
    if r != [] {
      assert !IsWhitespace(r[0]);
    }
  }

  /** Trimming twice gives what trimming once gives. */
  lemma TrimIdempotent(s: string)
    ensures Trim(Trim(s)) == Trim(s)
  {
    var r := Trim(s);
    assert LeadingWhitespace(r) == 0;
    assert TrailingWhitespace(r[0..]) == 0;
    assert r[0..][..|r|] == r;
  }
}
