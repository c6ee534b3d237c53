/** Character classes and the substring test that the application relies on. */
module Text {

  /** The characters Python treats as whitespace, both for the regular
      expression class `\s` on `str` patterns and for `str.strip()`:
      the ASCII controls TAB..CR and FS..US, SPACE, NEL, NO-BREAK SPACE and the
      Unicode space separators and line/paragraph separators. */
  predicate IsWhitespace(c: char) {
    || ('\t' <= c <= '\r')
    || ('\U{1C}' <= c <= ' ')
    || c == '\U{85}' || c == '\U{A0}' || c == '\U{1680}'
    || ('\U{2000}' <= c <= '\U{200A}')
    || c == '\U{2028}' || c == '\U{2029}' || c == '\U{202F}' || c == '\U{205F}'
    || c == '\U{3000}'
  }

  /** True when `s` holds no whitespace character at all. */
  predicate NoWhitespace(s: string) {
    forall i | 0 <= i < |s| :: !IsWhitespace(s[i])
  }

  predicate StartsWith(s: string, prefix: string) {
    |prefix| <= |s| && s[..|prefix|] == prefix
  }

  /** `pat` occurs in `s` starting at position `i`. */
  predicate OccursAt(s: string, pat: string, i: nat) {
    i + |pat| <= |s| && s[i..i + |pat|] == pat
  }

  /** Python's `pat in s` on strings. */
  predicate Contains(s: string, pat: string)
    decreases |s|
  {
    StartsWith(s, pat) || (|s| > 0 && Contains(s[1..], pat))
  }

  /** `Contains` finds exactly the occurrences of the pattern. */
  lemma {:induction false} ContainsOccurs(s: string, pat: string)
    ensures Contains(s, pat) <==> exists i: nat :: OccursAt(s, pat, i)
    decreases |s|
  {
    if StartsWith(s, pat) {
      assert OccursAt(s, pat, 0);
    } else if |s| == 0 {
      assert |pat| > 0;
    } else {
      ContainsOccurs(s[1..], pat);
      if exists i: nat :: OccursAt(s, pat, i) {
        var i: nat :| OccursAt(s, pat, i);
        assert i != 0;
        assert s[1..][i - 1..i - 1 + |pat|] == s[i..i + |pat|];
        assert OccursAt(s[1..], pat, i - 1);
      }
      if exists j: nat :: OccursAt(s[1..], pat, j) {
        var j: nat :| OccursAt(s[1..], pat, j);
        assert s[1..][j..j + |pat|] == s[j + 1..j + 1 + |pat|];
        assert OccursAt(s, pat, j + 1);
      }
    }
  }

  /** A string that begins with a text containing `pat` contains `pat`. */
  lemma PrefixContains(prefix: string, rest: string, pat: string)
    requires StartsWith(prefix, pat)
    ensures Contains(prefix + rest, pat)
  {
    assert (prefix + rest)[..|pat|] == prefix[..|pat|];
  }

  /** A string in which the first character of `pat` never appears does not
      contain `pat`. */
  lemma {:induction false} MissingFirstChar(s: string, pat: string)
    requires |pat| > 0 && pat[0] !in s
    ensures !Contains(s, pat)
    decreases |s|
  {
    if |s| > 0 {
      assert s[0] != pat[0];
      assert forall c | c in s[1..] :: c in s;
      MissingFirstChar(s[1..], pat);
    }
  }
}
