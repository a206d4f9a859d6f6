/** The few `java.lang.String` and Spring `StringUtils` predicates the core
    relies on, over `string` = `seq<char>`. */
module JavaText {

  /** `Character.isWhitespace`: the ASCII controls TAB..CR and FS..US, the
      space, and the Unicode space, line and paragraph separators other than
      the no-break spaces U+00A0, U+2007 and U+202F. */
  predicate IsWhitespace(c: char) {
    || c == ' '
    || ('\t' <= c <= '\r')
    || ('\U{1C}' <= c <= '\U{1F}')
    || c == '\U{1680}'
    || ('\U{2000}' <= c <= '\U{2006}')
    || ('\U{2008}' <= c <= '\U{200A}')
    || c == '\U{2028}' || c == '\U{2029}'
    || c == '\U{205F}' || c == '\U{3000}'
  }

  /** Spring's `StringUtils.hasText`: non-null and holding at least one
      character that is not whitespace. */
  predicate HasText(s: string) {
    exists i :: 0 <= i < |s| && !IsWhitespace(s[i])
  }

  /** `s.trim().isEmpty()`: `trim` strips every character at or below U+0020
      from both ends, so the result is empty exactly when no character of `s`
      lies above U+0020. */
  predicate TrimIsEmpty(s: string) {
    forall i :: 0 <= i < |s| ==> s[i] <= ' '
  }

  /** `s.contains(t)`, also the semantics of a `LIKE '%t%'` filter. */
  predicate Contains(s: string, t: string) {
    exists i :: 0 <= i <= |s| && OccursAt(s, t, i)
  }

  /** `t` occurs in `s` starting at index `i`. */
  predicate OccursAt(s: string, t: string, i: int) {
    0 <= i && i + |t| <= |s| && s[i..i + |t|] == t
  }

  /** ASCII upper case to lower case; every other character is kept. */
  function AsciiLower(c: char): char {
    if 'A' <= c <= 'Z' then (c as int + 32) as char else c
  }

  /** `s.toLowerCase().equals(t)` for an all-lower-case ASCII `t`.  For the
      four keys the sort switch compares against (no 'i', no 'k'), no
      non-ASCII character lower-cases into one of their letters, so ASCII
      folding decides the comparison exactly. */
  predicate LowerEquals(s: string, t: string) {
    |s| == |t| && forall i :: 0 <= i < |s| ==> AsciiLower(s[i]) == t[i]
  }

  /** A string lower-cases to at most one target. */
  lemma LowerEqualsUnique(s: string, t: string, u: string)
    requires LowerEquals(s, t) && LowerEquals(s, u)
    ensures t == u
  {
  }

  /** `"desc".equalsIgnoreCase(s)`.  Java compares character by character
      through `toUpperCase`, so besides the ASCII letters the long s U+017F
      (upper case 'S') matches the 's'. */
  predicate EqualsIgnoreCaseDesc(s: string) {
    && |s| == 4
    && (s[0] == 'd' || s[0] == 'D')
    && (s[1] == 'e' || s[1] == 'E')
    && (s[2] == 's' || s[2] == 'S' || s[2] == '\U{17F}')
    && (s[3] == 'c' || s[3] == 'C')
  }

  /** Lexicographic order of strings by character code, the order an
      `ORDER BY` on a text column is modelled with. */
  predicate StringLessEq(a: string, b: string)
    decreases |a|
  {
    if |a| == 0 then true
    else if |b| == 0 then false
    else if a[0] != b[0] then a[0] < b[0]
    else StringLessEq(a[1..], b[1..])
  }

  /** `StringLessEq` is a total order. */
  lemma {:induction false} StringLessEqTotal(a: string, b: string)
    ensures StringLessEq(a, b) || StringLessEq(b, a)
    decreases |a|
  {
    if |a| > 0 && |b| > 0 && a[0] == b[0] {
      StringLessEqTotal(a[1..], b[1..]);
    }
  }

  lemma {:induction false} StringLessEqTransitive(a: string, b: string, c: string)
    requires StringLessEq(a, b) && StringLessEq(b, c)
    ensures StringLessEq(a, c)
    decreases |a|
  {
    if |a| > 0 && |b| > 0 && |c| > 0 && a[0] == b[0] && b[0] == c[0] {
      StringLessEqTransitive(a[1..], b[1..], c[1..]);
    }
  }

  /** The two blank tests of the source differ in both directions: NUL is
      removed by `trim` but is text for `hasText`, and U+3000 is whitespace
      for `hasText` but survives `trim`. */
  lemma BlankTestsDiffer()
    ensures TrimIsEmpty("\U{0}") && HasText("\U{0}")
    ensures !TrimIsEmpty("\U{3000}") && !HasText("\U{3000}")
  {
    assert !IsWhitespace("\U{0}"[0]);
    assert "\U{3000}"[0] == '\U{3000}';
  }
}
