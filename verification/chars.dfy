/** Character classes and the case folding that the text normaliser and the
    theme extractor share. */
module Chars {

  /** An ASCII upper-case letter: the `A-Z` half of the class `[a-zA-Z]`. */
  predicate IsUpper(c: char) { 'A' <= c <= 'Z' }

  /** An ASCII lower-case letter. */
  predicate IsLower(c: char) { 'a' <= c <= 'z' }

  /** A member of the regular-expression class `[a-zA-Z]` (ASCII only). */
  predicate IsLetter(c: char) { IsUpper(c) || IsLower(c) }

  /** The characters that Python's `\s` matches in a `str` pattern, which are
      also the ones `str.strip()` removes: the ASCII controls 9-13 and 28-31,
      the space, and the Unicode white-space characters. */
  predicate IsSpace(c: char) {
    || '\t' <= c <= '\r'
    || '\U{1C}' <= c <= ' '
    || c == '\U{85}' || c == '\U{A0}' || c == '\U{1680}'
    || '\U{2000}' <= c <= '\U{200A}'
    || c == '\U{2028}' || c == '\U{2029}' || c == '\U{202F}' || c == '\U{205F}'
    || c == '\U{3000}'
  }

  /** `str.lower()` on one character. ASCII capitals map to their small
      letters; the two non-ASCII characters whose lower-case form contains an
      ASCII letter (DOTTED CAPITAL I and KELVIN SIGN) are mapped as Python maps
      them; every other character is kept. */
  function LowerChar(c: char): (r: string)
    ensures forall i :: 0 <= i < |r| ==> !IsUpper(r[i])
    ensures IsUpper(c) ==> |r| == 1 && IsLower(r[0]) && r[0] as int - 'a' as int == c as int - 'A' as int
    ensures !IsUpper(c) && c != '\U{130}' && c != '\U{212A}' ==> r == [c]
  {
    if IsUpper(c) then [(c as int - 'A' as int + 'a' as int) as char]
    else if c == '\U{130}' then "i\U{307}"
    else if c == '\U{212A}' then "k"
    else [c]
  }

  /** `str.lower()` on a whole string, character by character. Without a
      DOTTED CAPITAL I every character maps to exactly one character, in place. */
  function Lower(s: string): (r: string)
    ensures |r| >= |s|
    ensures forall i :: 0 <= i < |r| ==> !IsUpper(r[i])
    ensures (forall i :: 0 <= i < |s| ==> s[i] != '\U{130}') ==>
      |r| == |s| && forall i :: 0 <= i < |s| ==> [r[i]] == LowerChar(s[i])
  {
    if s == [] then [] else LowerChar(s[0]) + Lower(s[1..])
  }

  /** Lowering works piecewise: `(a + b).lower() == a.lower() + b.lower()`. */
  lemma {:induction false} LowerAppend(a: string, b: string)
    ensures Lower(a + b) == Lower(a) + Lower(b)
  {
    if a == [] {
      assert a + b == b;
    } else {
      assert (a + b)[1..] == a[1..] + b;
      LowerAppend(a[1..], b);
    }
  }
}
