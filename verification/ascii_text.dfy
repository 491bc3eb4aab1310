/** ASCII-only case mapping: the model's stand-in for JavaScript's
    `toLowerCase` / `toUpperCase`, as used by the category match in the
    catalog and by `capitalizeFirstLetter` on the category page. */
module AsciiText {

  predicate IsUpper(c: char) { 'A' <= c <= 'Z' }
  predicate IsLower(c: char) { 'a' <= c <= 'z' }

  function LowerChar(c: char): (r: char)
    ensures IsUpper(c) ==> IsLower(r) && r as int == c as int + 32
    ensures !IsUpper(c) ==> r == c
  {
    if IsUpper(c) then (c as int + 32) as char else c
  }

  function UpperChar(c: char): (r: char)
    ensures IsLower(c) ==> IsUpper(r) && r as int == c as int - 32
    ensures !IsLower(c) ==> r == c
  {
    if IsLower(c) then (c as int - 32) as char else c
  }

  /** `s.toLowerCase()` restricted to ASCII letters. */
  function Lower(s: string): (r: string)
    ensures |r| == |s|
    ensures forall i | 0 <= i < |s| :: r[i] == LowerChar(s[i])
  {
    seq(|s|, i requires 0 <= i < |s| => LowerChar(s[i]))
  }

  /** `c` and `d` are the same ASCII letter in opposite cases. */
  predicate CaseVariants(c: char, d: char) {
    (IsUpper(c) && d as int == c as int + 32) || (IsUpper(d) && c as int == d as int + 32)
  }

  /** Two strings that differ at most in the case of their letters: position
      by position the characters are equal or case variants of each other. */
  predicate SameIgnoringCase(a: string, b: string) {
    |a| == |b| && forall i | 0 <= i < |a| :: a[i] == b[i] || CaseVariants(a[i], b[i])
  }

  /** Two characters lower-case alike exactly when they are equal or case variants. */
  lemma LowerCharEqual(c: char, d: char)
    ensures LowerChar(c) == LowerChar(d) <==> c == d || CaseVariants(c, d)
  {
  }

  /** Lower-casing identifies exactly the strings that differ only in case. */
  lemma LowerEqualIffSameIgnoringCase(a: string, b: string)
    ensures Lower(a) == Lower(b) <==> SameIgnoringCase(a, b)
  {
  }
}
