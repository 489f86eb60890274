/** C strings and the character classes the parsers use. A byte is modelled as
    the character with its code; a string ends at its length or its first NUL. */
module CStrings {
  /** The byte a C program reads at index i: the terminator stands behind the last byte. */
  function At(s: string, i: nat): char {
    if i < |s| then s[i] else '\0'
  }

  predicate StartsWith(s: string, i: nat, text: string) {
    i + |text| <= |s| && s[i..i + |text|] == text
  }

  predicate Contains(s: string, text: string) {
    exists i :: 0 <= i <= |s| && StartsWith(s, i, text)
  }

  predicate NulFree(s: string) {
    forall i :: 0 <= i < |s| ==> s[i] != '\0'
  }

  predicate IsSpace(c: char) {
    c == ' ' || '\t' <= c <= '\r'
  }

  predicate IsBlank(c: char) {
    c == '\t' || c == ' '
  }

  predicate IsTokenChar(c: char) {
    ' ' < c < 127 as char && c !in "()<>@,;:\\\"/[]?="
  }

  function Lower(c: char): char {
    if 'A' <= c <= 'Z' then (c as int + 32) as char else c
  }

  /** The key under which a case-insensitive table keeps a name. */
  function LowerCase(s: string): (r: string)
    ensures |r| == |s|
  {
    seq(|s|, i requires 0 <= i < |s| => Lower(s[i]))
  }

  // The same character, or the same letter of the alphabet as a capital and a small one.
  predicate SameLetter(a: char, b: char) {
    a == b || ('A' <= a <= 'Z' && b as int == a as int + 32) || ('A' <= b <= 'Z' && a as int == b as int + 32)
  }

  predicate SameIgnoringCase(a: string, b: string) {
    |a| == |b| && forall i :: 0 <= i < |a| ==> SameLetter(a[i], b[i])
  }

  /** Two names have the same key exactly when they differ in the case of ASCII letters only. */
  lemma LowerCaseExact(a: string, b: string)
    ensures LowerCase(a) == LowerCase(b) <==> SameIgnoringCase(a, b)
  {
    if LowerCase(a) == LowerCase(b) {
      forall i | 0 <= i < |a| ensures SameLetter(a[i], b[i]) {
        assert LowerCase(a)[i] == LowerCase(b)[i];
      }
    }
  }

  /** A line without the line break at its end (remove_lf_crlf_inplace). */
  function Chomp(s: string): string {
    var n := |s|;
    if n > 0 && s[n - 1] == '\n' then
      if n > 1 && s[n - 2] == '\r' then s[..n - 2] else s[..n - 1]
    else s
  }

  /** First index from i on that does not hold a space or tab. */
  function SkipBlank(s: string, i: nat): (r: nat)
    requires i <= |s|
    ensures i <= r <= |s|
    ensures forall k :: i <= k < r ==> IsBlank(s[k])
    ensures r < |s| ==> !IsBlank(s[r])
    decreases |s| - i
  {
    if i < |s| && IsBlank(s[i]) then SkipBlank(s, i + 1) else i
  }

  function SkipSpace(s: string, i: nat): (r: nat)
    requires i <= |s|
    ensures i <= r <= |s|
    ensures forall k :: i <= k < r ==> IsSpace(s[k])
    ensures r < |s| ==> !IsSpace(s[r])
    decreases |s| - i
  {
    if i < |s| && IsSpace(s[i]) then SkipSpace(s, i + 1) else i
  }
}
