/**
  Character classes used by the regular expressions of the naming layer.

  `\d` in a JavaScript regular expression is the ASCII digit class and `\s`
  is the fixed set of white-space and line-terminator code points listed in
  IsWhiteSpace. Case mapping is modelled for ASCII letters only; every other
  character is left as it is.
 */
module Ascii {

  /** `\d` */
  predicate IsDigit(c: char) { '0' <= c <= '9' }

  predicate IsUpper(c: char) { 'A' <= c <= 'Z' }

  predicate IsLower(c: char) { 'a' <= c <= 'z' }

  /** `[a-zA-Z0-9]` */
  predicate IsAlnum(c: char) { IsDigit(c) || IsUpper(c) || IsLower(c) }

  /** `\s`: tab, line feed, vertical tab, form feed, carriage return, space,
      no-break space, the Unicode space separators, line and paragraph
      separators and the byte order mark. */
  predicate IsWhiteSpace(c: char) {
    var n := c as int;
    || n == 0x09 || n == 0x0A || n == 0x0B || n == 0x0C || n == 0x0D
    || n == 0x20 || n == 0xA0 || n == 0x1680
    || (0x2000 <= n <= 0x200A)
    || n == 0x2028 || n == 0x2029 || n == 0x202F || n == 0x205F
    || n == 0x3000 || n == 0xFEFF
  }

  /** `toUpperCase` on one character (ASCII letters only). */
  function ToUpper(c: char): (r: char)
    ensures IsAlnum(r) == IsAlnum(c)
    ensures !IsLower(r)
    ensures if IsLower(c) then IsUpper(r) else r == c
  {
    if IsLower(c) then (c as int - 32) as char else c
  }

  /** `toLowerCase` on one character (ASCII letters only). */
  function ToLower(c: char): (r: char)
    ensures IsAlnum(r) == IsAlnum(c)
    ensures !IsUpper(r)
    ensures if IsUpper(c) then IsLower(r) else r == c
  {
    if IsUpper(c) then (c as int + 32) as char else c
  }

  /** `toLowerCase` on a string. */
  function LowerAll(s: string): (r: string)
    ensures |r| == |s|
    ensures forall i :: 0 <= i < |s| ==> r[i] == ToLower(s[i])
  {
    seq(|s|, i requires 0 <= i < |s| => ToLower(s[i]))
  }

  lemma LowerAllAppend(a: string, b: string)
    ensures LowerAll(a + b) == LowerAll(a) + LowerAll(b)
  {
  }

  predicate AllAlnum(s: string) {
    forall i :: 0 <= i < |s| ==> IsAlnum(s[i])
  }
}
