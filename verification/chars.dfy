/** Byte classes used by the style engine. A `char` stands for one byte of a PHP string. */
module Chars {

  /** The escape byte "\033". */
  const ESC: char := '\U{1B}'

  predicate IsUpper(c: char) {
    'A' <= c <= 'Z'
  }

  predicate IsDigit(c: char) {
    '0' <= c <= '9'
  }

  /** strtolower: only the ASCII letters A-Z are folded. */
  function LowerChar(c: char): char {
    if IsUpper(c) then (c as int + 32) as char else c
  }

  function Lower(s: string): (r: string)
    ensures |r| == |s|
    ensures forall i :: 0 <= i < |s| ==> r[i] == LowerChar(s[i])
  {
    if s == [] then [] else [LowerChar(s[0])] + Lower(s[1..])
  }

  /** Lowercasing twice is lowercasing once. */
  lemma LowerIdempotent(s: string)
    ensures Lower(Lower(s)) == Lower(s)
  {
  }

  /** A string without upper-case letters is its own lower-case form. */
  lemma LowerOfLowercase(s: string)
    requires forall i :: 0 <= i < |s| ==> !IsUpper(s[i])
    ensures Lower(s) == s
  {
  }

  /** The bytes \x7f-\xff, which PHP admits in identifiers. */
  predicate IsHighByte(c: char) {
    '\U{7F}' <= c <= '\U{FF}'
  }

  /** [a-zA-Z_\x7f-\xff] */
  predicate IsNameStart(c: char) {
    ('a' <= c <= 'z') || IsUpper(c) || c == '_' || IsHighByte(c)
  }

  /** [a-zA-Z0-9_\x7f-\xff] */
  predicate IsNameChar(c: char) {
    IsNameStart(c) || IsDigit(c)
  }

  /** [a-zA-Z_\x7f-\xff][a-zA-Z0-9_\x7f-\xff]* matched by a whole string. */
  predicate IsName(s: string) {
    |s| > 0 && IsNameStart(s[0]) && forall i :: 1 <= i < |s| ==> IsNameChar(s[i])
  }
}
