/** ASCII character classes and case folding, as Rust's `char` and `str` provide them. */
module Ascii {

  /** `char::is_ascii_alphabetic`: an ASCII letter, upper- or lower-case. */
  function IsAsciiAlphabetic(c: char): (b: bool)
    ensures b ==> c as int < 128
  {
    'A' <= c <= 'Z' || 'a' <= c <= 'z'
  }

  /** `char::to_ascii_lowercase`: maps `A`..`Z` to `a`..`z`, leaves every other character alone. */
  function LowerChar(c: char): (r: char)
    ensures !('A' <= r <= 'Z')
    ensures IsAsciiAlphabetic(r) <==> IsAsciiAlphabetic(c)
    ensures !IsAsciiAlphabetic(c) ==> r == c
    ensures 'a' <= c <= 'z' ==> r == c
    ensures 'A' <= c <= 'Z' ==> r as int - 'a' as int == c as int - 'A' as int
  {
    if 'A' <= c <= 'Z' then (c as int + ('a' as int - 'A' as int)) as char else c
  }

  /** `str::to_ascii_lowercase`, character by character. */
  function Lower(s: string): (r: string)
    ensures |r| == |s|
    ensures forall i :: 0 <= i < |s| ==> r[i] == LowerChar(s[i])
  {
    if s == [] then [] else [LowerChar(s[0])] + Lower(s[1..])
  }

  /** Folding is idempotent: a lower-cased string has no upper-case letter left. */
  lemma LowerIdempotent(s: string)
    ensures Lower(Lower(s)) == Lower(s)
  {
  }

  /** A string of ASCII letters folds to a string of lower-case ASCII letters. */
  lemma LowerOfLetters(s: string)
    requires forall i :: 0 <= i < |s| ==> IsAsciiAlphabetic(s[i])
    ensures forall i :: 0 <= i < |s| ==> 'a' <= Lower(s)[i] <= 'z'
  {
  }
}
