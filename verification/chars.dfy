/** Character classes and single-character case mappings used by the string
    helpers. Letters, digits and case mappings are the ASCII ones; the
    whitespace class of Unicode regular expressions is given in full. */
module Chars {

  predicate IsUpper(c: char) { 'A' <= c <= 'Z' }

  predicate IsLower(c: char) { 'a' <= c <= 'z' }

  predicate IsLetter(c: char) { IsUpper(c) || IsLower(c) }

  predicate IsDigit(c: char) { '0' <= c <= '9' }

  /** A letter or a digit: what `slug` keeps of a title besides separators. */
  predicate IsAlnum(c: char) { IsLetter(c) || IsDigit(c) }

  /** Byte-wise `strtolower`/`lcfirst`: only 'A'..'Z' change. */
  function ToLower(c: char): (r: char)
    ensures !IsUpper(r)
    ensures IsLetter(c) <==> IsLetter(r)
    ensures IsUpper(c) ==> IsLower(r)
    ensures !IsUpper(c) ==> r == c
  {
    if IsUpper(c) then (c as int + 32) as char else c
  }

  /** Byte-wise `toupper` as used by `ucwords`: only 'a'..'z' change. */
  function ToUpper(c: char): (r: char)
    ensures !IsLower(r)
    ensures IsLower(c) ==> IsUpper(r) && ToLower(r) == c
    ensures !IsLower(c) ==> r == c
  {
    if IsLower(c) then (c as int - 32) as char else c
  }

  /** The characters `trim` and `rtrim` strip when no character list is
      given: space, tab, line feed, carriage return, NUL and vertical tab. */
  predicate IsTrimSpace(c: char) {
    c == ' ' || c == '\t' || c == '\n' || c == '\r' || c == '\0' || c == '\U{0B}'
  }

  /** The word delimiters of `ucwords` with its default list: space, tab,
      carriage return, line feed, form feed and vertical tab. */
  predicate IsWordDelimiter(c: char) {
    c == ' ' || c == '\t' || c == '\r' || c == '\n' || c == '\U{0C}' || c == '\U{0B}'
  }

  /** `\s` in a PCRE pattern compiled with the `u` modifier, which in PHP also
      turns on Unicode properties: the separators `\p{Z}` together with the
      horizontal and vertical white space `\h` and `\v`. That is the ASCII
      white space characters, the Unicode space and line/paragraph
      separators, NEL and the Mongolian vowel separator U+180E (which `\h`
      lists). */
  predicate IsSpace(c: char) {
    c in SpaceChars
  }

  const SpaceChars: set<char> := {
    '\t', '\n', '\U{0B}', '\U{0C}', '\r', ' ', '\U{85}', '\U{A0}', '\U{1680}',
    '\U{180E}', '\U{2000}', '\U{2001}', '\U{2002}', '\U{2003}', '\U{2004}',
    '\U{2005}', '\U{2006}', '\U{2007}', '\U{2008}', '\U{2009}', '\U{200A}',
    '\U{2028}', '\U{2029}', '\U{202F}', '\U{205F}', '\U{3000}'
  }

  /** Letters and digits are not white space. */
  lemma AlnumNotSpace(c: char)
    requires IsAlnum(c)
    ensures !IsSpace(c)
  {
  }
}
