/**
 * Character classes used by the regular expressions and string methods of the
 * text normaliser. Characters are Unicode scalar values; case mapping is the
 * ASCII one.
 */
module Chars {

  /** The class `[a-z]`. */
  predicate IsLower(c: char) { 'a' <= c <= 'z' }

  /** The class `[A-Z]`. */
  predicate IsUpper(c: char) { 'A' <= c <= 'Z' }

  /** The class `[0-9]`. */
  predicate IsDigit(c: char) { '0' <= c <= '9' }

  /** A word character of `\w` without the `u` flag: `[A-Za-z0-9_]`. */
  predicate IsWord(c: char) { IsLower(c) || IsUpper(c) || IsDigit(c) || c == '_' }

  /** The class `[À-ž]`: U+00C0 through U+017E, kept by the non-word replacement. */
  predicate IsLatin(c: char) { '\U{00C0}' <= c <= '\U{017E}' }

  /**
   * The characters `String.prototype.trim` removes: the ECMAScript WhiteSpace
   * code points (TAB, VT, FF, ZWNBSP and the Unicode space separators) and
   * the LineTerminator code points (LF, CR, LS, PS).
   */
  const WhiteSpace: set<char> := {
    '\t', '\n', '\U{000B}', '\U{000C}', '\r', ' ', '\U{00A0}', '\U{1680}',
    '\U{2000}', '\U{2001}', '\U{2002}', '\U{2003}', '\U{2004}', '\U{2005}',
    '\U{2006}', '\U{2007}', '\U{2008}', '\U{2009}', '\U{200A}',
    '\U{2028}', '\U{2029}', '\U{202F}', '\U{205F}', '\U{3000}', '\U{FEFF}'
  }

  /** `toLowerCase` restricted to ASCII. */
  function ToLower(c: char): (r: char)
    ensures !IsUpper(r)
    ensures IsUpper(c) ==> IsLower(r) && ToUpper(r) == c
    ensures !IsUpper(c) ==> r == c
  {
    if IsUpper(c) then (c as int + 32) as char else c
  }

  /** `toUpperCase` restricted to ASCII. */
  function ToUpper(c: char): (r: char)
    ensures !IsLower(r)
    ensures IsLower(c) ==> IsUpper(r) && r as int == c as int - 32
    ensures !IsLower(c) ==> r == c
  {
    if IsLower(c) then (c as int - 32) as char else c
  }

  /** Lower-casing undoes upper-casing on every character that is not an ASCII capital. */
  lemma LowerOfUpper(c: char)
    requires !IsUpper(c)
    ensures ToLower(ToUpper(c)) == c
  {
    if IsLower(c) {
      assert (c as int) as char == c;
    }
  }
}
