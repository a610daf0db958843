/**
 * Character classes used by the text normaliser and by line stripping.
 *
 * The model works on a fixed alphabet: the ASCII letters, the Spanish
 * accented letters and the whitespace characters that Python's
 * `str.isspace` recognises (the same set that `\s` in a `str` regular
 * expression, `str.split()` and `str.strip()` use). Every other character
 * is left unchanged by lower-casing.
 */
module Chars {

  /** Python's whitespace set: `str.isspace`, regex `\s`, `split()`, `strip()`. */
  predicate IsSpace(c: char) {
    || ('\t' <= c <= '\r')                // \t \n \v \f \r
    || ('\U{1C}' <= c <= '\U{1F}')        // information separators
    || c == ' '
    || c == '\U{85}'                      // next line
    || c == '\U{A0}'                      // no-break space
    || c == '\U{1680}'
    || ('\U{2000}' <= c <= '\U{200A}')
    || c == '\U{2028}' || c == '\U{2029}'
    || c == '\U{202F}' || c == '\U{205F}' || c == '\U{3000}'
  }

  predicate AllSpace(s: string) {
    forall i :: 0 <= i < |s| ==> IsSpace(s[i])
  }

  /** á é í ó ú ü ñ */
  predicate IsAccentedLower(c: char) {
    || c == '\U{E1}' || c == '\U{E9}' || c == '\U{ED}' || c == '\U{F3}'
    || c == '\U{FA}' || c == '\U{FC}' || c == '\U{F1}'
  }

  /** Á É Í Ó Ú Ü Ñ */
  predicate IsAccentedUpper(c: char) {
    || c == '\U{C1}' || c == '\U{C9}' || c == '\U{CD}' || c == '\U{D3}'
    || c == '\U{DA}' || c == '\U{DC}' || c == '\U{D1}'
  }

  /** The character class `[a-záéíóúüñ]` kept by the normaliser. */
  predicate IsSpanishLetter(c: char) {
    ('a' <= c <= 'z') || IsAccentedLower(c)
  }

  /** The upper-case letters whose lower-case form the model knows. */
  predicate IsUpperLetter(c: char) {
    ('A' <= c <= 'Z') || IsAccentedUpper(c)
  }

  /**
   * `str.lower()` on one character of the modelled alphabet: each known
   * upper-case letter becomes its lower-case partner (32 code points
   * further on, for ASCII and for the Latin-1 accented letters alike).
   */
  function LowerChar(c: char): (d: char)
    ensures IsSpanishLetter(d) <==> IsSpanishLetter(c) || IsUpperLetter(c)
    ensures IsSpace(d) <==> IsSpace(c)
    ensures !IsUpperLetter(d)
    ensures !IsUpperLetter(c) ==> d == c
    ensures 'A' <= c <= 'Z' ==> 'a' <= d <= 'z' && d as int - 'a' as int == c as int - 'A' as int
    ensures c == '\U{C1}' ==> d == '\U{E1}'   // Á -> á
    ensures c == '\U{C9}' ==> d == '\U{E9}'   // É -> é
    ensures c == '\U{CD}' ==> d == '\U{ED}'   // Í -> í
    ensures c == '\U{D3}' ==> d == '\U{F3}'   // Ó -> ó
    ensures c == '\U{DA}' ==> d == '\U{FA}'   // Ú -> ú
    ensures c == '\U{DC}' ==> d == '\U{FC}'   // Ü -> ü
    ensures c == '\U{D1}' ==> d == '\U{F1}'   // Ñ -> ñ
  {
    if IsUpperLetter(c) then (c as int + 32) as char else c
  }
}
