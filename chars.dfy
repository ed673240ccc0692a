/** Character classes of the two languages the site is written in. Regular
    expressions and `trim`/`strip` in the source rely on these classes, which
    differ between JavaScript and Python. */
module Chars {

  /** JavaScript `\s`, also the set `String.prototype.trim` removes: the
      WhiteSpace and LineTerminator code points of ECMAScript (sections 12.2
      and 12.3 of ECMA-262), i.e. TAB, VT, FF, SP, NBSP, ZWNBSP, the Zs
      category, LF, CR, LS and PS. */
  predicate JsSpace(c: char) {
    c == '\t' || c == '\n' || c == '\U{000B}' || c == '\U{000C}' || c == '\r' ||
    c == ' ' || c == '\U{00A0}' || c == '\U{1680}' ||
    ('\U{2000}' <= c <= '\U{200A}') ||
    c == '\U{2028}' || c == '\U{2029}' || c == '\U{202F}' || c == '\U{205F}' ||
    c == '\U{3000}' || c == '\U{FEFF}'
  }

  /** JavaScript `\d` (without the `u` flag it is ASCII only). */
  predicate JsDigit(c: char) {
    '0' <= c <= '9'
  }

  /** Python `str.isspace`, the set `str.strip()` removes: bidirectional
      classes WS, B and S and general category Zs. Unlike JavaScript it
      includes the separators U+001C..U+001F and NEL, and excludes ZWNBSP. */
  predicate PySpace(c: char) {
    ('\t' <= c <= '\r') || ('\U{001C}' <= c <= ' ') ||
    c == '\U{0085}' || c == '\U{00A0}' || c == '\U{1680}' ||
    ('\U{2000}' <= c <= '\U{200A}') ||
    c == '\U{2028}' || c == '\U{2029}' || c == '\U{202F}' || c == '\U{205F}' ||
    c == '\U{3000}'
  }

  /** `c` is one of the ten digits whose zero is the code point `zero`. */
  predicate InRun(c: char, zero: int) {
    zero <= c as int < zero + 10
  }

  /** Python `\d` on `str` patterns: any character of Unicode general
      category Nd (Unicode 15.0, 68 runs of ten digits). */
  predicate PyDigit(c: char) {
    // Basic Multilingual Plane
    InRun(c, 0x0030) || InRun(c, 0x0660) || InRun(c, 0x06F0) || InRun(c, 0x07C0) ||
    InRun(c, 0x0966) || InRun(c, 0x09E6) || InRun(c, 0x0A66) || InRun(c, 0x0AE6) ||
    InRun(c, 0x0B66) || InRun(c, 0x0BE6) || InRun(c, 0x0C66) || InRun(c, 0x0CE6) ||
    InRun(c, 0x0D66) || InRun(c, 0x0DE6) || InRun(c, 0x0E50) || InRun(c, 0x0ED0) ||
    InRun(c, 0x0F20) || InRun(c, 0x1040) || InRun(c, 0x1090) || InRun(c, 0x17E0) ||
    InRun(c, 0x1810) || InRun(c, 0x1946) || InRun(c, 0x19D0) || InRun(c, 0x1A80) ||
    InRun(c, 0x1A90) || InRun(c, 0x1B50) || InRun(c, 0x1BB0) || InRun(c, 0x1C40) ||
    InRun(c, 0x1C50) || InRun(c, 0xA620) || InRun(c, 0xA8D0) || InRun(c, 0xA900) ||
    InRun(c, 0xA9D0) || InRun(c, 0xA9F0) || InRun(c, 0xAA50) || InRun(c, 0xABF0) ||
    InRun(c, 0xFF10) ||
    // supplementary planes
    InRun(c, 0x104A0) || InRun(c, 0x10D30) || InRun(c, 0x11066) || InRun(c, 0x110F0) ||
    InRun(c, 0x11136) || InRun(c, 0x111D0) || InRun(c, 0x112F0) || InRun(c, 0x11450) ||
    InRun(c, 0x114D0) || InRun(c, 0x11650) || InRun(c, 0x116C0) || InRun(c, 0x11730) ||
    InRun(c, 0x118E0) || InRun(c, 0x11950) || InRun(c, 0x11C50) || InRun(c, 0x11D50) ||
    InRun(c, 0x11DA0) || InRun(c, 0x11F50) || InRun(c, 0x16A60) || InRun(c, 0x16AC0) ||
    InRun(c, 0x16B50) || (0x1D7CE <= c as int < 0x1D800) || InRun(c, 0x1E140) ||
    InRun(c, 0x1E2F0) || InRun(c, 0x1E4F0) || InRun(c, 0x1E950) || InRun(c, 0x1FBF0)
  }

  /** Every JavaScript digit is a Python digit, and no Python whitespace
      character is a Python digit. */
  lemma DigitClassesAgree(c: char)
    ensures JsDigit(c) ==> PyDigit(c)
    ensures PySpace(c) ==> !PyDigit(c)
  {
  }
}
