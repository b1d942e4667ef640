/**
 * The character classes the lexer asks Rust's `char` about.
 *
 * `char::is_whitespace` is the Unicode White_Space property, a list of 25
 * code points, and is written out.  `char::is_alphabetic` and
 * `char::is_numeric` consult the large Unicode property tables; they are
 * parameters of the model (`UnicodeProps`), constrained by `Coherent` to the
 * facts that hold of the real tables and that the lexer depends on.
 */
module Chars {

  /** `char::is_whitespace`: the White_Space property. */
  predicate IsWhitespace(c: char) {
    ('\U{0009}' <= c <= '\U{000D}') || c == '\U{0020}' || c == '\U{0085}' || c == '\U{00A0}'
    || c == '\U{1680}' || ('\U{2000}' <= c <= '\U{200A}') || c == '\U{2028}' || c == '\U{2029}'
    || c == '\U{202F}' || c == '\U{205F}' || c == '\U{3000}'
  }

  predicate IsAsciiLetter(c: char) {
    ('a' <= c <= 'z') || ('A' <= c <= 'Z')
  }

  predicate IsAsciiDigit(c: char) {
    '0' <= c <= '9'
  }

  /** The Alphabetic and Numeric property tables that `char` consults. */
  datatype UnicodeProps = UnicodeProps(isAlphabetic: char -> bool, isNumeric: char -> bool)

  /** `char::is_alphanumeric` is Alphabetic or Numeric. */
  predicate IsAlphanumeric(u: UnicodeProps, c: char) {
    u.isAlphabetic(c) || u.isNumeric(c)
  }

  /**
   * What the real tables satisfy: on ASCII they are exactly the letters and
   * the digits, and no White_Space character is alphabetic or numeric.
   */
  ghost predicate Coherent(u: UnicodeProps) {
    && (forall c :: c as int < 0x80 ==> (u.isAlphabetic(c) <==> IsAsciiLetter(c)))
    && (forall c :: c as int < 0x80 ==> (u.isNumeric(c) <==> IsAsciiDigit(c)))
    && (forall c :: IsWhitespace(c) ==> !u.isAlphabetic(c) && !u.isNumeric(c))
  }

  /** The tables restricted to ASCII: one instance of a coherent table. */
  function AsciiProps(): (u: UnicodeProps)
    ensures Coherent(u)
  {
    UnicodeProps(c => IsAsciiLetter(c), c => IsAsciiDigit(c))
  }
}
