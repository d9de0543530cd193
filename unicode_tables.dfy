/**
 * The character classifications the extension methods depend on.  The whitespace class is
 * the complete one; the digit class and the upper-case mapping are exact on Latin-1
 * (U+0000..U+00FF) and approximations elsewhere.
 */
module UnicodeTables {
  import opened CsTypes

  /**
   * The regular-expression class `\s` of .NET: the control characters TAB, LF, VT, FF and CR,
   * NEXT LINE, and every code point of the separator categories Zs, Zl and Zp.
   */
  predicate IsWhiteSpace(c: CodeUnit) {
    (0x09 <= c <= 0x0D) || c == 0x20 || c == 0x85 || c == 0xA0 || c == 0x1680
    || (0x2000 <= c <= 0x200A) || c == 0x2028 || c == 0x2029 || c == 0x202F
    || c == 0x205F || c == 0x3000
  }

  /** `char.IsDigit`: decimal digits. Only the ASCII digits, which are the only ones in Latin-1. */
  predicate IsDigit(c: CodeUnit) {
    0x30 <= c <= 0x39
  }

  /**
   * `ToUpper` of a one-character string: the simple upper-case mapping of Unicode on Latin-1
   * (a..z, à..þ except ÷, µ to U+039C and ÿ to U+0178); every other code unit maps to itself.
   */
  function ToUpper(c: CodeUnit): (u: CodeUnit)
    ensures IsDigit(c) ==> u == c
    ensures IsWhiteSpace(c) ==> u == c
    ensures 0x61 <= c <= 0x7A ==> u == c - 0x20
  {
    if 0x61 <= c <= 0x7A then c - 0x20
    else if c == 0xB5 then 0x39C
    else if 0xE0 <= c <= 0xFE && c != 0xF7 then c - 0x20
    else if c == 0xFF then 0x178
    else c
  }

  /** Upper-casing an upper-case character changes nothing. */
  lemma ToUpperIdempotent(c: CodeUnit)
    ensures ToUpper(ToUpper(c)) == ToUpper(c)
  {
  }

  /** The general categories of `System.Globalization.UnicodeCategory`, in their .NET order. */
  datatype UnicodeCategory =
    | UppercaseLetter | LowercaseLetter | TitlecaseLetter | ModifierLetter | OtherLetter
    | NonSpacingMark | SpacingCombiningMark | EnclosingMark
    | DecimalDigitNumber | LetterNumber | OtherNumber
    | SpaceSeparator | LineSeparator | ParagraphSeparator
    | Control | Format | Surrogate | PrivateUse
    | ConnectorPunctuation | DashPunctuation | OpenPunctuation | ClosePunctuation
    | InitialQuotePunctuation | FinalQuotePunctuation | OtherPunctuation
    | MathSymbol | CurrencySymbol | ModifierSymbol | OtherSymbol
    | OtherNotAssigned

  /** `System.Text.NormalizationForm`. */
  datatype NormalizationForm = FormC | FormD | FormKC | FormKD
}
