/**
 The delimiter character classes used by the five split modes of the tokenizer.
 Each regular-expression character class of `Tokenizer.py` is written out here as
 an explicit predicate on `char`, so no pattern engine is involved.
 */
module CharClasses {

  /** Python's `str.isspace`, the test behind `str.split()` with no argument:
      the ASCII controls TAB..CR, the four information separators, SPACE,
      NEXT LINE, NO-BREAK SPACE and the Unicode space separators. */
  predicate IsWhitespace(c: char) {
    || ('\t' <= c <= '\r')
    || ('\U{1C}' <= c <= '\U{1F}')
    || c == ' '
    || c == '\U{85}'
    || c == '\U{A0}'
    || c == '\U{1680}'
    || ('\U{2000}' <= c <= '\U{200A}')
    || c == '\U{2028}'
    || c == '\U{2029}'
    || c == '\U{202F}'
    || c == '\U{205F}'
    || c == '\U{3000}'
  }

  /** On ASCII, `str.isspace` holds for exactly the six characters of
      Python's `string.whitespace` and the four information separators. */
  lemma WhitespaceAscii(c: char)
    requires c <= '\U{7F}'
    ensures IsWhitespace(c) <==> c in " \t\n\r\U{0B}\U{0C}\U{1C}\U{1D}\U{1E}\U{1F}"
  {
  }

  /** The space is the only character both the space mode and the
      specialchars mode cut at: tabs and newlines are whitespace but not
      special. */
  lemma WhitespaceAndSpecial(c: char)
    ensures IsWhitespace(c) && IsSpecialChar(c) <==> c == ' '
  {
  }

  /** The class `[. ]` of the periods mode. */
  predicate IsPeriodOrSpace(c: char) {
    c == '.' || c == ' '
  }

  /** The fixed class of the specialchars mode: the 32 ASCII punctuation
      characters and the space character. Tab, newline and every non-ASCII
      character are not in it. */
  const SpecialClass: set<char> :=
    { '`', '-', '=', '~', '!', '@', '#', '$', '%', '^', '&', '*', '(', ')',
      '_', '+', '[', ']', '{', '}', ';', '\'', '\\', ':', '"', '|', '<', ',',
      '.', '/', '>', '?', ' ' }

  predicate IsSpecialChar(c: char) {
    c in SpecialClass
  }

  /** Read as ranges of code points, the special class is exactly the
      printable ASCII characters other than letters and digits: the
      punctuation `!`..`/`, `:`..`@`, `[`..`` ` `` and `{`..`~`, and the space. */
  lemma SpecialIsAsciiPunctuation(c: char)
    ensures IsSpecialChar(c) <==>
              || ('!' <= c <= '/') || (':' <= c <= '@') || ('[' <= c <= '`') || ('{' <= c <= '~')
              || c == ' '
  {
  }

  /** ASCII letters and digits are never special characters. */
  lemma AlphanumericNotSpecial(c: char)
    requires 'a' <= c <= 'z' || 'A' <= c <= 'Z' || '0' <= c <= '9'
    ensures !IsSpecialChar(c)
  {
  }

  /** The single delimiter of the newline mode. */
  predicate IsNewline(c: char) {
    c == '\n'
  }

  /** The delimiter test of the custom mode: membership in the configured characters. */
  function CustomDelim(chars: string): char -> bool {
    c => c in chars
  }

  /** The configured custom characters form a character class `[chars]` whose
      every character is read literally: it is non-empty, holds no `]` after the
      first character (there it would close the class early; a `]` in first
      position is a literal member of the class), no `\` that would start an
      escape, no leading `^` that would negate it, and no `-` between two
      characters that would form a range. */
  predicate LiteralClass(chars: string) {
    && |chars| > 0
    && chars[0] != '^'
    && (forall i :: 0 <= i < |chars| ==> chars[i] != '\\')
    && (forall i :: 0 < i < |chars| ==> chars[i] != ']')
    && (forall i :: 0 < i < |chars| - 1 ==> chars[i] != '-')
  }
}
