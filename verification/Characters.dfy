/** The characters and words of the JSON engine, spelled out. */
module Characters {
  import opened Bytes
  import opened Decimal
  import opened JsonValue
  import opened ReaderSpec
  import opened Grammar
  import opened WriterSpec

  /** b is one of the characters. */
  predicate Among(b: int, cs: string) {
    0 <= b < 256 && b as char in cs
  }

  /** t is the word, letter by letter. */
  predicate Is(t: Text, word: string) {
    |t| == |word| && forall i :: 0 <= i < |t| ==> t[i] == word[i] as int
  }

  lemma Codes()
    ensures SPACE == ' ' as int && TAB == '\t' as int && LF == '\n' as int && CR == '\r' as int
    ensures QUOTE == '\"' as int && APOSTROPHE == '\'' as int && BACKSLASH == '\\' as int && SLASH == '/' as int
    ensures STAR == '*' as int && PLUS == '+' as int && MINUS == '-' as int && COMMA == ',' as int && COLON == ':' as int
    ensures LBRACKET == '[' as int && RBRACKET == ']' as int && LBRACE == '{' as int && RBRACE == '}' as int
    ensures BACKSPACE == 8 && FORMFEED == 12 && LETTER_U == 'u' as int
  {
  }

  lemma Limits()
    ensures TWO63 == 0x8000_0000_0000_0000 && TWO64 == 0x1_0000_0000_0000_0000 && FIRST_REJECTED == 0x1_0000_0000_0000_0004
    ensures ROW == 20 && MIN_REST == 5
  {
  }

  lemma Words()
    ensures Is(NULL_TEXT, "null") && Is(TRUE_TEXT, "true") && Is(FALSE_TEXT, "false")
    ensures Is(NOT_VALID, "<UTF-8 stream not valid>") && Is(INVALID_TEXT, "<invalid ")
  {
  }

  /** Blanks and what ends a token. */
  lemma Classes(b: Byte)
    ensures IsBlank(b) <==> Among(b, " \t\n\r")
    ensures IsDigit(b) <==> Among(b, "0123456789")
    ensures EndsToken(b) <==> Among(b, " \t\n\r,:[]{}") || b == 8
    ensures !EndsToken(-1)
  {
  }
}
