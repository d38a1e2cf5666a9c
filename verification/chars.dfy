/**
 * The fixed character classes of the sentenizer (lib/text_processor.py). The patterns
 * are unicode patterns compiled without re.UNICODE, so `\w` is the ASCII class
 * [A-Za-z0-9_].
 */
module Chars {

  /** The sentence delimiters: the `delimiter` list and the alternation the split uses. */
  predicate IsDelimiter(c: char)
  {
    c == '。' || c == '？' || c == '！' || c == '?' || c == '!' || c == '.' || c == '．' || c == '…'
  }

  /**
   * The bracketed class `[。|？|！|\?|!|\.|．|…]` of the two quote patterns. Inside
   * brackets `|` is a literal, so the vertical bar counts as a delimiter while masking.
   */
  predicate IsMaskDelimiter(c: char)
  {
    IsDelimiter(c) || c == '|'
  }

  /** The interior class `[^「|^」]`: anything but the brackets, `|` and `^`. */
  predicate IsQuoteInner(c: char)
  {
    c != '「' && c != '|' && c != '^' && c != '」'
  }

  predicate IsBracket(c: char)
  {
    c == '「' || c == '」'
  }

  /** The filler written over a masked delimiter run (`repl` of `__mask`). */
  const MaskChar: char := '#'

  /** The URL body class `[\w:;/.?%#&=+-]`. */
  predicate IsUrlChar(c: char)
  {
    ('a' <= c <= 'z') || ('A' <= c <= 'Z') || ('0' <= c <= '9') || c == '_'
    || c == ':' || c == ';' || c == '/' || c == '.' || c == '?' || c == '%'
    || c == '#' || c == '&' || c == '=' || c == '+' || c == '-'
  }

  /** The class `[a-zA-Z0-9!-/:-@[-`{-~]`, which together is the range '!'..'~'. */
  predicate IsPrintableAscii(c: char)
  {
    '!' <= c <= '~'
  }

  /** What Python 2's unicode.strip() removes (Unicode 5.2 whitespace). */
  predicate IsSpace(c: char)
  {
    ('\t' <= c <= '\r') || ('\U{1C}' <= c <= ' ') || c == '\U{85}' || c == '\U{A0}'
    || c == '\U{1680}' || c == '\U{180E}' || ('\U{2000}' <= c <= '\U{200A}')
    || c == '\U{2028}' || c == '\U{2029}' || c == '\U{202F}' || c == '\U{205F}'
    || c == '\U{3000}'
  }

  /** The two spaces `is_alphabet_only` deletes: ASCII space and the ideographic space. */
  predicate IsRemovedSpace(c: char)
  {
    c == ' ' || c == '　'
  }
}
