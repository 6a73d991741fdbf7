module Bytes {
  /** An octet, `unsigned char` in the C sources. */
  type Byte = x: int | 0 <= x < 256

  // The ASCII characters that the formats give a meaning to.
  const CR: Byte := 13
  const LF: Byte := 10
  const SPACE: Byte := 32
  const QUOTE: Byte := 34
  const HASH: Byte := 35
  const PERCENT: Byte := 37
  const APOSTROPHE: Byte := 39
  const STAR: Byte := 42
  const HYPHEN: Byte := 45
  const DOT: Byte := 46
  const SLASH: Byte := 47
  const COLON: Byte := 58
  const SEMICOLON: Byte := 59
  const EQUALS: Byte := 61
  const QUESTION: Byte := 63
  const AT_SIGN: Byte := 64
  const OPEN_BRACKET: Byte := 91
  const CLOSE_BRACKET: Byte := 93
  const UNDERSCORE: Byte := 95
  const TILDE: Byte := 126
}
