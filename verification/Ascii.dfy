/** The characters that the scanner, the parsers and the emitter name. */
module Ascii {
  import opened Bits

  const TAB: byte := 9
  const NEWLINE: byte := 10
  const RETURN: byte := 13
  const SPACE: byte := 32
  const QUOTE: byte := 34
  const APOSTROPHE: byte := 39
  const STAR: byte := 42
  const PLUS: byte := 43
  const MINUS: byte := 45
  const DOT: byte := 46
  const SLASH: byte := 47
  const DIGIT_0: byte := 48
  const COLON: byte := 58
  const EQUALS: byte := 61
  const GREATER: byte := 62
  const UPPER_T: byte := 84
  const UPPER_Z: byte := 90
  const OPEN_BRACKET: byte := 91
  const BACKSLASH: byte := 92
  const CLOSE_BRACKET: byte := 93
  const LETTER_B: byte := 98
  const LETTER_H: byte := 104
  const LETTER_M: byte := 109
  const LETTER_N: byte := 110
  const LETTER_R: byte := 114
  const LETTER_S: byte := 115
  const LETTER_T: byte := 116
  const LETTER_U: byte := 117
  const LETTER_X: byte := 120
  const OPEN_BRACE: byte := 123
  const CLOSE_BRACE: byte := 125

  // The character at pos, 0 behind the end.
  function CharAt(text: seq<byte>, pos: nat): byte { if pos < |text| then text[pos] else 0 }
}
