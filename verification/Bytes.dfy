/** Bytes, and byte streams as the readers of this repository see them. */
module Bytes {

  type byte = x: int | 0 <= x < 256

  datatype Option<+T> = None | Some(value: T)

  /** The byte under the cursor. Past the last byte a stream goes on with NULs. */
  function Peek(s: seq<byte>, i: nat): byte {
    if i < |s| then s[i] else 0
  }

  /** How many values a 32-bit unsigned number has. */
  const WORD: nat := 0x1_0000_0000

  // The characters the grammars name.
  const PLUS: byte := 0x2B
  const COMMA: byte := 0x2C
  const MINUS: byte := 0x2D
  const DOT: byte := 0x2E
  const SLASH: byte := 0x2F
  const ZERO: byte := 0x30
  const NINE: byte := 0x39
  const COLON: byte := 0x3A
  const CAPITAL_A: byte := 0x41
  const CAPITAL_E: byte := 0x45
  const CAPITAL_F: byte := 0x46
  const LEFT_BRACKET: byte := 0x5B
  const RIGHT_BRACKET: byte := 0x5D
  const LETTER_A: byte := 0x61
  const LETTER_B: byte := 0x62
  const LETTER_E: byte := 0x65
  const LETTER_F: byte := 0x66
  const LETTER_N: byte := 0x6E
  const LETTER_R: byte := 0x72
  const LETTER_T: byte := 0x74
  const LETTER_U: byte := 0x75
  const LEFT_CURLY: byte := 0x7B
  const RIGHT_CURLY: byte := 0x7D
  const QUOTE: byte := 0x22
  const BACKSLASH: byte := 0x5C

  predicate IsDigit(c: byte) {
    ZERO <= c <= NINE
  }

  /** Concatenation of a list of strings, of bytes mostly. */
  function Concat<T>(chunks: seq<seq<T>>): seq<T> {
    if chunks == [] then [] else chunks[0] + Concat(chunks[1..])
  }
}
