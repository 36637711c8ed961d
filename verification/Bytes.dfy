/** Bytes as the JSON engine sees them, the characters it names, and a few facts about sequences. */
module Bytes {

  type Byte = b: int | 0 <= b < 256

  const TAB: Byte := 9
  const LF: Byte := 10
  const CR: Byte := 13
  const SPACE: Byte := 32
  const BACKSPACE: Byte := 8
  const FORMFEED: Byte := 12
  const QUOTE: Byte := 34
  const APOSTROPHE: Byte := 39
  const STAR: Byte := 42
  const PLUS: Byte := 43
  const COMMA: Byte := 44
  const MINUS: Byte := 45
  const SLASH: Byte := 47
  const COLON: Byte := 58
  const LBRACKET: Byte := 91
  const BACKSLASH: Byte := 92
  const RBRACKET: Byte := 93
  const LBRACE: Byte := 123
  const RBRACE: Byte := 125

  predicate IsDigit(b: int) {
    48 <= b <= 57
  }

  /** The bytes that may stand between two tokens. */
  predicate IsBlank(b: int) {
    b == SPACE || b == TAB || b == LF || b == CR
  }

  /** n copies of one byte. */
  function Repeat(b: Byte, n: int): (r: seq<Byte>)
    ensures |r| == if n < 0 then 0 else n
    ensures forall i :: 0 <= i < |r| ==> r[i] == b
  {
    if n <= 0 then [] else [b] + Repeat(b, n - 1)
  }

  /** The number of line feeds in s. */
  function CountLf(s: seq<Byte>): nat {
    if s == [] then 0 else CountLf(s[..|s| - 1]) + if s[|s| - 1] == LF then 1 else 0
  }

  lemma SplitTail<T>(a: seq<T>, b: seq<T>)
    requires a != []
    ensures (a + b)[0] == a[0]
    ensures (a + b)[1..] == a[1..] + b
  {
  }
}
