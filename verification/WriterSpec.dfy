/** The text the JSON writer produces for a value and a comment-free style (apps/jsonwriter.cpp). */
module WriterSpec {
  import opened Bytes
  import opened Decimal
  import opened JsonValue
  import opened Grammar

  /** The style bits, and the two indentation parameters. `formatDouble` is the library's "%.10g". */
  datatype Style = Style(styled: bool, splitString: bool, noLinefeeds: bool, escapeSolidus: bool, multilineString: bool,
    recognizeUnsigned: bool, tabIndent: bool, noIndentation: bool, memoryBuff: bool, indent: int, step: int,
    formatDouble: real -> Text)

  /** A value as the writer meets it: every object's members in the order in which its hash map yields them. */
  datatype Ordered = Leaf(v: JValue) | OArr(items: seq<Ordered>) | OObj(members: seq<Entry>)

  datatype Entry = Entry(key: Text, value: Ordered)

  /** No leaf is a container. */
  predicate ProperLeaves(o: Ordered) {
    match o
    case Leaf(v) => !v.Arr? && !v.Obj?
    case OArr(items) => forall i :: 0 <= i < |items| ==> ProperLeaves(items[i])
    case OObj(members) => forall i :: 0 <= i < |members| ==> ProperLeaves(members[i].value)
  }

  function Indent(style: Style, level: int): Text {
    if !style.styled || style.noIndentation then []
    else if style.tabIndent then Repeat(TAB, level)
    else Repeat(SPACE, style.indent + style.step * level)
  }

  function Separator(style: Style): Text {
    if style.styled && !style.noLinefeeds then [LF] else []
  }

  predicate Splits(style: Style) {
    style.styled && style.splitString
  }

  // ----- strings

  /** The letter of the escape a character has, or 0. */
  function EscapeLetter(b: Byte): Byte {
    if b == QUOTE || b == BACKSLASH || b == SLASH then b
    else if b == BACKSPACE then 98
    else if b == FORMFEED then 102
    else if b == LF then 110
    else if b == CR then 114
    else if b == TAB then 116
    else 0
  }

  predicate ShouldEscape(style: Style, b: Byte) {
    && EscapeLetter(b) != 0
    && (b == SLASH ==> style.escapeSolidus)
    && (b == LF || b == TAB ==> !style.multilineString)
  }

  /** One character of a string value. */
  function CharOut(style: Style, b: Byte): Text {
    if EscapeLetter(b) == 0 && b < 32 then [BACKSLASH, 117, 48, 48, HexChar(b / 16), HexChar(b % 16)]
    else if ShouldEscape(style, b) then [BACKSLASH, EscapeLetter(b)]
    else [b]
  }

  /** Closing and reopening the quotes after a line feed. */
  function Reopen(style: Style, level: int, quote: Byte): Text {
    [quote, LF] + Indent(style, level + 2) + [quote]
  }

  function StringBodyOut(style: Style, level: int, s: Text): Text {
    if s == [] then []
    else CharOut(style, s[0])
         + (if Splits(style) && s[0] == LF then Reopen(style, level, QUOTE) else [])
         + StringBodyOut(style, level, s[1..])
  }

  /** The string up to its first NUL, which is where strlen ends it. */
  function UpToNul(s: Text): Text {
    if s == [] || s[0] == 0 then [] else [s[0]] + UpToNul(s[1..])
  }

  function StringOut(style: Style, level: int, s: Text): Text {
    [QUOTE] + StringBodyOut(style, level, UpToNul(s)) + [QUOTE]
  }

  // ----- numbers and buffers

  function IntOut(i: int): Text {
    if i < 0 then [MINUS] + Digits(-i) else Digits(i)
  }

  function UIntOut(style: Style, u: nat): Text {
    (if style.recognizeUnsigned then [PLUS] else []) + Digits(u)
  }

  const ROW := 20
  const MIN_REST := 5

  /** The hexadecimal form: `written` bytes stand in the current row, which is closed after twenty of them when at
      least five bytes, the one just written included, were left. */
  function HexOut(style: Style, level: int, bs: Text, written: nat): Text {
    if bs == [] then []
    else
      var w := if Splits(style) then written + 1 else written;
      var cut := w >= ROW && |bs| >= MIN_REST;
      [HexChar(bs[0] / 16), HexChar(bs[0] % 16)]
      + (if cut then Reopen(style, level, APOSTROPHE) else [])
      + HexOut(style, level, bs[1..], if cut then 0 else w)
  }

  lemma HexEnd(style: Style, level: int, written: nat)
    ensures HexOut(style, level, [], written) == []
  {
  }

  lemma HexStep(style: Style, level: int, bs: Text, written: nat)
    requires bs != []
    ensures var w := if Splits(style) then written + 1 else written;
      var cut := w >= ROW && |bs| >= MIN_REST;
      HexOut(style, level, bs, written)
        == [HexChar(bs[0] / 16), HexChar(bs[0] % 16)] + (if cut then Reopen(style, level, APOSTROPHE) else [])
           + HexOut(style, level, bs[1..], if cut then 0 else w)
  {
  }

  /** The form of a buffer as an array of numbers. */
  function ByteListOut(bs: Text): Text {
    if bs == [] then []
    else Digits(bs[0]) + (if |bs| > 1 then [COMMA] else []) + ByteListOut(bs[1..])
  }

  function BuffOut(style: Style, level: int, bs: Text): Text {
    if style.memoryBuff then [APOSTROPHE] + HexOut(style, level, bs, 0) + [APOSTROPHE]
    else [LBRACKET] + ByteListOut(bs) + [RBRACKET]
  }

  /** The nine characters written for an invalid value. */
  const INVALID_TEXT: Text := [60, 105, 110, 118, 97, 108, 105, 100, 32]

  // ----- values

  function LeafOut(style: Style, level: int, v: JValue): Text {
    match v
    case Invalid => INVALID_TEXT
    case Null => [110, 117, 108, 108]
    case Bool(b) => if b then [116, 114, 117, 101] else [102, 97, 108, 115, 101]
    case Int(i) => IntOut(i)
    case UInt(u) => UIntOut(style, u)
    case Double(d) => style.formatDouble(d)
    case Str(s) => StringOut(style, level, s)
    case Buff(bs) => BuffOut(style, level, bs)
    case _ => []
  }

  function ValueOut(style: Style, level: int, o: Ordered): Text
    decreases o, 1
  {
    match o
    case Leaf(v) => LeafOut(style, level, v)
    case OArr(items) =>
      [LBRACKET] + Separator(style) + ItemsOut(style, level + 1, items) + Indent(style, level) + [RBRACKET]
    case OObj(members) =>
      [LBRACE] + Separator(style) + MembersOut(style, level + 1, members) + Indent(style, level) + [RBRACE]
  }

  /** What DoWrite appends: the value with its indentation, key, comma and separator. */
  function LineOut(style: Style, level: int, key: Option<Text>, comma: bool, o: Ordered): Text
    decreases o, 2
  {
    Indent(style, level) + KeyOut(style, level, key) + ValueOut(style, level, o)
    + (if comma then [COMMA] else []) + Separator(style)
  }

  function KeyOut(style: Style, level: int, key: Option<Text>): Text {
    match key
    case None => []
    case Some(k) => StringOut(style, level, k) + [SPACE, COLON, SPACE]
  }

  function ItemsOut(style: Style, level: int, items: seq<Ordered>): Text
    decreases items, 0
  {
    if items == [] then []
    else LineOut(style, level, None, |items| > 1, items[0]) + ItemsOut(style, level, items[1..])
  }

  function MembersOut(style: Style, level: int, members: seq<Entry>): Text
    decreases members, 0
  {
    if members == [] then []
    else LineOut(style, level, Some(members[0].key), |members| > 1, members[0].value) + MembersOut(style, level, members[1..])
  }

  /** The whole output of Write. */
  function Written(style: Style, o: Ordered): Text {
    LineOut(style, 0, None, false, o)
  }
}
