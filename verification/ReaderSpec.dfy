/** What the JSON reader does to its input, as functions of the bytes still to be read (apps/jsonreader.cpp).
    Flags and the error limit do not occur here: every diagnostic goes to one log, in the order it is raised. */
module ReaderSpec {
  import opened Bytes
  import opened Decimal
  import opened JsonValue

  /** The conversions of the string library the reader calls. */
  datatype Lib = Lib(
    utf8Ok: Text -> bool,                 // is the buffer valid UTF-8?
    toDouble: Text -> Option<real>,       // the text as a double
    encode: int -> Text,                  // the bytes appended for an escaped code above 0x7F
    scanHex: Text -> Option<Text>)        // the bytes appended for an escape that is not four hex digits

  /** The diagnostics of the reader. */
  datatype Kind =
    | NoStart | OpenNameMissing | OpenAfterValue | CloseMismatch | MissingAtEof
    | ColonOutsideObject | ColonAfterNonString | ColonAfterName
    | KeyOrValueMissing | ValueMissing | KeyMissing | ItemMissing | KeyInArray
    | CommentFound | StrangeSlash
    | UnknownEscape | BadEscape | BadUtf8 | MultilineString | StringAfterValue
    | TokenAfterValue | LiteralCase | BadLiteral
    | BufferFound | BadHexDigits | BufferAfterValue

  /** A diagnostic and the number of bytes that were unread when it was raised. */
  datatype Event = Event(kind: Kind, unread: nat)

  datatype St = St(rest: Text, log: seq<Event>, level: int, depth: int)

  function Note(st: St, kind: Kind): St {
    st.(log := st.log + [Event(kind, |st.rest|)])
  }

  // ----- characters

  /** One character: CR+LF arrives as LF, and a CR that ends the input is dropped. -1 is the end of input. */
  function Next(r: Text): (g: (int, Text))
    ensures -1 <= g.0 < 256 && |g.1| <= |r|
    ensures g.0 >= 0 ==> |g.1| < |r|
    ensures g.0 < 0 ==> g.1 == []
  {
    if r == [] then (-1, [])
    else if r[0] == CR then
      if |r| == 1 then (-1, [])
      else if r[1] == LF then (LF, r[2..])
      else (CR, r[1..])
    else (r[0], r[1..])
  }

  function Peek(r: Text): (c: int)
    ensures -1 <= c < 256
  {
    if r == [] then -1 else r[0]
  }

  function ReadChar(st: St): (g: (int, St))
    ensures g.1 == st.(rest := g.1.rest)
    ensures -1 <= g.0 < 256 && |g.1.rest| <= |st.rest|
    ensures g.0 >= 0 ==> |g.1.rest| < |st.rest|
  {
    var n := Next(st.rest);
    (n.0, st.(rest := n.1))
  }

  function SkipWhite(r: Text): (g: (int, Text))
    ensures -1 <= g.0 < 256 && |g.1| <= |r|
    ensures g.0 >= 0 ==> |g.1| < |r|
    decreases |r|
  {
    var n := Next(r);
    if n.0 == SPACE || n.0 == LF || n.0 == TAB then SkipWhite(n.1) else n
  }

  // ----- comments

  /** A C++ comment: up to a line feed, or to a lone CR, after which the next character is peeked, not read. */
  function LineComment(ch: int, r: Text): (g: (int, Text))
    requires -1 <= ch < 256
    ensures -1 <= g.0 < 256 && |g.1| <= |r|
    decreases |r|, if ch < 0 then 0 else 1
  {
    if ch < 0 || ch == LF then (ch, r)
    else if ch == CR then
      if Peek(r) == LF then Next(r) else (Peek(r), r)
    else
      var n := Next(r);
      LineComment(n.0, n.1)
  }

  function BlockComment(ch: int, r: Text): (g: (int, Text))
    requires -1 <= ch < 256
    ensures -1 <= g.0 < 256 && |g.1| <= |r|
    decreases |r|, if ch < 0 then 0 else 1
  {
    if ch < 0 then (ch, r)
    else
      var n := Next(r);
      if ch == STAR && Peek(r) == SLASH then Next(n.1) else BlockComment(n.0, n.1)
  }

  /** After a slash that starts no comment: up to a line feed or to the star of a comment's end. */
  function StrangeText(r: Text): (g: (int, Text))
    ensures -1 <= g.0 < 256 && |g.1| <= |r|
    decreases |r|
  {
    var n := Next(r);
    if n.0 < 0 || n.0 == LF || (n.0 == STAR && Peek(n.1) == SLASH) then n else StrangeText(n.1)
  }

  function SkipComment(st: St): (g: (int, St))
    ensures -1 <= g.0 < 256 && |g.1.rest| <= |st.rest|
    ensures g.0 >= 0 ==> |g.1.rest| < |st.rest|
    ensures g.1.level == st.level && g.1.depth == st.depth
  {
    var n := ReadChar(st);
    if n.0 < 0 then (-1, n.1)
    else if n.0 == SLASH then
      var s := Note(n.1, CommentFound);
      var g := LineComment(n.0, s.rest);
      (g.0, s.(rest := g.1))
    else if n.0 == STAR then
      var s := Note(n.1, CommentFound);
      var g := BlockComment(n.0, s.rest);
      (g.0, s.(rest := g.1))
    else
      var s := Note(n.1, StrangeSlash);
      var g := Next(StrangeText(s.rest).1);
      (g.0, s.(rest := g.1))
  }

  // ----- strings

  /** The byte a one-letter escape stands for, or -1. */
  function SimpleEscape(e: int): (b: int)
    ensures -1 <= b < 256
  {
    if e == 116 then TAB
    else if e == 110 then LF
    else if e == 98 then BACKSPACE
    else if e == 114 then CR
    else if e == 102 then FORMFEED
    else if e == QUOTE || e == BACKSLASH || e == SLASH then e
    else -1
  }

  const LETTER_U := 117

  function HexDigit(b: Byte): (d: int)
    ensures -1 <= d < 16
  {
    if IsDigit(b) then b - 48
    else if 65 <= b <= 70 then b - 55
    else if 97 <= b <= 102 then b - 87
    else -1
  }

  predicate IsHexQuad(q: Text) {
    |q| == 4 && forall i :: 0 <= i < 4 ==> HexDigit(q[i]) >= 0
  }

  function HexQuadValue(q: Text): (v: int)
    requires IsHexQuad(q)
    ensures 0 <= v < 0x10000
  {
    ((HexDigit(q[0]) * 16 + HexDigit(q[1])) * 16 + HexDigit(q[2])) * 16 + HexDigit(q[3])
  }

  /** The bytes a \u escape appends; None is an invalid escape. */
  function EscapedBytes(lib: Lib, q: Text): Option<Text> {
    if !IsHexQuad(q) then lib.scanHex(q)
    else if HexQuadValue(q) < 128 then Some([HexQuadValue(q)])
    else Some(lib.encode(HexQuadValue(q)))
  }

  /** Four characters after \u; a shorter result means that the input ended. */
  function ReadUes(r: Text, n: nat): (g: (Text, Text))
    requires n <= 4
    ensures |g.1| <= |r| && |g.0| <= n
  {
    if n == 0 then ([], r)
    else
      var c := Next(r);
      if c.0 < 0 then ([], c.1)
      else
        var g := ReadUes(c.1, n - 1);
        ([c.0] + g.0, g.1)
  }

  /** `ch` is the last character read; `cut` says that the input ended inside a \u escape. */
  datatype Scan = Scan(ch: int, st: St, buf: Text, cut: bool)

  /** The escape after a backslash: the last character read (0 after a \u escape), the state, the buffer, and
      whether the input ended inside a \u escape. */
  function Escape(lib: Lib, st: St, buf: Text): (r: (int, St, Text, bool))
    ensures -1 <= r.0 < 256 && |r.1.rest| <= |st.rest|
    ensures r.0 >= 0 ==> |r.1.rest| < |st.rest|
    ensures r.3 ==> r.0 < 0
    ensures r.1.level == st.level && r.1.depth == st.depth
  {
    var e := ReadChar(st);
    if e.0 < 0 then (e.0, e.1, buf, false)
    else if e.0 == LETTER_U then
      var q := ReadUes(e.1.rest, 4);
      var s := e.1.(rest := q.1);
      if |q.0| < 4 then (-1, s, buf, true)
      else
        var bs := EscapedBytes(lib, q.0);
        if bs == None then (0, Note(s, BadEscape), buf, false) else (0, s, buf + bs.value, false)
    else if SimpleEscape(e.0) >= 0 then (e.0, e.1, buf + [SimpleEscape(e.0)], false)
    else (e.0, Note(e.1, UnknownEscape), buf, false)
  }

  ghost function StringBody(lib: Lib, st: St, buf: Text): (r: Scan)
    ensures -1 <= r.ch < 256 && |r.st.rest| <= |st.rest|
    ensures r.ch >= 0 ==> |r.st.rest| < |st.rest|
    ensures r.cut ==> r.ch < 0
    ensures r.st.level == st.level && r.st.depth == st.depth
    decreases |st.rest|
  {
    var n := ReadChar(st);
    if n.0 == BACKSLASH then
      var e := Escape(lib, n.1, buf);
      if e.0 < 0 then Scan(e.0, e.1, e.2, e.3) else StringBody(lib, e.1, e.2)
    else if n.0 == QUOTE then Scan(n.0, n.1, buf, false)
    else if n.0 < 0 then Scan(n.0, n.1, buf + [255], false)
    else StringBody(lib, n.1, buf + [n.0])
  }

  /** "<UTF-8 stream not valid>" */
  const NOT_VALID: Text := [60, 85, 84, 70, 45, 56, 32, 115, 116, 114, 101, 97, 109, 32, 110, 111, 116, 32, 118, 97, 108,
    105, 100, 62]

  /** The value that a string makes of the value read so far. */
  function AddString(st: St, s: Text, val: JValue): (St, JValue) {
    match val
    case Invalid => (st, Str(s))
    case Str(t) => (Note(st, MultilineString), Str(t + s))
    case _ => (Note(st, StringAfterValue), val)
  }

  ghost function ReadString(lib: Lib, st: St, val: JValue): (r: (int, St, JValue))
    ensures -1 <= r.0 < 256 && |r.1.rest| <= |st.rest|
    ensures r.0 >= 0 ==> |r.1.rest| < |st.rest|
    ensures r.1.level == st.level && r.1.depth == st.depth
  {
    var b := StringBody(lib, st, []);
    if b.cut then (b.ch, b.st, val)
    else
      var ok := lib.utf8Ok(b.buf);
      var a := AddString(if ok then b.st else Note(b.st, BadUtf8), if ok then b.buf else NOT_VALID, val);
      if b.ch < 0 then (b.ch, a.0, a.1)
      else
        var n := ReadChar(a.0);
        (n.0, n.1, a.1)
  }

  // ----- tokens

  predicate EndsToken(ch: int) {
    IsBlank(ch) || ch == COMMA || ch == COLON || ch == LBRACKET || ch == RBRACKET || ch == LBRACE || ch == RBRACE
    || ch == BACKSPACE
  }

  /** The token that starts with ch, and the character after it. */
  function ReadToken(ch: int, r: Text, s: Text): (g: (int, Text, Text))
    requires -1 <= ch < 256
    ensures -1 <= g.0 < 256 && |g.1| <= |r|
    ensures g.0 >= 0 && !EndsToken(ch) ==> |g.1| < |r|
    decreases |r|, if ch < 0 then 0 else 1
  {
    if ch < 0 || EndsToken(ch) then (ch, r, s)
    else
      var n := Next(r);
      ReadToken(n.0, n.1, s + [ch])
  }

  function Lower(s: Text): (t: Text)
    ensures |t| == |s|
  {
    seq(|s|, i requires 0 <= i < |s| => if 65 <= s[i] <= 90 then s[i] + 32 else s[i])
  }

  const NULL_TEXT: Text := [110, 117, 108, 108]
  const TRUE_TEXT: Text := [116, 114, 117, 101]
  const FALSE_TEXT: Text := [102, 97, 108, 115, 101]

  /** The literals, matched without regard to case. */
  function WordValue(s: Text): Option<JValue> {
    if Lower(s) == NULL_TEXT then Some(Null)
    else if Lower(s) == TRUE_TEXT then Some(Bool(true))
    else if Lower(s) == FALSE_TEXT then Some(Bool(false))
    else None
  }

  /** The number a token is taken for: a plus sign forces unsigned, a minus sign signed. */
  ghost function Number(lib: Lib, ch: int, s: Text): Option<JValue> {
    if !IsDigit(ch) && ch != PLUS && ch != MINUS then None
    else if ch != PLUS && Signed(s).Some? then Some(Int(Signed(s).value))
    else if ch != MINUS && UnsignedResult(s).Some? then Some(UInt(UnsignedResult(s).value))
    else if lib.toDouble(s).Some? then Some(Double(lib.toDouble(s).value))
    else None
  }

  /** What the token s, which starts with ch, makes of the value read so far. */
  ghost function AddToken(lib: Lib, ch: int, s: Text, st: St, val: JValue): (r: (St, JValue))
    ensures r.0 == st.(log := r.0.log)
  {
    if val.IsValid() then (Note(st, TokenAfterValue), val)
    else if WordValue(s).Some? then (if s == Lower(s) then st else Note(st, LiteralCase), WordValue(s).value)
    else if Number(lib, ch, s).Some? then (st, Number(lib, ch, s).value)
    else (Note(st, BadLiteral), val)
  }

  ghost function ReadValue(lib: Lib, ch: int, st: St, val: JValue): (r: (int, St, JValue))
    requires -1 <= ch < 256
    ensures -1 <= r.0 < 256 && |r.1.rest| <= |st.rest|
    ensures r.0 >= 0 && !EndsToken(ch) ==> |r.1.rest| < |st.rest|
    ensures r.1.level == st.level && r.1.depth == st.depth
  {
    var t := ReadToken(ch, st.rest, []);
    var a := AddToken(lib, ch, t.2, st.(rest := t.1), val);
    (t.0, a.0, a.1)
  }

  // ----- memory buffers

  /** One digit of the hexadecimal form, in the arithmetic of an unsigned char. */
  function BuffDigit(b: Byte): (d: int)
    ensures 0 <= d < 256
  {
    var c := (b - 48) % 256;
    if c > 9 then (c - 7) % 256 else c
  }

  /** The bytes up to the closing apostrophe, and the number of digit pairs that are none. */
  function BuffBody(r: Text, buf: Text, errors: nat): (g: (int, Text, Text, nat))
    ensures -1 <= g.0 < 256 && |g.1| <= |r|
    ensures g.0 >= 0 ==> |g.1| < |r|
    decreases |r|
  {
    var a := Next(r);
    if a.0 < 0 || a.0 == APOSTROPHE then (a.0, a.1, buf, errors)
    else
      var b := Next(a.1);
      if b.0 < 0 then (b.0, b.1, buf, errors)
      else if BuffDigit(a.0) > 15 || BuffDigit(b.0) > 15 then BuffBody(b.1, buf, errors + 1)
      else BuffBody(b.1, buf + [BuffDigit(a.0) * 16 + BuffDigit(b.0)], errors)
  }

  /** The pair of digits a byte is made of, or the end. */
  lemma BuffStep(r: Text, buf: Text, errors: nat)
    ensures var a := Next(r);
      var b := Next(a.1);
      BuffBody(r, buf, errors)
        == if a.0 < 0 || a.0 == APOSTROPHE then (a.0, a.1, buf, errors)
           else if b.0 < 0 then (b.0, b.1, buf, errors)
           else if BuffDigit(a.0) > 15 || BuffDigit(b.0) > 15 then BuffBody(b.1, buf, errors + 1)
           else BuffBody(b.1, buf + [BuffDigit(a.0) * 16 + BuffDigit(b.0)], errors)
  {
  }

  function AddBuffer(st: St, bs: Text, val: JValue): (St, JValue) {
    match val
    case Invalid => (st, Buff(bs))
    case Buff(t) => (st, Buff(t + bs))
    case _ => (Note(st, BufferAfterValue), val)
  }

  function ReadMemoryBuff(st: St, val: JValue): (r: (int, St, JValue))
    ensures -1 <= r.0 < 256 && |r.1.rest| <= |st.rest|
    ensures r.0 >= 0 ==> |r.1.rest| < |st.rest|
    ensures r.1.level == st.level && r.1.depth == st.depth
  {
    var s := Note(st, BufferFound);
    var b := BuffBody(s.rest, [], 0);
    var s1 := s.(rest := b.1);
    var a := AddBuffer(if b.3 > 0 then Note(s1, BadHexDigits) else s1, b.2, val);
    if b.0 < 0 then (b.0, a.0, a.1)
    else
      var n := ReadChar(a.0);
      (n.0, n.1, a.1)
  }

  // ----- structure

  predicate IsContainer(v: JValue) {
    v.Arr? || v.Obj?
  }

  /** StoreValue: the parent and the diagnostics after a comma, a closing character or the end of input. What is
      stored is a clone of the value, because the reader sets a line number on it while it is shared. */
  function StoreValue(ch: int, key: Text, value: JValue, parent: JValue, st: St): (r: (JValue, St))
    requires IsContainer(parent)
    ensures r.0.Arr? == parent.Arr? && IsContainer(r.0)
    ensures r.1 == st.(log := r.1.log)
  {
    if !value.IsValid() && key == [] then
      (parent, if ch == RBRACE || ch == RBRACKET then st else Note(st, KeyOrValueMissing))
    else if parent.Obj? then
      if !value.IsValid() then (parent, Note(st, ValueMissing))
      else if key == [] then (parent, Note(st, KeyMissing))
      else (Obj(parent.members[key := Cloned(value)]), st)
    else
      var s := if !value.IsValid() then Note(st, ItemMissing) else st;
      (Arr(parent.items + [Cloned(value)]), if key != [] then Note(s, KeyInArray) else s)
  }

  /** The diagnostics of an opening character inside `parent`. */
  function NoteOpen(key: Text, value: JValue, parent: JValue, st: St): (s: St)
    ensures s == st.(log := s.log)
  {
    var s := if parent.Obj? && key == [] then Note(st, OpenNameMissing) else st;
    if value.IsValid() then Note(s, OpenAfterValue) else s
  }

  /** The diagnostics, the key and the value after a colon. */
  function AddColon(key: Text, value: JValue, parent: JValue, st: St): (r: (Text, JValue, St))
    ensures r.2 == st.(log := r.2.log)
  {
    if !parent.Obj? then (key, value, Note(st, ColonOutsideObject))
    else if !value.Str? then (key, value, Note(st, ColonAfterNonString))
    else if key != [] then (key, value, Note(st, ColonAfterName))
    else (value.s, Invalid, st)
  }

  /** Hang stands for a loop that never ends. */
  datatype Outcome = Done(ch: int, st: St, v: JValue) | Hang

  /** What one iteration leads to: another one, or the return from DoRead. */
  datatype Move = Go(ch: int, key: Text, value: JValue, parent: JValue, st: St) | Stop(result: Outcome)

  /** One iteration of the loop of DoRead on a character that opens no container. */
  ghost function Turn(lib: Lib, ch: int, key: Text, value: JValue, parent: JValue, st: St): (m: Move)
    requires IsContainer(parent) && 0 < ch < 256 && ch != LBRACE && ch != LBRACKET
    ensures m.Go? ==> -1 <= m.ch < 256 && IsContainer(m.parent) && m.parent.Arr? == parent.Arr?
    ensures m.Go? ==> |m.st.rest| <= |st.rest| && (m.ch >= 0 ==> |m.st.rest| < |st.rest|)
    ensures m.Stop? && m.result.Done? ==> -1 <= m.result.ch < 256 && |m.result.st.rest| <= |st.rest|
    ensures m.Stop? && m.result.Done? ==> IsContainer(m.result.v) && m.result.v.Arr? == parent.Arr?
  {
    if IsBlank(ch) then
      var n := SkipWhite(st.rest);
      Go(n.0, key, value, parent, st.(rest := n.1))
    else if ch == SLASH then
      var n := SkipComment(st);
      Go(n.0, key, value, parent, n.1)
    else if ch == RBRACE then
      var s := StoreValue(ch, key, value, parent, if parent.Obj? then st else Note(st, CloseMismatch));
      var n := ReadChar(s.1);
      Stop(Done(n.0, n.1, s.0))
    else if ch == RBRACKET then
      var s := StoreValue(ch, key, value, parent, if parent.Arr? then st else Note(st, CloseMismatch));
      Stop(Done(0, s.1, s.0))
    else if ch == COMMA then
      var s := StoreValue(ch, key, value, parent, st);
      var n := ReadChar(s.1);
      Go(n.0, [], Invalid, s.0, n.1)
    else if ch == QUOTE then
      var v := ReadString(lib, st, value);
      Go(v.0, key, v.2, parent, v.1)
    else if ch == APOSTROPHE then
      var v := ReadMemoryBuff(st, value);
      Go(v.0, key, v.2, parent, v.1)
    else if ch == COLON then
      var c := AddColon(key, value, parent, st);
      var n := ReadChar(c.2);
      Go(n.0, c.0, c.1, parent, n.1)
    else if ch == BACKSPACE then
      Stop(Hang)
    else
      var v := ReadValue(lib, ch, st, value);
      Go(v.0, key, v.2, parent, v.1)
  }

  lemma TurnOnBackspace(lib: Lib, key: Text, value: JValue, parent: JValue, st: St)
    requires IsContainer(parent)
    ensures Turn(lib, BACKSPACE, key, value, parent, st) == Stop(Hang)
  {
  }

  /** The state in which DoRead starts its loop. */
  function Enter(st: St): St {
    var level := st.level + 1;
    st.(level := level, depth := if st.depth < level then level else st.depth)
  }

  /** DoRead: `parent` is the container whose opening character has been read. */
  ghost function DoRead(lib: Lib, parent: JValue, st: St): (r: Outcome)
    requires IsContainer(parent)
    ensures r.Done? ==> -1 <= r.ch < 256 && |r.st.rest| <= |st.rest| && IsContainer(r.v) && r.v.Arr? == parent.Arr?
    ensures r.Done? && r.ch >= 0 ==> |r.st.rest| < |st.rest|
    decreases |st.rest|, 2
  {
    Loop(lib, 0, [], Invalid, parent, Enter(st))
  }

  /** The loop of DoRead, with `ch` as its switch variable: 0 asks for the next character. */
  ghost function Loop(lib: Lib, ch: int, key: Text, value: JValue, parent: JValue, st: St): (r: Outcome)
    requires IsContainer(parent) && -1 <= ch < 256
    ensures r.Done? ==> -1 <= r.ch < 256 && |r.st.rest| <= |st.rest| && IsContainer(r.v) && r.v.Arr? == parent.Arr?
    ensures r.Done? && r.ch >= 0 && ch == 0 ==> |r.st.rest| < |st.rest|
    decreases |st.rest|, if ch < 0 then 0 else if ch == 0 then 1 else 3
  {
    if ch < 0 then
      var s := StoreValue(ch, key, value, parent, Note(st, MissingAtEof));
      Done(ch, s.1.(level := st.level - 1), s.0)
    else if ch == 0 then
      var n := ReadChar(st);
      Loop(lib, n.0, key, value, parent, n.1)
    else if ch == LBRACE || ch == LBRACKET then
      var inner := DoRead(lib, if ch == LBRACE then ToObject(value) else ToArray(value), NoteOpen(key, value, parent, st));
      if inner == Hang then Hang else Loop(lib, inner.ch, key, inner.v, parent, inner.st)
    else
      match Turn(lib, ch, key, value, parent, st)
      case Go(c, k, v, p, s) => Loop(lib, c, k, v, p, s)
      case Stop(r) => r
  }

  // The start of the loop, and the four ways it goes on.

  lemma EnterLoop(lib: Lib, parent: JValue, st: St)
    requires IsContainer(parent)
    ensures DoRead(lib, parent, st) == Loop(lib, 0, [], Invalid, parent, Enter(st))
  {
  }

  lemma LoopStops(lib: Lib, ch: int, key: Text, value: JValue, parent: JValue, st: St)
    requires IsContainer(parent) && -1 <= ch < 0
    ensures var s := StoreValue(ch, key, value, parent, Note(st, MissingAtEof));
      Loop(lib, ch, key, value, parent, st) == Done(ch, s.1.(level := st.level - 1), s.0)
  {
  }

  lemma LoopReads(lib: Lib, key: Text, value: JValue, parent: JValue, st: St)
    requires IsContainer(parent)
    ensures Loop(lib, 0, key, value, parent, st) == Loop(lib, ReadChar(st).0, key, value, parent, ReadChar(st).1)
  {
  }

  lemma LoopOpens(lib: Lib, ch: int, key: Text, value: JValue, parent: JValue, st: St)
    requires IsContainer(parent) && (ch == LBRACE || ch == LBRACKET)
    ensures var inner := DoRead(lib, if ch == LBRACE then ToObject(value) else ToArray(value), NoteOpen(key, value, parent, st));
      Loop(lib, ch, key, value, parent, st)
        == if inner == Hang then Hang else Loop(lib, inner.ch, key, inner.v, parent, inner.st)
  {
  }

  lemma LoopTurns(lib: Lib, ch: int, key: Text, value: JValue, parent: JValue, st: St)
    requires IsContainer(parent) && 0 < ch < 256 && ch != LBRACE && ch != LBRACKET
    ensures Loop(lib, ch, key, value, parent, st) == match Turn(lib, ch, key, value, parent, st)
      case Go(c, k, v, p, s) => Loop(lib, c, k, v, p, s)
      case Stop(r) => r
  {
  }

  /** Where Loop says Hang, the code hands the backspace to ReadValue, which hands it back with nothing consumed
      and the value unchanged: the next iteration is the same one. */
  lemma BackspaceComesBack(lib: Lib, st: St, val: JValue)
    ensures var v := ReadValue(lib, BACKSPACE, st, val); v.0 == BACKSPACE && v.1.rest == st.rest && v.2 == val
  {
    assert Lower([]) == [];
  }

  /** GetStart: everything up to the first opening character that is in no comment. */
  function GetStart(ch: int, st: St): (g: (int, St))
    requires -1 <= ch < 256
    ensures g.0 == -1 || g.0 == LBRACE || g.0 == LBRACKET
    ensures |g.1.rest| <= |st.rest| && g.1.level == st.level && g.1.depth == st.depth
    decreases |st.rest|, if ch < 0 then 0 else 1
  {
    if ch < 0 then (-1, st)
    else if ch == LBRACE || ch == LBRACKET then (ch, st)
    else
      var n := if ch == SLASH then SkipComment(st) else ReadChar(st);
      GetStart(n.0, n.1)
  }

  /** Parse into a value that holds v0. */
  ghost function Parse(lib: Lib, input: Text, v0: JValue): Outcome {
    var g := GetStart(0, St(input, [], 0, 0));
    if g.0 == LBRACE then DoRead(lib, ToObject(v0), g.1)
    else if g.0 == LBRACKET then DoRead(lib, ToArray(v0), g.1)
    else Done(-1, Note(g.1, NoStart), v0)
  }
}
