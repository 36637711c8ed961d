/** JSON texts as syntax trees: the grammar of RFC 8259 (sections 2 to 7) together with the extensions the reader takes:
    comments, literals in any case, numerals with a plus sign, strings in several pieces, hexadecimal buffers. */
module Grammar {
  import opened Bytes
  import opened Decimal
  import opened JsonValue
  import opened ReaderSpec

  /** A character of a string: itself, a one-letter escape, or a \u escape. */
  datatype Char = Raw(b: Byte) | Short(e: Byte) | Code(q: Text)

  /** A comment of C, or one of C++, which ends with its line: in a line feed or in CR+LF. */
  datatype Comment = Block(body: Text) | ToLineEnd(body: Text, crlf: bool)

  /** What stands between two tokens; RFC 8259 knows only Blanks. */
  datatype Gap = Blanks(blanks: Text) | Commented(blanks: Text, comment: Comment, rest: Gap)

  /** A string, in pieces with gaps between them; RFC 8259 knows only Last. */
  datatype Literal = Last(chars: seq<Char>) | Split(chars: seq<Char>, gap: Gap, rest: Literal)

  /** A memory buffer in hexadecimal, in pieces with gaps between them. */
  datatype Hex = LastHex(bytes: Text) | SplitHex(bytes: Text, gap: Gap, rest: Hex)

  datatype Doc =
    | DWord(text: Text)
    | DNumber(text: Text)
    | DString(lit: Literal)
    | DBuffer(hex: Hex)
    | DArray(gap: Gap, items: Items)
    | DObject(gap: Gap, members: Members)

  datatype Items = NoItems | Item(pre: Gap, doc: Doc, post: Gap, rest: Items)

  datatype Members =
    | NoMembers
    | Member(pre: Gap, name: Literal, mid: Gap, gap: Gap, doc: Doc, post: Gap, rest: Members)

  // ----- the text of a tree

  function CommentText(c: Comment): Text {
    match c
    case Block(body) => [SLASH, STAR] + body + [STAR, SLASH]
    case ToLineEnd(body, crlf) => [SLASH, SLASH] + body + if crlf then [CR, LF] else [LF]
  }

  function GapText(g: Gap): Text {
    match g
    case Blanks(b) => b
    case Commented(b, c, rest) => b + CommentText(c) + GapText(rest)
  }

  function CharText(c: Char): Text {
    match c
    case Raw(b) => [b]
    case Short(e) => [BACKSLASH, e]
    case Code(q) => [BACKSLASH, LETTER_U] + q
  }

  function CharsText(cs: seq<Char>): Text {
    if cs == [] then [] else CharText(cs[0]) + CharsText(cs[1..])
  }

  function LiteralText(l: Literal): Text {
    match l
    case Last(cs) => [QUOTE] + CharsText(cs) + [QUOTE]
    case Split(cs, gap, rest) => [QUOTE] + CharsText(cs) + [QUOTE] + GapText(gap) + LiteralText(rest)
  }

  /** The two digits 0-9A-F of a byte, in the arithmetic of the writer. */
  function HexChar(d: int): Byte
    requires 0 <= d < 16
  {
    if d > 9 then 55 + d else 48 + d
  }

  function HexText(bs: Text): Text {
    if bs == [] then [] else [HexChar(bs[0] / 16), HexChar(bs[0] % 16)] + HexText(bs[1..])
  }

  function BufferText(h: Hex): Text {
    match h
    case LastHex(bs) => [APOSTROPHE] + HexText(bs) + [APOSTROPHE]
    case SplitHex(bs, gap, rest) => [APOSTROPHE] + HexText(bs) + [APOSTROPHE] + GapText(gap) + BufferText(rest)
  }

  function DocText(d: Doc): Text {
    match d
    case DWord(t) => t
    case DNumber(t) => t
    case DString(l) => LiteralText(l)
    case DBuffer(h) => BufferText(h)
    case DArray(gap, items) => [LBRACKET] + GapText(gap) + ItemsText(items) + [RBRACKET]
    case DObject(gap, members) => [LBRACE] + GapText(gap) + MembersText(members) + [RBRACE]
  }

  function ItemsText(items: Items): Text {
    match items
    case NoItems => []
    case Item(pre, d, post, rest) =>
      GapText(pre) + DocText(d) + GapText(post) + if rest == NoItems then [] else [COMMA] + ItemsText(rest)
  }

  function MembersText(members: Members): Text {
    match members
    case NoMembers => []
    case Member(pre, name, mid, gap, d, post, rest) =>
      GapText(pre) + LiteralText(name) + GapText(mid) + [COLON] + GapText(gap) + DocText(d) + GapText(post)
      + if rest == NoMembers then [] else [COMMA] + MembersText(rest)
  }

  // ----- the value of a tree

  function CharBytes(lib: Lib, c: Char): Text
    requires CharOk(c)
  {
    match c
    case Raw(b) => [b]
    case Short(e) => [SimpleEscape(e)]
    case Code(q) => EscapedBytes(lib, q).value
  }

  function CharsBytes(lib: Lib, cs: seq<Char>): Text
    requires CharsOk(cs)
  {
    if cs == [] then [] else CharBytes(lib, cs[0]) + CharsBytes(lib, cs[1..])
  }

  function LiteralBytes(lib: Lib, l: Literal): Text
    requires LiteralOk(lib, l)
  {
    match l
    case Last(cs) => CharsBytes(lib, cs)
    case Split(cs, gap, rest) => CharsBytes(lib, cs) + LiteralBytes(lib, rest)
  }

  function HexBytes(h: Hex): Text {
    match h
    case LastHex(bs) => bs
    case SplitHex(bs, gap, rest) => bs + HexBytes(rest)
  }

  /** t is the word, each of its letters as it is or in upper case. */
  predicate Spells(t: Text, word: string) {
    |t| == |word| && forall i :: 0 <= i < |t| ==> t[i] == word[i] as int || t[i] == word[i] as int - 32
  }

  /** What a word stands for. */
  function Meant(t: Text): Option<JValue> {
    if Spells(t, "null") then Some(Null)
    else if Spells(t, "true") then Some(Bool(true))
    else if Spells(t, "false") then Some(Bool(false))
    else None
  }

  /** Some letter is a capital. */
  predicate HasCapital(t: Text) {
    exists i :: 0 <= i < |t| && 'A' as int <= t[i] <= 'Z' as int
  }

  ghost function DocValue(lib: Lib, d: Doc): (v: JValue)
    requires DocOk(lib, d)
    ensures v.IsValid()
  {
    match d
    case DWord(t) => Meant(t).value
    case DNumber(t) => Number(lib, t[0], t).value
    case DString(l) => Str(LiteralBytes(lib, l))
    case DBuffer(h) => Buff(HexBytes(h))
    case DArray(gap, items) => Arr(ItemValues(lib, items))
    case DObject(gap, members) => Obj(MemberValues(lib, members, map[]))
  }

  /** What an array holds. A buffer loses its bytes when it is stored. */
  ghost function ItemValues(lib: Lib, items: Items): seq<JValue>
    requires ItemsOk(lib, items)
  {
    match items
    case NoItems => []
    case Item(pre, d, post, rest) => [Cloned(DocValue(lib, d))] + ItemValues(lib, rest)
  }

  /** What an object holds, starting from m: the last of several equal names wins, the empty name is dropped. */
  ghost function MemberValues(lib: Lib, members: Members, m: map<Text, JValue>): map<Text, JValue>
    requires MembersOk(lib, members)
  {
    match members
    case NoMembers => m
    case Member(pre, name, mid, gap, d, post, rest) =>
      var k := LiteralBytes(lib, name);
      MemberValues(lib, rest, if k == [] then m else m[k := Cloned(DocValue(lib, d))])
  }

  // ----- well-formed trees

  predicate Blank(s: Text) {
    forall i :: 0 <= i < |s| ==> IsBlank(s[i])
  }

  /** At place i a star meets a slash. */
  predicate Meets(t: Text, i: nat)
    requires i + 1 < |t|
  {
    t[i] == STAR && t[i + 1] == SLASH
  }

  /** A comment of C ends where a star first meets a slash, the opening star included. */
  predicate CommentOk(c: Comment) {
    match c
    case Block(body) =>
      var t := [STAR] + body + [STAR, SLASH];
      forall i :: 0 <= i <= |body| ==> !Meets(t, i)
    case ToLineEnd(body, _) => LF !in body && CR !in body
  }

  predicate GapOk(g: Gap) {
    match g
    case Blanks(b) => Blank(b)
    case Commented(b, c, rest) => Blank(b) && CommentOk(c) && GapOk(rest)
  }

  /** A word and a number end at a blank or at a structural character only, not at a slash. */
  predicate Separates(d: Doc, post: Gap) {
    (d.DWord? || d.DNumber?) && post.Commented? ==> post.blanks != []
  }

  predicate CharOk(c: Char) {
    match c
    case Raw(b) => b != QUOTE && b != BACKSLASH && b != CR
    case Short(e) => SimpleEscape(e) >= 0
    case Code(q) => IsHexQuad(q)
  }

  predicate CharsOk(cs: seq<Char>) {
    forall i :: 0 <= i < |cs| ==> CharOk(cs[i])
  }

  predicate LiteralOk(lib: Lib, l: Literal) {
    match l
    case Last(cs) => CharsOk(cs) && lib.utf8Ok(CharsBytes(lib, cs))
    case Split(cs, gap, rest) => CharsOk(cs) && lib.utf8Ok(CharsBytes(lib, cs)) && GapOk(gap) && LiteralOk(lib, rest)
  }

  predicate HexOk(h: Hex) {
    match h
    case LastHex(_) => true
    case SplitHex(_, gap, rest) => GapOk(gap) && HexOk(rest)
  }

  /** No character of t ends a token. */
  predicate OneToken(t: Text) {
    forall i :: 0 <= i < |t| ==> !EndsToken(t[i])
  }

  ghost predicate NumberOk(lib: Lib, t: Text) {
    && t != [] && OneToken(t)
    && (IsDigit(t[0]) || t[0] == PLUS || t[0] == MINUS)
    && Number(lib, t[0], t).Some?
  }

  ghost predicate DocOk(lib: Lib, d: Doc) {
    match d
    case DWord(t) => Meant(t).Some?
    case DNumber(t) => NumberOk(lib, t)
    case DString(l) => LiteralOk(lib, l)
    case DBuffer(h) => HexOk(h)
    case DArray(gap, items) => GapOk(gap) && ItemsOk(lib, items)
    case DObject(gap, members) => GapOk(gap) && MembersOk(lib, members)
  }

  ghost predicate ItemsOk(lib: Lib, items: Items) {
    match items
    case NoItems => true
    case Item(pre, d, post, rest) =>
      GapOk(pre) && DocOk(lib, d) && GapOk(post) && Separates(d, post) && ItemsOk(lib, rest)
  }

  ghost predicate MembersOk(lib: Lib, members: Members) {
    match members
    case NoMembers => true
    case Member(pre, name, mid, gap, d, post, rest) =>
      && GapOk(pre) && LiteralOk(lib, name) && GapOk(mid) && GapOk(gap)
      && DocOk(lib, d) && GapOk(post) && Separates(d, post) && MembersOk(lib, rest)
  }

  // ----- the diagnostics a tree calls for, in order

  function GapKinds(g: Gap): seq<Kind> {
    match g
    case Blanks(_) => []
    case Commented(_, _, rest) => [CommentFound] + GapKinds(rest)
  }

  function LiteralKinds(l: Literal): seq<Kind> {
    match l
    case Last(_) => []
    case Split(_, gap, rest) => GapKinds(gap) + ([MultilineString] + LiteralKinds(rest))
  }

  function HexKinds(h: Hex): seq<Kind> {
    match h
    case LastHex(_) => [BufferFound]
    case SplitHex(_, gap, rest) => [BufferFound] + (GapKinds(gap) + HexKinds(rest))
  }

  function DocKinds(lib: Lib, d: Doc): seq<Kind> {
    match d
    case DWord(t) => if HasCapital(t) then [LiteralCase] else []
    case DNumber(_) => []
    case DString(l) => LiteralKinds(l)
    case DBuffer(h) => HexKinds(h)
    case DArray(gap, items) => GapKinds(gap) + ItemKinds(lib, items)
    case DObject(gap, members) => GapKinds(gap) + MemberKinds(lib, members)
  }

  function ItemKinds(lib: Lib, items: Items): seq<Kind> {
    match items
    case NoItems => []
    case Item(pre, d, post, rest) => GapKinds(pre) + DocKinds(lib, d) + GapKinds(post) + ItemKinds(lib, rest)
  }

  predicate IsEmptyName(lib: Lib, name: Literal) {
    LiteralOk(lib, name) && LiteralBytes(lib, name) == []
  }

  /** What a value with an empty name is told before it is read. */
  function OpenKinds(d: Doc): seq<Kind> {
    if d.DArray? || d.DObject? then [OpenNameMissing] else []
  }

  function NameKinds(pre: Gap, name: Literal, mid: Gap, gap: Gap): seq<Kind> {
    GapKinds(pre) + LiteralKinds(name) + GapKinds(mid) + GapKinds(gap)
  }

  function MemberKinds(lib: Lib, members: Members): seq<Kind> {
    match members
    case NoMembers => []
    case Member(pre, name, mid, gap, d, post, rest) =>
      var empty := IsEmptyName(lib, name);
      NameKinds(pre, name, mid, gap)
      + ((if empty then OpenKinds(d) else []) + DocKinds(lib, d) + GapKinds(post))
      + (if empty then [KeyMissing] else [])
      + MemberKinds(lib, rest)
  }

  /** The number of arrays and objects in a tree. */
  function Containers(d: Doc): nat {
    match d
    case DArray(_, items) => 1 + ItemContainers(items)
    case DObject(_, members) => 1 + MemberContainers(members)
    case _ => 0
  }

  function ItemContainers(items: Items): nat {
    match items
    case NoItems => 0
    case Item(_, d, _, rest) => Containers(d) + ItemContainers(rest)
  }

  function MemberContainers(members: Members): nat {
    match members
    case NoMembers => 0
    case Member(_, _, _, _, d, _, rest) => Containers(d) + MemberContainers(rest)
  }

  /** How deeply arrays and objects are nested in a tree. */
  function Nesting(d: Doc): nat {
    match d
    case DArray(_, items) => 1 + ItemNesting(items)
    case DObject(_, members) => 1 + MemberNesting(members)
    case _ => 0
  }

  function Larger(a: nat, b: nat): nat {
    if a < b then b else a
  }

  function ItemNesting(items: Items): nat {
    match items
    case NoItems => 0
    case Item(_, d, _, rest) => Larger(Nesting(d), ItemNesting(rest))
  }

  function MemberNesting(members: Members): nat {
    match members
    case NoMembers => 0
    case Member(_, _, _, _, d, _, rest) => Larger(Nesting(d), MemberNesting(rest))
  }
}
