/** The writer's output as a syntax tree: for every style the text written is the text of a tree of the grammar. */
module Layout {
  import opened Bytes
  import opened Decimal
  import opened JsonValue
  import opened ReaderSpec
  import opened Grammar
  import opened WriterSpec

  // ----- strings

  function EncodeChar(style: Style, b: Byte): Char {
    if EscapeLetter(b) == 0 && b < 32 then Code([48, 48, HexChar(b / 16), HexChar(b % 16)])
    else if ShouldEscape(style, b) then Short(EscapeLetter(b))
    else Raw(b)
  }

  /** Between two pieces of a string or buffer. */
  function RowGap(style: Style, level: int): Text {
    [LF] + Indent(style, level + 2)
  }

  /** The pieces of a string; `acc` holds the characters of the piece that is open. */
  function MakeLiteral(style: Style, level: int, s: Text, acc: seq<Char>): Literal {
    if s == [] then Last(acc)
    else
      var more := acc + [EncodeChar(style, s[0])];
      if Splits(style) && s[0] == LF then Split(more, Blanks(RowGap(style, level)), MakeLiteral(style, level, s[1..], []))
      else MakeLiteral(style, level, s[1..], more)
  }

  lemma {:induction false} CharsTextSnoc(cs: seq<Char>, c: Char)
    ensures CharsText(cs + [c]) == CharsText(cs) + CharText(c)
  {
    if cs == [] {
      assert cs + [c] == [c];
      assert [c][1..] == [] && CharsText([]) == [];
    } else {
      assert (cs + [c])[1..] == cs[1..] + [c];
      CharsTextSnoc(cs[1..], c);
    }
  }

  lemma LiteralStep(q: Text, a: Text, c: Text, x: Text, t: Text)
    ensures q + (a + c) + t == q + a + (c + [] + t)
    ensures q + (a + c) + [QUOTE] + x + ([QUOTE] + [] + t) == q + a + (c + ([QUOTE] + x + [QUOTE]) + t)
  {
  }

  lemma {:induction false} LiteralIsWritten(style: Style, level: int, s: Text, acc: seq<Char>)
    ensures LiteralText(MakeLiteral(style, level, s, acc))
      == [QUOTE] + CharsText(acc) + (StringBodyOut(style, level, s) + [QUOTE])
    decreases |s|
  {
    hide CharOut, Indent, CharsText;
    if s == [] {
      assert StringBodyOut(style, level, s) + [QUOTE] == [QUOTE];
    } else {
      var c := EncodeChar(style, s[0]);
      var t := StringBodyOut(style, level, s[1..]) + [QUOTE];
      CharsTextSnoc(acc, c);
      CharIsWritten(style, s[0]);
      LiteralStep([QUOTE], CharsText(acc), CharText(c), RowGap(style, level), t);
      if Splits(style) && s[0] == LF {
        LiteralIsWritten(style, level, s[1..], []);
        assert CharsText([]) == [] by { NoChars(); }
        assert Reopen(style, level, QUOTE) == [QUOTE] + RowGap(style, level) + [QUOTE];
      } else {
        LiteralIsWritten(style, level, s[1..], acc + [c]);
      }
      assert StringBodyOut(style, level, s) + [QUOTE]
        == CharOut(style, s[0]) + (if Splits(style) && s[0] == LF then Reopen(style, level, QUOTE) else []) + t;
    }
  }

  lemma NoChars()
    ensures CharsText([]) == []
  {
  }

  lemma CharIsWritten(style: Style, b: Byte)
    ensures CharText(EncodeChar(style, b)) == CharOut(style, b)
  {
  }

  // ----- buffers

  function MakeHex(style: Style, level: int, bs: Text, written: nat, acc: Text): Hex {
    if bs == [] then LastHex(acc)
    else
      var w := if Splits(style) then written + 1 else written;
      if w >= ROW && |bs| >= MIN_REST
      then SplitHex(acc + [bs[0]], Blanks(RowGap(style, level)), MakeHex(style, level, bs[1..], 0, []))
      else MakeHex(style, level, bs[1..], w, acc + [bs[0]])
  }

  lemma {:induction false} HexTextSnoc(bs: Text, b: Byte)
    ensures HexText(bs + [b]) == HexText(bs) + [HexChar(b / 16), HexChar(b % 16)]
  {
    if bs == [] {
      assert bs + [b] == [b];
      assert [b][1..] == [] && HexText([]) == [];
    } else {
      assert (bs + [b])[1..] == bs[1..] + [b];
      HexTextSnoc(bs[1..], b);
    }
  }

  lemma HexStep(q: Text, a: Text, c: Text, x: Text, t: Text)
    ensures q + (a + c) + t == q + a + (c + [] + t)
    ensures q + (a + c) + [APOSTROPHE] + x + ([APOSTROPHE] + [] + t)
      == q + a + (c + ([APOSTROPHE] + x + [APOSTROPHE]) + t)
  {
  }

  lemma {:induction false} HexIsWritten(style: Style, level: int, bs: Text, written: nat, acc: Text)
    ensures BufferText(MakeHex(style, level, bs, written, acc))
      == [APOSTROPHE] + HexText(acc) + (HexOut(style, level, bs, written) + [APOSTROPHE])
    decreases |bs|
  {
    hide Indent, HexText;
    if bs == [] {
      assert HexOut(style, level, bs, written) + [APOSTROPHE] == [APOSTROPHE];
    } else {
      var w := if Splits(style) then written + 1 else written;
      var cut := w >= ROW && |bs| >= MIN_REST;
      var c := [HexChar(bs[0] / 16), HexChar(bs[0] % 16)];
      var t := HexOut(style, level, bs[1..], if cut then 0 else w) + [APOSTROPHE];
      HexTextSnoc(acc, bs[0]);
      HexStep([APOSTROPHE], HexText(acc), c, RowGap(style, level), t);
      if cut {
        HexIsWritten(style, level, bs[1..], 0, []);
        assert HexText([]) == [] by { NoBytes(); }
        assert Reopen(style, level, APOSTROPHE) == [APOSTROPHE] + RowGap(style, level) + [APOSTROPHE];
      } else {
        HexIsWritten(style, level, bs[1..], w, acc + [bs[0]]);
      }
      assert HexOut(style, level, bs, written) + [APOSTROPHE]
        == c + (if cut then Reopen(style, level, APOSTROPHE) else []) + t;
    }
  }

  lemma NoBytes()
    ensures HexText([]) == []
  {
  }

  function ByteItems(bs: Text): Items {
    if bs == [] then NoItems else Item(Blanks([]), DNumber(Digits(bs[0])), Blanks([]), ByteItems(bs[1..]))
  }

  lemma {:induction false} ByteListIsWritten(bs: Text)
    ensures ItemsText(ByteItems(bs)) == ByteListOut(bs)
  {
    hide Digits;
    if bs != [] {
      ByteListIsWritten(bs[1..]);
      assert ByteItems(bs[1..]) == NoItems <==> |bs| == 1;
      ByteText(Digits(bs[0]), ItemsText(ByteItems(bs[1..])));
    }
  }

  lemma ByteText(t: Text, rest: Text)
    ensures [] + t + [] + rest == t + [] + rest == t + rest && [] + t + [] + ([COMMA] + rest) == t + [COMMA] + rest
  {
    assert [] + t + [] == t;
  }

  // ----- values

  /** A leaf whose text the grammar has; that of a double is the library's. */
  predicate InGrammar(v: JValue) {
    !v.Invalid? && !v.Arr? && !v.Obj?
  }

  predicate Writable(o: Ordered) {
    match o
    case Leaf(v) => InGrammar(v)
    case OArr(items) => forall i :: 0 <= i < |items| ==> Writable(items[i])
    case OObj(members) => forall i :: 0 <= i < |members| ==> Writable(members[i].value)
  }

  function LeafDoc(style: Style, level: int, v: JValue): Doc
    requires InGrammar(v)
  {
    match v
    case Null => DWord(NULL_TEXT)
    case Bool(b) => DWord(if b then TRUE_TEXT else FALSE_TEXT)
    case Int(i) => DNumber(IntOut(i))
    case UInt(u) => DNumber(UIntOut(style, u))
    case Double(d) => DNumber(style.formatDouble(d))
    case Str(s) => DString(MakeLiteral(style, level, UpToNul(s), []))
    case Buff(bs) =>
      if style.memoryBuff then DBuffer(MakeHex(style, level, bs, 0, [])) else DArray(Blanks([]), ByteItems(bs))
  }

  function ToDoc(style: Style, level: int, o: Ordered): Doc
    requires Writable(o)
    decreases o, 1
  {
    match o
    case Leaf(v) => LeafDoc(style, level, v)
    case OArr(items) =>
      DArray(Blanks(OpenGap(style, level, items == [])), ItemDocs(style, level, Indent(style, level + 1), items))
    case OObj(members) =>
      DObject(Blanks(OpenGap(style, level, members == [])), MemberDocs(style, level, Indent(style, level + 1), members))
  }

  /** The blanks after an opening character; those before the closing one belong to the last item, if any. */
  function OpenGap(style: Style, level: int, empty: bool): Text {
    Separator(style) + if empty then Indent(style, level) else []
  }

  function Post(style: Style, level: int, last: bool): Text {
    if last then Separator(style) + Indent(style, level) else []
  }

  function ItemDocs(style: Style, level: int, pre: Text, items: seq<Ordered>): Items
    requires forall i :: 0 <= i < |items| ==> Writable(items[i])
    decreases items, 0
  {
    if items == [] then NoItems
    else Item(Blanks(pre), ToDoc(style, level + 1, items[0]), Blanks(Post(style, level, |items| == 1)),
              ItemDocs(style, level, Separator(style) + Indent(style, level + 1), items[1..]))
  }

  function MemberDocs(style: Style, level: int, pre: Text, members: seq<Entry>): Members
    requires forall i :: 0 <= i < |members| ==> Writable(members[i].value)
    decreases members, 0
  {
    if members == [] then NoMembers
    else
      assert members[0].value < members[0];
      Member(Blanks(pre), MakeLiteral(style, level + 1, UpToNul(members[0].key), []), Blanks([SPACE]), Blanks([SPACE]),
             ToDoc(style, level + 1, members[0].value), Blanks(Post(style, level, |members| == 1)),
             MemberDocs(style, level, Separator(style) + Indent(style, level + 1), members[1..]))
  }

  lemma LeafIsWritten(style: Style, level: int, v: JValue)
    requires InGrammar(v)
    ensures LeafOut(style, level, v) == DocText(LeafDoc(style, level, v))
  {
    match v {
      case Str(s) => StringIsWritten(style, level, s);
      case Buff(bs) =>
        if style.memoryBuff {
          HexIsWritten(style, level, bs, 0, []);
          NoBytes();
          assert [APOSTROPHE] + [] + (HexOut(style, level, bs, 0) + [APOSTROPHE]) == BuffOut(style, level, bs);
        } else {
          ByteListIsWritten(bs);
        }
      case _ =>
    }
  }

  lemma StringIsWritten(style: Style, level: int, s: Text)
    ensures StringOut(style, level, s) == LiteralText(MakeLiteral(style, level, UpToNul(s), []))
  {
    LiteralIsWritten(style, level, UpToNul(s), []);
    NoChars();
    hide StringBodyOut, LiteralText, MakeLiteral, UpToNul, CharsText;
    assert [QUOTE] + [] + (StringBodyOut(style, level, UpToNul(s)) + [QUOTE]) == StringOut(style, level, s);
  }

  /** Main result on writing: the text of a value is the text of its syntax tree. */
  lemma {:induction false} ValueIsWritten(style: Style, level: int, o: Ordered)
    requires Writable(o)
    ensures ValueOut(style, level, o) == DocText(ToDoc(style, level, o))
    decreases o, 1
  {
    hide Indent, Separator;
    match o {
      case Leaf(v) => LeafIsWritten(style, level, v);
      case OArr(items) =>
        if items != [] {
          ItemsAreWritten(style, level, [], items);
          assert [] + Indent(style, level + 1) == Indent(style, level + 1);
        }
        ContainerText([LBRACKET], Separator(style), ItemsOut(style, level + 1, items), Indent(style, level), [RBRACKET]);
      case OObj(members) =>
        if members != [] {
          MembersAreWritten(style, level, [], members);
          assert [] + Indent(style, level + 1) == Indent(style, level + 1);
        }
        ContainerText([LBRACE], Separator(style), MembersOut(style, level + 1, members), Indent(style, level), [RBRACE]);
    }
  }

  lemma ContainerText(a: Text, s: Text, x: Text, i: Text, b: Text)
    ensures a + s + x + i + b == a + (s + []) + ([] + x + i) + b
    ensures x == [] ==> a + s + x + i + b == a + (s + i) + [] + b
  {
  }

  lemma {:induction false} ItemsAreWritten(style: Style, level: int, before: Text, items: seq<Ordered>)
    requires items != [] && forall i :: 0 <= i < |items| ==> Writable(items[i])
    ensures ItemsText(ItemDocs(style, level, before + Indent(style, level + 1), items))
      == before + ItemsOut(style, level + 1, items) + Indent(style, level)
    decreases items, 0
  {
    hide Indent, Separator, ValueOut, ToDoc;
    var v := ValueOut(style, level + 1, items[0]);
    ValueIsWritten(style, level + 1, items[0]);
    var i1, s, i0 := Indent(style, level + 1), Separator(style), Indent(style, level);
    if |items| == 1 {
      assert items[1..] == [];
      LastItemText(before, i1, v, s, i0);
    } else {
      ItemsAreWritten(style, level, s, items[1..]);
      NextItemText(before, i1, v, s, ItemsOut(style, level + 1, items[1..]), i0);
    }
  }

  lemma LastItemText(p: Text, i1: Text, v: Text, s: Text, i0: Text)
    ensures (p + i1) + v + (s + i0) + [] == p + ((i1 + [] + v + [] + s) + []) + i0
  {
  }

  lemma NextItemText(p: Text, i1: Text, v: Text, s: Text, more: Text, i0: Text)
    ensures (p + i1) + v + [] + ([COMMA] + (s + more + i0)) == p + ((i1 + [] + v + [COMMA] + s) + more) + i0
  {
  }

  lemma {:induction false} MembersAreWritten(style: Style, level: int, before: Text, members: seq<Entry>)
    requires members != [] && forall i :: 0 <= i < |members| ==> Writable(members[i].value)
    ensures MembersText(MemberDocs(style, level, before + Indent(style, level + 1), members))
      == before + MembersOut(style, level + 1, members) + Indent(style, level)
    decreases members, 0
  {
    hide Indent, Separator, ValueOut, ToDoc, StringOut;
    assert members[0].value < members[0];
    var v, k := ValueOut(style, level + 1, members[0].value), StringOut(style, level + 1, members[0].key);
    ValueIsWritten(style, level + 1, members[0].value);
    StringIsWritten(style, level + 1, members[0].key);
    var i1, s, i0 := Indent(style, level + 1), Separator(style), Indent(style, level);
    if |members| == 1 {
      assert members[1..] == [];
      LastMemberText(before, i1, k, v, s, i0);
    } else {
      MembersAreWritten(style, level, s, members[1..]);
      NextMemberText(before, i1, k, v, s, MembersOut(style, level + 1, members[1..]), i0);
    }
  }

  lemma LastMemberText(p: Text, i1: Text, k: Text, v: Text, s: Text, i0: Text)
    ensures (p + i1) + k + [SPACE] + [COLON] + [SPACE] + v + (s + i0) + []
      == p + ((i1 + (k + [SPACE, COLON, SPACE]) + v + [] + s) + []) + i0
  {
  }

  lemma NextMemberText(p: Text, i1: Text, k: Text, v: Text, s: Text, more: Text, i0: Text)
    ensures (p + i1) + k + [SPACE] + [COLON] + [SPACE] + v + [] + ([COMMA] + (s + more + i0))
      == p + ((i1 + (k + [SPACE, COLON, SPACE]) + v + [COMMA] + s) + more) + i0
  {
  }
}
