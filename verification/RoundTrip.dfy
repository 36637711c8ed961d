/** Writing and reading back, and what the styles have in common. */
module RoundTrip {
  import opened Bytes
  import opened Decimal
  import opened JsonValue
  import opened ReaderSpec
  import opened Grammar
  import opened Completeness
  import opened Rfc8259
  import opened WriterSpec
  import opened Layout
  import opened SameAs
  import opened Diagnostics

  /** Valid UTF-8 cut after a line feed leaves two valid halves. */
  ghost predicate CutsAtLf(lib: Lib) {
    && lib.utf8Ok([])
    && forall s, t :: HalvesOk(lib, s, t)
  }

  ghost predicate HalvesOk(lib: Lib, s: Text, t: Text) {
    lib.utf8Ok(s + [LF] + t) ==> lib.utf8Ok(s + [LF]) && lib.utf8Ok(t)
  }

  // ----- strings

  lemma CharReadsBack(lib: Lib, style: Style, b: Byte)
    ensures var c := EncodeChar(style, b); CharOk(c) && CharBytes(lib, c) == [b]
  {
    if EscapeLetter(b) == 0 && b < 32 {
      assert HexDigit(HexChar(b / 16)) == b / 16 && HexDigit(HexChar(b % 16)) == b % 16;
      assert HexDigit(48) == 0;
    }
  }

  lemma {:induction false} CharsBytesSnoc(lib: Lib, cs: seq<Char>, c: Char)
    requires CharsOk(cs) && CharOk(c)
    ensures CharsBytes(lib, cs + [c]) == CharsBytes(lib, cs) + CharBytes(lib, c)
  {
    if cs == [] {
      assert cs + [c] == [c];
      assert [c][1..] == [] && CharsBytes(lib, []) == [];
    } else {
      assert (cs + [c])[1..] == cs[1..] + [c];
      CharsBytesSnoc(lib, cs[1..], c);
    }
  }

  /** Only blanks between the pieces. */
  predicate PlainPieces(l: Literal) {
    l.Split? ==> Plain(l.gap) && PlainPieces(l.rest)
  }

  predicate PlainRows(h: Hex) {
    h.SplitHex? ==> Plain(h.gap) && PlainRows(h.rest)
  }

  /** The string codec: whatever the style, the pieces written for s read back as s. */
  lemma {:induction false} LiteralReadsBack(lib: Lib, style: Style, level: int, s: Text, acc: seq<Char>)
    requires CutsAtLf(lib) && CharsOk(acc) && lib.utf8Ok(CharsBytes(lib, acc) + s)
    ensures var l := MakeLiteral(style, level, s, acc);
      && LiteralOk(lib, l)
      && LiteralBytes(lib, l) == CharsBytes(lib, acc) + s
      && (!Splits(style) ==> l.Last?)
      && PlainPieces(l)
    decreases |s|
  {
    if s == [] {
      assert CharsBytes(lib, acc) + s == CharsBytes(lib, acc);
    } else {
      var b, c := s[0], EncodeChar(style, s[0]);
      CharReadsBack(lib, style, b);
      CharsBytesSnoc(lib, acc, c);
      var bs := CharsBytes(lib, acc);
      assert bs + [b] + s[1..] == bs + s;
      if Splits(style) && b == LF {
        assert HalvesOk(lib, bs, s[1..]);
        GapIsBlank(style, level);
        assert CharsBytes(lib, []) + s[1..] == s[1..];
        LiteralReadsBack(lib, style, level, s[1..], []);
      } else {
        LiteralReadsBack(lib, style, level, s[1..], acc + [c]);
      }
    }
  }

  lemma BlanksAreBlank(style: Style, level: int)
    ensures Blank(Indent(style, level)) && Blank(Separator(style))
  {
  }

  lemma GapIsBlank(style: Style, level: int)
    ensures Blank(RowGap(style, level))
  {
    BlanksAreBlank(style, level + 2);
  }

  // ----- buffers

  /** The hexadecimal form decodes to exactly the bytes written, however its rows are split. */
  lemma {:induction false} HexReadsBack(style: Style, level: int, bs: Text, written: nat, acc: Text)
    ensures var h := MakeHex(style, level, bs, written, acc); HexOk(h) && HexBytes(h) == acc + bs && PlainRows(h)
    decreases |bs|
  {
    if bs == [] {
      assert acc + bs == acc;
    } else {
      var w := if Splits(style) then written + 1 else written;
      assert acc + [bs[0]] + bs[1..] == acc + bs;
      if w >= ROW && |bs| >= MIN_REST {
        GapIsBlank(style, level);
        HexReadsBack(style, level, bs[1..], 0, []);
        assert [] + bs[1..] == bs[1..];
      } else {
        HexReadsBack(style, level, bs[1..], w, acc + [bs[0]]);
      }
    }
  }

  /** The reader's own decoding of that form: on a fresh value it yields the bytes, but what it then stores in the
      enclosing array or object is an empty buffer. */
  lemma BuffersAreReadAndLost(lib: Lib, style: Style, level: int, bs: Text, key: Text, parent: JValue, st: St, tail: Text)
      returns (s: St)
    requires IsContainer(parent) && st.depth >= st.level && style.memoryBuff
    requires st.rest == BuffOut(style, level, bs) + tail
    ensures s.rest == tail && Loop(lib, 0, key, Invalid, parent, st) == Loop(lib, 0, key, Buff(bs), parent, s)
    ensures StoreValue(COMMA, [], Buff(bs), Arr([]), s).0 == Arr([Buff([])])
  {
    var h := MakeHex(style, level, bs, 0, []);
    HexReadsBack(style, level, bs, 0, []);
    LeafIsWritten(style, level, Buff(bs));
    assert [] + bs == bs;
    s := ReadHexPieces(lib, key, Invalid, parent, st, h, tail);
  }

  /** ArrayToMemoryBuff: the items that are integers from 0 to 255, as bytes. */
  function ArrayToBytes(items: seq<JValue>): Text {
    if items == [] then []
    else (if items[0].Int? && 0 <= items[0].i < 256 then [items[0].i] else []) + ArrayToBytes(items[1..])
  }

  lemma {:induction false} OneItemMore(items: seq<JValue>, n: nat)
    requires n < |items|
    ensures ArrayToBytes(items[..n + 1]) == ArrayToBytes(items[..n]) + ArrayToBytes([items[n]])
  {
    if n == 0 {
      assert items[..1] == [items[0]] && items[..0] == [];
    } else {
      var rest := items[1..];
      assert items[..n + 1][1..] == rest[..n] && items[..n][1..] == rest[..n - 1];
      OneItemMore(rest, n - 1);
    }
  }

  /** One item gives one byte exactly if it is an integer from 0 to 255. */
  lemma OneByte(v: JValue)
    ensures ArrayToBytes([v]) == match v case Int(i) => (if 0 <= i <= 255 then [i] else []) case _ => []
  {
    assert [v][1..] == [];
  }

  method ArrayToMemoryBuff(value: JValue) returns (buff: Text)
    ensures buff == if value.Arr? then ArrayToBytes(value.items) else []
  {
    buff := [];
    if value.Arr? {
      for i := 0 to |value.items|
        invariant buff == ArrayToBytes(value.items[..i])
      {
        OneItemMore(value.items, i);
        var item := value.items[i];
        if item.Int? && 0 <= item.i <= 255 {
          buff := buff + [item.i];
        }
      }
      assert value.items[..|value.items|] == value.items;
    }
  }

  function ByteValues(bs: Text): seq<JValue> {
    if bs == [] then [] else [Int(bs[0])] + ByteValues(bs[1..])
  }

  /** The array form of a buffer holds its bytes for ArrayToMemoryBuff. */
  lemma {:induction false} ByteListReadsBack(lib: Lib, bs: Text)
    ensures ItemsOk(lib, ByteItems(bs)) && ItemValues(lib, ByteItems(bs)) == ByteValues(bs)
    ensures ArrayToBytes(ByteValues(bs)) == bs
  {
    if bs != [] {
      ByteListReadsBack(lib, bs[1..]);
      ByteReadsBack(lib, bs[0]);
      ByteInFront(lib, bs);
    }
  }

  lemma ByteReadsBack(lib: Lib, b: Byte)
    ensures DocOk(lib, DNumber(Digits(b))) && DocValue(lib, DNumber(Digits(b))) == Int(b)
  {
    IntReadsBack(lib, b);
    assert IntOut(b) == Digits(b);
    hide Number, IntOut, Digits;
  }

  lemma ByteInFront(lib: Lib, bs: Text)
    requires bs != [] && ItemsOk(lib, ByteItems(bs[1..])) && ItemValues(lib, ByteItems(bs[1..])) == ByteValues(bs[1..])
    requires DocOk(lib, DNumber(Digits(bs[0]))) && DocValue(lib, DNumber(Digits(bs[0]))) == Int(bs[0])
    requires ArrayToBytes(ByteValues(bs[1..])) == bs[1..]
    ensures ItemsOk(lib, ByteItems(bs)) && ItemValues(lib, ByteItems(bs)) == ByteValues(bs)
    ensures ArrayToBytes(ByteValues(bs)) == bs
  {
    hide DocOk, DocValue, Digits;
    assert ([Int(bs[0])] + ByteValues(bs[1..]))[1..] == ByteValues(bs[1..]);
  }

  // ----- numbers

  lemma DigitsOnly(s: Text)
    requires s != [] && AllDigits(s)
    ensures OneToken(s) && !HasSign(s) && Unsigned(s) == s && Sign(s) == SPACE_SIGN && IsDigit(s[0])
  {
    assert IsDigit(s[0]);
  }

  lemma SignedDigits(c: Byte, s: Text)
    requires (c == MINUS || c == PLUS) && AllDigits(s)
    ensures OneToken([c] + s) && Unsigned([c] + s) == s && Sign([c] + s) == c
  {
    assert ([c] + s)[1..] == s;
  }

  lemma IntReadsBack(lib: Lib, i: int)
    requires -TWO63 <= i < TWO63
    ensures var t := IntOut(i); NumberOk(lib, t) && Number(lib, t[0], t) == Some(Int(i))
  {
    var m := if i < 0 then -i else i;
    var ds := Digits(m);
    SixtyFourBitsFit(m);
    assert m % TWO64 == m;
    if i < 0 {
      SignedDigits(MINUS, ds);
    } else {
      DigitsOnly(ds);
    }
  }

  /** What an unsigned number reads back as. */
  function UIntBack(style: Style, u: nat): JValue {
    if style.recognizeUnsigned || u >= TWO63 then UInt(u) else Int(u)
  }

  lemma UIntReadsBack(lib: Lib, style: Style, u: nat)
    requires u < TWO64
    ensures var t := UIntOut(style, u); NumberOk(lib, t) && Number(lib, t[0], t) == Some(UIntBack(style, u))
  {
    hide Digits, Value, Signed, UnsignedResult, AllDigits, OneToken;
    var ds, t := Digits(u), UIntOut(style, u);
    SixtyFourBitsFit(u);
    if style.recognizeUnsigned {
      SignedDigits(PLUS, ds);
      assert t == [PLUS] + ds;
    } else {
      assert t == ds;
      DigitsOnly(ds);
    }
    ConversionIsExact(t);
  }

  /** A double is read as that double exactly if the library converts its text back to it and neither integer
      conversion takes the text. */
  lemma DoubleReadsBack(lib: Lib, style: Style, d: real)
    requires var t := style.formatDouble(d); t != [] && OneToken(t) && (IsDigit(t[0]) || t[0] == PLUS || t[0] == MINUS)
    ensures var t := style.formatDouble(d);
      NumberOk(lib, t) && DocValue(lib, DNumber(t)) == Double(d) <==> DoubleFits(lib, style, d)
  {
    var t := style.formatDouble(d);
    SignDecides(t);
    hide Signed, UnsignedResult, OneToken;
  }

  /** What a plus sign keeps from the signed conversion the unsigned one takes, and a minus sign keeps all from that. */
  lemma SignDecides(t: Text)
    requires t != []
    ensures t[0] == PLUS && Signed(t).Some? ==> UnsignedResult(t).Some?
    ensures t[0] == MINUS ==> UnsignedResult(t) == None
  {
  }

  /** A double formatted without point and exponent comes back as an integer. */
  lemma WholeDoubles(lib: Lib, style: Style, d: real, i: int)
    requires -TWO63 <= i < TWO63 && style.formatDouble(d) == IntOut(i)
    ensures NumberOk(lib, style.formatDouble(d)) && DocValue(lib, DNumber(style.formatDouble(d))) == Int(i)
    ensures !DoubleFits(lib, style, d)
  {
    IntReadsBack(lib, i);
    hide Signed, UnsignedResult, OneToken, IntOut;
  }

  // ----- values

  /** The value an ordered tree stands for, with `g` applied to its leaves. */
  ghost function Assemble(o: Ordered, g: JValue -> JValue): JValue
    decreases o, 1
  {
    match o
    case Leaf(v) => g(v)
    case OArr(items) => Arr(seq(|items|, i requires 0 <= i < |items| => Assemble(items[i], g)))
    case OObj(members) => Obj(AssembleMembers(members, g, map[]))
  }

  ghost function AssembleMembers(members: seq<Entry>, g: JValue -> JValue, m: map<Text, JValue>): map<Text, JValue>
    decreases members, 0
  {
    if members == [] then m
    else
      assert members[0].value < members[0];
      AssembleMembers(members[1..], g, m[members[0].key := Assemble(members[0].value, g)])
  }

  /** No change of leaves. */
  function AsIs(): JValue -> JValue {
    v => v
  }

  /** The value itself. */
  ghost function ValueOf(o: Ordered): JValue {
    Assemble(o, AsIs())
  }

  /** What a leaf has become after a round trip. */
  function Back(style: Style, v: JValue): JValue {
    match v
    case UInt(u) => UIntBack(style, u)
    case Buff(bs) => if style.memoryBuff then Buff([]) else Arr(ByteValues(bs))
    case _ => v
  }

  /** The round trip as a change of leaves. */
  function AsRead(style: Style): JValue -> JValue {
    v => Back(style, v)
  }

  predicate NulFree(s: Text) {
    UpToNul(s) == s
  }

  /** The library reads back what it formats, and no integer conversion takes it. */
  ghost predicate DoubleFits(lib: Lib, style: Style, d: real) {
    var t := style.formatDouble(d);
    && t != [] && OneToken(t) && (IsDigit(t[0]) || t[0] == PLUS || t[0] == MINUS)
    && Signed(t) == None && UnsignedResult(t) == None && lib.toDouble(t) == Some(d)
  }

  /** A leaf the round trip is about: integers of 64 bits, texts without NUL that the library can convert, and doubles
      that it formats without loss. */
  ghost predicate LeafFits(lib: Lib, style: Style, v: JValue) {
    match v
    case Int(i) => -TWO63 <= i < TWO63
    case UInt(u) => u < TWO64
    case Double(d) => DoubleFits(lib, style, d)
    case Str(s) => NulFree(s) && lib.utf8Ok(s)
    case _ => InGrammar(v)
  }

  ghost predicate Fits(lib: Lib, style: Style, o: Ordered) {
    match o
    case Leaf(v) => LeafFits(lib, style, v)
    case OArr(items) => forall i :: 0 <= i < |items| ==> Fits(lib, style, items[i])
    case OObj(members) => forall i :: 0 <= i < |members| ==> KeyFits(lib, members[i].key) && Fits(lib, style, members[i].value)
  }

  predicate KeyFits(lib: Lib, k: Text) {
    k != [] && NulFree(k) && lib.utf8Ok(k)
  }

  lemma {:induction false} FitsIsWritable(lib: Lib, style: Style, o: Ordered)
    requires Fits(lib, style, o)
    ensures Writable(o)
  {
    match o {
      case Leaf(_) =>
      case OArr(items) =>
        forall i | 0 <= i < |items| ensures Writable(items[i]) { FitsIsWritable(lib, style, items[i]); }
      case OObj(members) =>
        forall i | 0 <= i < |members| ensures Writable(members[i].value) {
          assert members[i].value < members[i];
          FitsIsWritable(lib, style, members[i].value);
        }
    }
  }

  /** The extensions a style may use. */
  predicate Expected(style: Style, k: Kind) {
    (k == MultilineString && Splits(style)) || (k == BufferFound && style.memoryBuff)
  }

  predicate AllExpected(style: Style, ks: seq<Kind>) {
    forall i :: 0 <= i < |ks| ==> Expected(style, ks[i])
  }

  lemma {:induction false} LiteralKindsExpected(style: Style, l: Literal)
    requires (l.Last? || Splits(style)) && PlainPieces(l)
    ensures AllExpected(style, LiteralKinds(l))
  {
    if l.Split? { LiteralKindsExpected(style, l.rest); }
  }

  lemma {:induction false} HexKindsExpected(style: Style, h: Hex)
    requires style.memoryBuff && PlainRows(h)
    ensures AllExpected(style, HexKinds(h))
  {
    if h.SplitHex? { HexKindsExpected(style, h.rest); }
  }

  lemma {:induction false} ByteKinds(lib: Lib, bs: Text)
    ensures ItemKinds(lib, ByteItems(bs)) == []
  {
    if bs != [] { ByteKinds(lib, bs[1..]); }
  }

  lemma LeafReadsBack(lib: Lib, style: Style, level: int, v: JValue)
    requires CutsAtLf(lib) && LeafFits(lib, style, v)
    ensures InGrammar(v)
    ensures var d := LeafDoc(style, level, v);
      && DocOk(lib, d)
      && Cloned(DocValue(lib, d)) == Back(style, v)
      && AllExpected(style, DocKinds(lib, d))
  {
    match v {
      case Bool(b) => LowerWords();
      case Null => LowerWords();
      case Int(i) => IntReadsBack(lib, i);
      case UInt(u) => UIntReadsBack(lib, style, u);
      case Double(d) => DoubleReadsBack(lib, style, d);
      case Str(s) =>
        assert CharsBytes(lib, []) + s == s;
        LiteralReadsBack(lib, style, level, s, []);
        LiteralKindsExpected(style, MakeLiteral(style, level, s, []));
      case Buff(bs) =>
        if style.memoryBuff {
          HexReadsBack(style, level, bs, 0, []);
          HexKindsExpected(style, MakeHex(style, level, bs, 0, []));
        } else {
          ByteListReadsBack(lib, bs);
          ByteKinds(lib, bs);
        }
    }
  }

  lemma {:induction false} TreeReadsBack(lib: Lib, style: Style, level: int, o: Ordered)
    requires CutsAtLf(lib) && Fits(lib, style, o) && Writable(o)
    ensures var d := ToDoc(style, level, o);
      && DocOk(lib, d)
      && Cloned(DocValue(lib, d)) == Assemble(o, AsRead(style))
      && AllExpected(style, DocKinds(lib, d))
    decreases o, 1
  {
    BlanksAreBlank(style, level);
    BlanksAreBlank(style, level + 1);
    match o {
      case Leaf(v) => LeafReadsBack(lib, style, level, v);
      case OArr(items) =>
        ItemsReadBack(lib, style, level, Indent(style, level + 1), items);
        assert ItemValues(lib, ToDoc(style, level, o).items) == Assemble(o, AsRead(style)).items;
      case OObj(members) =>
        MembersReadBack(lib, style, level, Indent(style, level + 1), members, map[]);
    }
  }

  lemma {:induction false} ItemsReadBack(lib: Lib, style: Style, level: int, pre: Text, items: seq<Ordered>)
    requires CutsAtLf(lib) && Blank(pre)
    requires forall i :: 0 <= i < |items| ==> Fits(lib, style, items[i]) && Writable(items[i])
    ensures var ds := ItemDocs(style, level, pre, items);
      && ItemsOk(lib, ds)
      && |ItemValues(lib, ds)| == |items|
      && (forall i :: 0 <= i < |items| ==> ItemValues(lib, ds)[i] == Assemble(items[i], AsRead(style)))
      && AllExpected(style, ItemKinds(lib, ds))
    decreases items, 0
  {
    if items != [] {
      BlanksAreBlank(style, level);
      BlanksAreBlank(style, level + 1);
      TreeReadsBack(lib, style, level + 1, items[0]);
      ItemsReadBack(lib, style, level, Separator(style) + Indent(style, level + 1), items[1..]);
      var vs := ItemValues(lib, ItemDocs(style, level, Separator(style) + Indent(style, level + 1), items[1..]));
      forall i | 0 < i < |items| ensures vs[i - 1] == Assemble(items[i], AsRead(style)) {
        assert items[i] == items[1..][i - 1];
      }
    }
  }

  lemma {:induction false} MembersReadBack(lib: Lib, style: Style, level: int, pre: Text, members: seq<Entry>,
      m: map<Text, JValue>)
    requires CutsAtLf(lib) && Blank(pre)
    requires forall i :: 0 <= i < |members| ==>
      KeyFits(lib, members[i].key) && Fits(lib, style, members[i].value) && Writable(members[i].value)
    ensures var ds := MemberDocs(style, level, pre, members);
      && MembersOk(lib, ds)
      && MemberValues(lib, ds, m) == AssembleMembers(members, AsRead(style), m)
      && AllExpected(style, MemberKinds(lib, ds))
    decreases members, 0
  {
    if members != [] {
      var k, v := members[0].key, members[0].value;
      assert v < members[0];
      BlanksAreBlank(style, level);
      BlanksAreBlank(style, level + 1);
      KeyReadsBack(lib, style, level + 1, k);
      TreeReadsBack(lib, style, level + 1, v);
      MembersReadBack(lib, style, level, Separator(style) + Indent(style, level + 1), members[1..],
                      m[k := Assemble(v, AsRead(style))]);
      hide DocOk, DocValue, DocKinds, ToDoc, Fits, Writable, LiteralOk, Indent, Separator, AllExpected, KeyFits;
      MembersCons(lib, style, MemberDocs(style, level, pre, members), m);
    }
  }

  lemma KeyReadsBack(lib: Lib, style: Style, level: int, k: Text)
    requires CutsAtLf(lib) && KeyFits(lib, k)
    ensures var name := MakeLiteral(style, level, UpToNul(k), []);
      LiteralOk(lib, name) && LiteralBytes(lib, name) == k != [] && AllExpected(style, LiteralKinds(name))
  {
    assert CharsBytes(lib, []) + k == k;
    LiteralReadsBack(lib, style, level, k, []);
    LiteralKindsExpected(style, MakeLiteral(style, level, k, []));
  }

  /** One more member in front. */
  lemma MembersCons(lib: Lib, style: Style, ds: Members, m: map<Text, JValue>)
    requires ds.Member? && Plain(ds.pre) && LiteralOk(lib, ds.name) && Plain(ds.mid) && Plain(ds.gap) && Plain(ds.post)
    requires DocOk(lib, ds.doc) && MembersOk(lib, ds.rest) && LiteralBytes(lib, ds.name) != []
    requires AllExpected(style, LiteralKinds(ds.name)) && AllExpected(style, DocKinds(lib, ds.doc))
    requires AllExpected(style, MemberKinds(lib, ds.rest))
    ensures MembersOk(lib, ds) && AllExpected(style, MemberKinds(lib, ds))
    ensures MemberValues(lib, ds, m)
      == MemberValues(lib, ds.rest, m[LiteralBytes(lib, ds.name) := Cloned(DocValue(lib, ds.doc))])
  {
    hide DocOk, DocKinds, DocValue, LiteralOk, LiteralKinds, LiteralBytes;
  }

  /** Main result: parsing the text written for any tree in any comment-free style gives the tree back, leaf by leaf
      as Back says, and raises no diagnostic but the extensions the style itself uses. */
  lemma WriteThenParse(lib: Lib, style: Style, o: Ordered, v0: JValue) returns (ch: int, s: St)
    requires CutsAtLf(lib) && Fits(lib, style, o) && !o.Leaf? && !IsContainer(v0)
    ensures Parse(lib, Written(style, o), v0) == Done(ch, s, Assemble(o, AsRead(style)))
    ensures AllExpected(style, Kinds(s.log)) && (NoBuff(o) ==> BufferFound !in Kinds(s.log))
  {
    FitsIsWritable(lib, style, o);
    RootIsContainer(style, o);
    TreeReadsBack(lib, style, 0, o);
    TextOfRoot(style, o);
    BlankFront(style);
    if NoBuff(o) { NoBufferReported(lib, style, 0, o); }
    hide *;
    var d := ToDoc(style, 0, o);
    ch, s := ParseDocument(lib, Blanks(Indent(style, 0)), d, Separator(style), v0);
    ContainerStays(lib, d);
  }

  /** What is written is the text of a document between blanks. */
  lemma TextOfRoot(style: Style, o: Ordered)
    requires Writable(o) && !o.Leaf?
    ensures Written(style, o) == Indent(style, 0) + DocText(ToDoc(style, 0, o)) + Separator(style)
  {
    hide ToDoc, ValueOut, Indent, Separator, DocText;
    ValueIsWritten(style, 0, o);
  }

  lemma BlankFront(style: Style)
    ensures Prefix(Indent(style, 0))
  {
    BlanksAreBlank(style, 0);
    hide Indent;
  }

  lemma ContainerStays(lib: Lib, d: Doc)
    requires (d.DArray? || d.DObject?) && DocOk(lib, d)
    ensures Cloned(DocValue(lib, d)) == DocValue(lib, d)
  {
    hide ItemValues, MemberValues, ItemsOk, MembersOk;
  }

  lemma RootIsContainer(style: Style, o: Ordered)
    requires Writable(o) && !o.Leaf?
    ensures ToDoc(style, 0, o).DArray? || ToDoc(style, 0, o).DObject?
  {
  }

  /** With the flags for the extensions in use, the reader reports no error at all. */
  lemma {:induction false} NoErrors(style: Style, flags: Flags, log: seq<Event>)
    requires AllExpected(style, Kinds(log))
    requires Splits(style) ==> MultiString in flags
    requires BufferFound in Kinds(log) ==> MemoryBuffer in flags
    ensures Select(flags, true, log) == []
  {
    if log != [] {
      var init := log[..|log| - 1];
      forall i | 0 <= i < |init| ensures Kinds(init)[i] in Kinds(log) && Expected(style, Kinds(init)[i]) {
        assert Kinds(init)[i] == Kinds(log)[i];
      }
      NoErrors(style, flags, init);
      assert Expected(style, Kinds(log)[|log| - 1]);
    }
  }

  /** Without buffers no buffer is reported. */
  lemma {:induction false} NoBufferReported(lib: Lib, style: Style, level: int, o: Ordered)
    requires Writable(o) && NoBuff(o)
    ensures BufferFound !in DocKinds(lib, ToDoc(style, level, o))
    decreases o, 1
  {
    match o {
      case Leaf(v) => if v.Str? { LiteralIsNoBuffer(MakeLiteral(style, level, UpToNul(v.s), [])); }
      case OArr(items) => NoBufferInItems(lib, style, level, Indent(style, level + 1), items);
      case OObj(members) => NoBufferInMembers(lib, style, level, Indent(style, level + 1), members);
    }
  }

  lemma {:induction false} GapIsNoBuffer(g: Gap)
    ensures BufferFound !in GapKinds(g)
  {
    if g.Commented? { GapIsNoBuffer(g.rest); }
  }

  lemma {:induction false} LiteralIsNoBuffer(l: Literal)
    ensures BufferFound !in LiteralKinds(l)
  {
    if l.Split? {
      GapIsNoBuffer(l.gap);
      LiteralIsNoBuffer(l.rest);
    }
  }

  lemma {:induction false} NoBufferInItems(lib: Lib, style: Style, level: int, pre: Text, items: seq<Ordered>)
    requires forall i :: 0 <= i < |items| ==> Writable(items[i]) && NoBuff(items[i])
    ensures BufferFound !in ItemKinds(lib, ItemDocs(style, level, pre, items))
    decreases items, 0
  {
    if items != [] {
      NoBufferReported(lib, style, level + 1, items[0]);
      NoBufferInItems(lib, style, level, Separator(style) + Indent(style, level + 1), items[1..]);
    }
  }

  lemma {:induction false} NoBufferInMembers(lib: Lib, style: Style, level: int, pre: Text, members: seq<Entry>)
    requires forall i :: 0 <= i < |members| ==> Writable(members[i].value) && NoBuff(members[i].value)
    ensures BufferFound !in MemberKinds(lib, MemberDocs(style, level, pre, members))
    decreases members, 0
  {
    if members != [] {
      hide LiteralOk, LiteralBytes, MakeLiteral;
      assert members[0].value < members[0];
      var name := MakeLiteral(style, level + 1, UpToNul(members[0].key), []);
      LiteralIsNoBuffer(name);
      NoBufferReported(lib, style, level + 1, members[0].value);
      NoBufferInMembers(lib, style, level, Separator(style) + Indent(style, level + 1), members[1..]);
      hide *;
      MembersCut(style, level, pre, members);
      OneMoreMember(lib, MemberDocs(style, level, pre, members));
    }
  }

  lemma MembersCut(style: Style, level: int, pre: Text, members: seq<Entry>)
    requires members != [] && forall i :: 0 <= i < |members| ==> Writable(members[i].value)
    ensures var ms := MemberDocs(style, level, pre, members);
      && ms.Member? && ms.pre.Blanks? && ms.mid.Blanks? && ms.gap.Blanks? && ms.post.Blanks?
      && ms.name == MakeLiteral(style, level + 1, UpToNul(members[0].key), [])
      && ms.doc == ToDoc(style, level + 1, members[0].value)
      && ms.rest == MemberDocs(style, level, Separator(style) + Indent(style, level + 1), members[1..])
  {
    hide MakeLiteral, ToDoc, UpToNul, Indent, Separator;
  }

  lemma OneMoreMember(lib: Lib, ms: Members)
    requires ms.Member? && ms.pre.Blanks? && ms.mid.Blanks? && ms.gap.Blanks? && ms.post.Blanks?
    requires BufferFound !in LiteralKinds(ms.name) && BufferFound !in DocKinds(lib, ms.doc)
    requires BufferFound !in MemberKinds(lib, ms.rest)
    ensures BufferFound !in MemberKinds(lib, ms)
  {
    hide LiteralKinds, DocKinds, IsEmptyName;
  }

  predicate NoBuff(o: Ordered) {
    match o
    case Leaf(v) => !v.Buff?
    case OArr(items) => forall i :: 0 <= i < |items| ==> NoBuff(items[i])
    case OObj(members) => forall i :: 0 <= i < |members| ==> NoBuff(members[i].value)
  }

  /** Without buffers the value read is the same, in the sense of IsSameAs, as the value written; with the style that
      marks unsigned numbers it is identical. */
  lemma {:induction false} BackIsSame(lib: Lib, round: Rounding, style: Style, o: Ordered)
    requires Fits(lib, style, o) && NoBuff(o)
    ensures Alike(round, style, Assemble(o, AsRead(style)), ValueOf(o))
    decreases o, 1
  {
    match o {
      case Leaf(_) =>
      case OArr(items) =>
        var r, v := Assemble(o, AsRead(style)).items, ValueOf(o).items;
        forall i | 0 <= i < |items| ensures Alike(round, style, r[i], v[i]) {
          BackIsSame(lib, round, style, items[i]);
        }
        ItemsAlike(round, style, r, v);
      case OObj(members) =>
        BackMembersAreSame(lib, round, style, members, map[], map[]);
        hide Alike, MapsAlike, AssembleMembers;
        MembersAlike(round, style, AssembleMembers(members, AsRead(style), map[]), AssembleMembers(members, AsIs(), map[]));
    }
  }

  lemma MembersAlike(round: Rounding, style: Style, r: map<Text, JValue>, v: map<Text, JValue>)
    requires MapsAlike(round, style, r, v)
    ensures Alike(round, style, Obj(r), Obj(v))
  {
    assert |r| == |r.Keys| && |v| == |v.Keys|;
    forall k | k in r ensures Same(round, r[k], Lookup(v, k)) { assert Alike(round, style, r[k], v[k]); }
    if style.recognizeUnsigned {
      forall k | k in r ensures r[k] == v[k] { assert Alike(round, style, r[k], v[k]); }
      assert r == v;
    }
  }

  lemma ItemsAlike(round: Rounding, style: Style, r: seq<JValue>, v: seq<JValue>)
    requires |r| == |v| && forall i :: 0 <= i < |r| ==> Alike(round, style, r[i], v[i])
    ensures Alike(round, style, Arr(r), Arr(v))
  {
    assert style.recognizeUnsigned ==> r == v;
  }

  /** What BackIsSame says of a member. */
  ghost predicate Alike(round: Rounding, style: Style, r: JValue, v: JValue) {
    Same(round, r, v) && (style.recognizeUnsigned ==> r == v)
  }

  ghost predicate MapsAlike(round: Rounding, style: Style, a: map<Text, JValue>, b: map<Text, JValue>) {
    && a.Keys == b.Keys
    && forall k :: k in a ==> Alike(round, style, a[k], b[k])
  }

  lemma {:induction false} BackMembersAreSame(lib: Lib, round: Rounding, style: Style, members: seq<Entry>,
      a: map<Text, JValue>, b: map<Text, JValue>)
    requires forall i :: 0 <= i < |members| ==> Fits(lib, style, members[i].value) && NoBuff(members[i].value)
    requires MapsAlike(round, style, a, b)
    ensures MapsAlike(round, style, AssembleMembers(members, AsRead(style), a), AssembleMembers(members, AsIs(), b))
    decreases members, 0
  {
    hide Same;
    if members != [] {
      var k, o := members[0].key, members[0].value;
      assert o < members[0];
      BackIsSame(lib, round, style, o);
      var x, y := Assemble(o, AsRead(style)), Assemble(o, AsIs());
      assert Alike(round, style, x, y);
      BackMembersAreSame(lib, round, style, members[1..], a[k := x], b[k := y]);
    }
  }

  /** The round trip in the words of IsSameAs. */
  lemma RoundTripIsSame(lib: Lib, round: Rounding, style: Style, o: Ordered, v0: JValue) returns (ch: int, s: St, v: JValue)
    requires CutsAtLf(lib) && Fits(lib, style, o) && NoBuff(o) && !o.Leaf? && !IsContainer(v0)
    ensures Parse(lib, Written(style, o), v0) == Done(ch, s, v)
    ensures AllExpected(style, Kinds(s.log)) && BufferFound !in Kinds(s.log)
    ensures Same(round, v, ValueOf(o))
    ensures style.recognizeUnsigned ==> v == ValueOf(o)
  {
    hide Parse, Written, AllExpected, Same, Fits;
    ch, s := WriteThenParse(lib, style, o, v0);
    v := Assemble(o, AsRead(style));
    BackIsSame(lib, round, style, o);
  }
}
