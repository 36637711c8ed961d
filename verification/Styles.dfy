/** What the writer's styles have in common: outside of strings they differ in blanks only. */
module Styles {
  import opened Bytes
  import opened Decimal
  import opened JsonValue
  import opened Grammar
  import opened WriterSpec

  /** Where a scan of JSON text stands: outside of literals, in a string, after a backslash in a string, in a
      hexadecimal buffer. */
  datatype Mode = Outside | InString | Escaped | InBuffer

  function Move(m: Mode, b: Byte): Mode {
    match m
    case Outside => if b == QUOTE then InString else if b == APOSTROPHE then InBuffer else Outside
    case InString => if b == QUOTE then Outside else if b == BACKSLASH then Escaped else InString
    case Escaped => InString
    case InBuffer => if b == APOSTROPHE then Outside else InBuffer
  }

  function End(m: Mode, t: Text): Mode
    decreases t
  {
    if t == [] then m else End(Move(m, t[0]), t[1..])
  }

  /** The text without the blanks that stand outside of literals. */
  function Strip(m: Mode, t: Text): Text
    decreases t
  {
    if t == [] then []
    else Shown(m, t[0]) + Strip(Move(m, t[0]), t[1..])
  }

  lemma {:induction false} StripJoin(m: Mode, a: Text, b: Text)
    ensures End(m, a + b) == End(End(m, a), b)
    ensures Strip(m, a + b) == Strip(m, a) + Strip(End(m, a), b)
    decreases a
  {
    if a == [] {
      assert a + b == b;
    } else {
      StripJoin(Move(m, a[0]), a[1..], b);
      JoinStep(m, a, b);
    }
  }

  lemma JoinStep(m: Mode, a: Text, b: Text)
    requires a != []
    requires var n := Move(m, a[0]);
      && End(n, a[1..] + b) == End(End(n, a[1..]), b)
      && Strip(n, a[1..] + b) == Strip(n, a[1..]) + Strip(End(n, a[1..]), b)
    ensures End(m, a + b) == End(End(m, a), b) && Strip(m, a + b) == Strip(m, a) + Strip(End(m, a), b)
  {
    hide *;
    TailOfSum(a, b);
    StripUnfolds(m, a + b);
    StripUnfolds(m, a);
    var n := Move(m, a[0]);
    Associate(Shown(m, a[0]), Strip(n, a[1..]), Strip(End(n, a[1..]), b));
  }

  /** What is left of a character. */
  function Shown(m: Mode, b: Byte): Text {
    if m == Outside && IsBlank(b) then [] else [b]
  }

  lemma TailOfSum(a: Text, b: Text)
    requires a != []
    ensures a + b != [] && (a + b)[0] == a[0] && (a + b)[1..] == a[1..] + b
  {
  }

  lemma StripUnfolds(m: Mode, t: Text)
    requires t != []
    ensures End(m, t) == End(Move(m, t[0]), t[1..]) && Strip(m, t) == Shown(m, t[0]) + Strip(Move(m, t[0]), t[1..])
  {
  }

  lemma Associate(a: Text, b: Text, c: Text)
    ensures a + (b + c) == a + b + c
  {
  }

  lemma {:induction false} BlanksVanish(t: Text)
    requires forall i :: 0 <= i < |t| ==> IsBlank(t[i])
    ensures End(Outside, t) == Outside && Strip(Outside, t) == []
  {
    if t != [] {
      BlanksVanish(t[1..]);
    }
  }

  /** Two texts that agree up to blanks outside of literals, and close every literal they open. */
  ghost predicate Agree(a: Text, b: Text) {
    End(Outside, a) == Outside && End(Outside, b) == Outside && Strip(Outside, a) == Strip(Outside, b)
  }

  lemma AgreeJoin(a: Text, b: Text, c: Text, d: Text)
    requires Agree(a, b) && Agree(c, d)
    ensures Agree(a + c, b + d)
  {
    StripJoin(Outside, a, c);
    StripJoin(Outside, b, d);
  }

  lemma {:induction false} PlainText(t: Text)
    requires QUOTE !in t && APOSTROPHE !in t
    ensures End(Outside, t) == Outside
  {
    if t != [] {
      PlainText(t[1..]);
    }
  }

  lemma AgreeBlank(a: Text, b: Text)
    requires forall i :: 0 <= i < |a| ==> IsBlank(a[i])
    requires forall i :: 0 <= i < |b| ==> IsBlank(b[i])
    ensures Agree(a, b)
  {
    BlanksVanish(a);
    BlanksVanish(b);
  }

  /** The styles agree on how strings, unsigned numbers, doubles and buffers are written, and split nothing. */
  ghost predicate SameLiterals(s: Style, t: Style) {
    && s.escapeSolidus == t.escapeSolidus && s.multilineString == t.multilineString
    && s.recognizeUnsigned == t.recognizeUnsigned && s.memoryBuff == t.memoryBuff
    && s.formatDouble == t.formatDouble
    && !Splits(s) && !Splits(t)
  }

  /** Formatted doubles contain no quotes of either kind. */
  ghost predicate PlainDoubles(s: Style) {
    forall d :: QUOTE !in s.formatDouble(d) && APOSTROPHE !in s.formatDouble(d)
  }

  // ----- literals

  lemma EndOfTwo(m: Mode, a: Byte, b: Byte)
    ensures End(m, [a, b]) == Move(Move(m, a), b)
  {
    assert [a, b] == [a] + [b];
    StripJoin(m, [a], [b]);
  }

  lemma CharStaysInside(s: Style, b: Byte)
    ensures End(InString, CharOut(s, b)) == InString
  {
    if EscapeLetter(b) == 0 && b < 32 {
      var hi, lo := HexChar(b / 16), HexChar(b % 16);
      EndOfTwo(InString, BACKSLASH, 117);
      EndOfTwo(InString, 48, 48);
      EndOfTwo(InString, hi, lo);
      StripJoin(InString, [48, 48], [hi, lo]);
      StripJoin(InString, [BACKSLASH, 117], [48, 48] + [hi, lo]);
      assert CharOut(s, b) == [BACKSLASH, 117] + ([48, 48] + [hi, lo]);
    } else if ShouldEscape(s, b) {
      EndOfTwo(InString, BACKSLASH, EscapeLetter(b));
    }
  }

  lemma {:induction false} BodyStaysInside(s: Style, level: int, t: Text)
    requires !Splits(s)
    ensures End(InString, StringBodyOut(s, level, t)) == InString
  {
    hide CharOut;
    if t != [] {
      CharStaysInside(s, t[0]);
      BodyStaysInside(s, level, t[1..]);
      var c := CharOut(s, t[0]);
      assert c + [] == c;
      StripJoin(InString, c, StringBodyOut(s, level, t[1..]));
    }
  }

  lemma {:induction false} SameBody(s: Style, t: Style, l: int, k: int, x: Text)
    requires SameLiterals(s, t)
    ensures StringBodyOut(s, l, x) == StringBodyOut(t, k, x)
  {
    if x != [] {
      SameBody(s, t, l, k, x[1..]);
    }
  }

  lemma StringsAgree(s: Style, t: Style, l: int, k: int, x: Text)
    requires SameLiterals(s, t)
    ensures Agree(StringOut(s, l, x), StringOut(t, k, x))
  {
    var body := StringBodyOut(s, l, UpToNul(x));
    SameBody(s, t, l, k, UpToNul(x));
    BodyStaysInside(s, l, UpToNul(x));
    StripJoin(Outside, [QUOTE], body);
    StripJoin(Outside, [QUOTE] + body, [QUOTE]);
    assert End(InString, [QUOTE]) == Outside;
  }

  lemma {:induction false} HexAgrees(s: Style, t: Style, l: int, k: int, bs: Text)
    requires SameLiterals(s, t)
    ensures HexOut(s, l, bs, 0) == HexOut(t, k, bs, 0)
    ensures APOSTROPHE !in HexOut(s, l, bs, 0)
  {
    if bs != [] {
      HexAgrees(s, t, l, k, bs[1..]);
    }
  }

  lemma {:induction false} BufferStaysInside(x: Text)
    requires APOSTROPHE !in x
    ensures End(InBuffer, x) == InBuffer
  {
    if x != [] {
      BufferStaysInside(x[1..]);
    }
  }

  lemma {:induction false} ByteListIsPlain(bs: Text)
    ensures QUOTE !in ByteListOut(bs) && APOSTROPHE !in ByteListOut(bs)
  {
    if bs != [] {
      ByteListIsPlain(bs[1..]);
      DigitsArePlain(Digits(bs[0]));
    }
  }

  lemma DigitsArePlain(ds: Text)
    requires AllDigits(ds)
    ensures QUOTE !in ds && APOSTROPHE !in ds
  {
  }

  lemma BuffersAgree(s: Style, t: Style, l: int, k: int, bs: Text)
    requires SameLiterals(s, t)
    ensures Agree(BuffOut(s, l, bs), BuffOut(t, k, bs))
  {
    if s.memoryBuff {
      HexAgrees(s, t, l, k, bs);
      var x := HexOut(s, l, bs, 0);
      BufferStaysInside(x);
      StripJoin(Outside, [APOSTROPHE], x);
      StripJoin(Outside, [APOSTROPHE] + x, [APOSTROPHE]);
      assert End(InBuffer, [APOSTROPHE]) == Outside;
    } else {
      ByteListIsPlain(bs);
      PlainText(BuffOut(s, l, bs));
    }
  }

  lemma LeavesAgree(s: Style, t: Style, l: int, k: int, v: JValue)
    requires SameLiterals(s, t) && PlainDoubles(s)
    ensures Agree(LeafOut(s, l, v), LeafOut(t, k, v))
  {
    match v {
      case Str(x) => StringsAgree(s, t, l, k, x);
      case Buff(bs) => BuffersAgree(s, t, l, k, bs);
      case Int(i) =>
        DigitsArePlain(Digits(if i < 0 then -i else i));
        PlainText(IntOut(i));
      case UInt(u) =>
        DigitsArePlain(Digits(u));
        PlainText(UIntOut(s, u));
      case _ => PlainText(LeafOut(s, l, v));
    }
  }

  lemma KeysAgree(s: Style, t: Style, l: int, k: int, key: Option<Text>)
    requires SameLiterals(s, t)
    ensures Agree(KeyOut(s, l, key), KeyOut(t, k, key))
  {
    if key.Some? {
      StringsAgree(s, t, l, k, key.value);
      PlainText([SPACE, COLON, SPACE]);
      AgreeJoin(StringOut(s, l, key.value), StringOut(t, k, key.value), [SPACE, COLON, SPACE], [SPACE, COLON, SPACE]);
    }
  }

  // ----- values

  lemma BlanksAgree(s: Style, t: Style, l: int, k: int)
    ensures Agree(Separator(s), Separator(t)) && Agree(Indent(s, l), Indent(t, k))
  {
    AgreeBlank(Separator(s), Separator(t));
    AgreeBlank(Indent(s, l), Indent(t, k));
  }

  lemma AgreeFive(a: Text, b: Text, c: Text, d: Text, e: Text, a': Text, b': Text, c': Text, d': Text, e': Text)
    requires Agree(a, a') && Agree(b, b') && Agree(c, c') && Agree(d, d') && Agree(e, e')
    ensures Agree(a + b + c + d + e, a' + b' + c' + d' + e')
  {
    hide Agree;
    AgreeJoin(a, a', b, b');
    AgreeJoin(a + b, a' + b', c, c');
    AgreeJoin(a + b + c, a' + b' + c', d, d');
    AgreeJoin(a + b + c + d, a' + b' + c' + d', e, e');
  }

  lemma {:induction false} ValuesAgree(s: Style, t: Style, l: int, k: int, o: Ordered)
    requires SameLiterals(s, t) && PlainDoubles(s)
    ensures Agree(ValueOut(s, l, o), ValueOut(t, k, o))
    decreases o, 1
  {
    hide Agree, Indent, Separator, LeafOut, SameLiterals;
    BlanksAgree(s, t, l, k);
    match o {
      case Leaf(v) => LeavesAgree(s, t, l, k, v);
      case OArr(items) =>
        ItemsAgree(s, t, l + 1, k + 1, items);
        Punctuation(LBRACKET);
        Punctuation(RBRACKET);
        AgreeFive([LBRACKET], Separator(s), ItemsOut(s, l + 1, items), Indent(s, l), [RBRACKET],
                  [LBRACKET], Separator(t), ItemsOut(t, k + 1, items), Indent(t, k), [RBRACKET]);
      case OObj(members) =>
        MembersAgree(s, t, l + 1, k + 1, members);
        Punctuation(LBRACE);
        Punctuation(RBRACE);
        AgreeFive([LBRACE], Separator(s), MembersOut(s, l + 1, members), Indent(s, l), [RBRACE],
                  [LBRACE], Separator(t), MembersOut(t, k + 1, members), Indent(t, k), [RBRACE]);
    }
  }

  lemma Punctuation(b: Byte)
    requires b != QUOTE && b != APOSTROPHE
    ensures Agree([b], [b]) && Agree([], [])
  {
    PlainText([b]);
  }

  lemma {:induction false} LinesAgree(s: Style, t: Style, l: int, k: int, key: Option<Text>, comma: bool, o: Ordered)
    requires SameLiterals(s, t) && PlainDoubles(s)
    ensures Agree(LineOut(s, l, key, comma, o), LineOut(t, k, key, comma, o))
    decreases o, 2
  {
    hide Agree, Indent, Separator, ValueOut, KeyOut, SameLiterals;
    BlanksAgree(s, t, l, k);
    KeysAgree(s, t, l, k, key);
    ValuesAgree(s, t, l, k, o);
    Punctuation(COMMA);
    var c: Text := if comma then [COMMA] else [];
    AgreeFive(Indent(s, l), KeyOut(s, l, key), ValueOut(s, l, o), c, Separator(s),
              Indent(t, k), KeyOut(t, k, key), ValueOut(t, k, o), c, Separator(t));
  }

  lemma {:induction false} ItemsAgree(s: Style, t: Style, l: int, k: int, items: seq<Ordered>)
    requires SameLiterals(s, t) && PlainDoubles(s)
    ensures Agree(ItemsOut(s, l, items), ItemsOut(t, k, items))
    decreases items, 0
  {
    hide Agree, LineOut, SameLiterals;
    if items == [] {
      Punctuation(COMMA);
    } else {
      LinesAgree(s, t, l, k, None, |items| > 1, items[0]);
      ItemsAgree(s, t, l, k, items[1..]);
      AgreeJoin(LineOut(s, l, None, |items| > 1, items[0]), LineOut(t, k, None, |items| > 1, items[0]),
                ItemsOut(s, l, items[1..]), ItemsOut(t, k, items[1..]));
    }
  }

  lemma {:induction false} MembersAgree(s: Style, t: Style, l: int, k: int, members: seq<Entry>)
    requires SameLiterals(s, t) && PlainDoubles(s)
    ensures Agree(MembersOut(s, l, members), MembersOut(t, k, members))
    decreases members, 0
  {
    hide Agree, LineOut, SameLiterals;
    if members == [] {
      Punctuation(COMMA);
    } else {
      var e := members[0];
      assert e.value < e;
      LinesAgree(s, t, l, k, Some(e.key), |members| > 1, e.value);
      MembersAgree(s, t, l, k, members[1..]);
      AgreeJoin(LineOut(s, l, Some(e.key), |members| > 1, e.value), LineOut(t, k, Some(e.key), |members| > 1, e.value),
                MembersOut(s, l, members[1..]), MembersOut(t, k, members[1..]));
    }
  }

  /** Main result: indentation, step, tabs and line feeds only move blanks outside of literals. */
  lemma StylesDifferInBlanks(s: Style, t: Style, o: Ordered)
    requires SameLiterals(s, t) && PlainDoubles(s)
    ensures Strip(Outside, Written(s, o)) == Strip(Outside, Written(t, o))
  {
    LinesAgree(s, t, 0, 0, None, false, o);
  }
}
