/** What a text of RFC 8259 stands for, said without the reader, and when the reader finds exactly that. */
module RfcValue {
  import opened Bytes
  import opened Decimal
  import opened JsonValue
  import opened ReaderSpec
  import opened Grammar
  import opened Completeness
  import opened Rfc8259

  // ----- numbers: the text determines the numeral

  /** How many digits a text starts with. */
  function DigitSpan(t: Text): (n: nat)
    ensures n <= |t|
  {
    if t != [] && IsDigit(t[0]) then 1 + DigitSpan(t[1..]) else 0
  }

  lemma {:induction false} SpanIs(ds: Text, r: Text)
    requires AllDigits(ds) && (r == [] || !IsDigit(r[0]))
    ensures DigitSpan(ds + r) == |ds|
  {
    if ds == [] {
      assert ds + r == r;
    } else {
      assert (ds + r)[1..] == ds[1..] + r;
      SpanIs(ds[1..], r);
    }
  }

  /** How much of a text is a fraction at its start. */
  function FractionSpan(t: Text): (n: nat)
    ensures n <= |t|
  {
    if t != [] && t[0] == POINT then 1 + DigitSpan(t[1..]) else 0
  }

  lemma FractionSpanIs(n: Numeral)
    requires NumeralOk(n)
    ensures FractionSpan(n.fraction + n.exponent) == |n.fraction|
  {
    var r := n.fraction + n.exponent;
    if n.fraction != [] {
      SpanIs(n.fraction[1..], n.exponent);
      assert r[1..] == n.fraction[1..] + n.exponent;
    } else {
      assert r == n.exponent;
    }
  }

  /** The numeral a text of section 6 spells. */
  function NumeralOf(t: Text): Numeral {
    var negative := t != [] && t[0] == MINUS;
    var u := if negative then t[1..] else t;
    var r := u[DigitSpan(u)..];
    Numeral(negative, u[..DigitSpan(u)], r[..FractionSpan(r)], r[FractionSpan(r)..])
  }

  lemma CutsBack(a: Text, b: Text)
    ensures (a + b)[..|a|] == a && (a + b)[|a|..] == b
  {
  }

  /** No two numerals have one text. */
  lemma NumeralIsUnique(n: Numeral)
    requires NumeralOk(n)
    ensures NumeralOf(NumeralText(n)) == n
  {
    var t, r := NumeralText(n), n.fraction + n.exponent;
    var u := n.whole + r;
    NumeralShape(n);
    assert t == (if n.negative then [MINUS] else []) + u;
    assert IsDigit(n.whole[0]) && t[0] == (if n.negative then MINUS else n.whole[0]);
    assert u == if n.negative then t[1..] else t;
    assert r == [] || !IsDigit(r[0]);
    SpanIs(n.whole, r);
    FractionSpanIs(n);
    hide NumeralText, NumeralOk, DigitSpan, FractionSpan;
    CutsBack(n.whole, r);
    CutsBack(n.fraction, n.exponent);
  }

  lemma NumeralFound(t: Text)
    requires IsRfcNumber(t)
    ensures NumeralOk(NumeralOf(t)) && NumeralText(NumeralOf(t)) == t
  {
    var n :| NumeralOk(n) && t == NumeralText(n);
    NumeralIsUnique(n);
  }

  // ----- strings: section 7

  /** The character an escape of one letter stands for. */
  function EscapeValue(e: Byte): Text {
    match e
    case 98 => [8]      // \b
    case 116 => [9]     // \t
    case 110 => [10]    // \n
    case 102 => [12]    // \f
    case 114 => [13]    // \r
    case _ => [e]       // quote, backslash and slash
  }

  function CharValue(lib: Lib, c: Char): Text
    requires CharOk(c)
  {
    match c
    case Raw(b) => [b]
    case Short(e) => EscapeValue(e)
    case Code(q) => var u := HexQuadValue(q); if u < 128 then [u] else lib.encode(u)
  }

  function StringValue(lib: Lib, cs: seq<Char>): Text
    requires CharsOk(cs)
  {
    if cs == [] then [] else StringValue(lib, cs[..|cs| - 1]) + CharValue(lib, cs[|cs| - 1])
  }

  lemma {:induction false} CharsAppend(lib: Lib, cs: seq<Char>, c: Char)
    requires CharsOk(cs) && CharOk(c)
    ensures CharsBytes(lib, cs + [c]) == CharsBytes(lib, cs) + CharBytes(lib, c)
  {
    if cs == [] {
      assert [c][1..] == [];
    } else {
      CharsAppend(lib, cs[1..], c);
      assert (cs + [c])[1..] == cs[1..] + [c];
    }
  }

  lemma {:induction false} StringIsRead(lib: Lib, cs: seq<Char>)
    requires CharsOk(cs)
    ensures CharsBytes(lib, cs) == StringValue(lib, cs)
  {
    hide CharBytes, CharValue, CharOk;
    if cs != [] {
      var init, c := cs[..|cs| - 1], cs[|cs| - 1];
      assert cs == init + [c];
      StringIsRead(lib, init);
      CharsAppend(lib, init, c);
      CharIsRead(lib, c);
    }
  }

  lemma CharIsRead(lib: Lib, c: Char)
    requires CharOk(c)
    ensures CharBytes(lib, c) == CharValue(lib, c)
  {
  }

  /** What becomes of a string, after its opening quote: its bytes if they are valid UTF-8, and a text that says that
      they are not, with one diagnostic, otherwise. */
  lemma StringReadExactly(lib: Lib, st: St, cs: seq<Char>, r: Text)
    requires CharsOk(cs) && st.rest == CharsText(cs) + [QUOTE] + r
    ensures var ok, g := lib.utf8Ok(StringValue(lib, cs)), ReadString(lib, st, Invalid);
      && g.0 == Next(r).0 && g.1.rest == Next(r).1
      && g.1.log == (if ok then st.log else st.log + [Event(BadUtf8, |r|)])
      && g.2 == Str(if ok then StringValue(lib, cs) else NOT_VALID)
  {
    hide CharsText, CharsBytes, StringBody, StringValue, Next;
    StringIsRead(lib, cs);
    BodyRead(lib, cs, st, r, []);
    assert [] + CharsBytes(lib, cs) == CharsBytes(lib, cs);
  }

  /** The two halves of a surrogate pair are encoded one by one, not as the one character they stand for. */
  lemma HalvesAreEncoded(lib: Lib, high: Text, low: Text)
    requires IsHexQuad(high) && 0xD800 <= HexQuadValue(high) < 0xDC00
    requires IsHexQuad(low) && 0xDC00 <= HexQuadValue(low) < 0xE000
    ensures StringValue(lib, [Code(high), Code(low)]) == lib.encode(HexQuadValue(high)) + lib.encode(HexQuadValue(low))
  {
    hide IsHexQuad, HexQuadValue;
    assert [Code(high), Code(low)][..1] == [Code(high)];
    assert [Code(high)][..0] == [];
    assert StringValue(lib, []) == [];
    assert StringValue(lib, [Code(high)]) == [] + CharValue(lib, Code(high));
  }

  // ----- values

  /** The value of a text: numbers as section 6 has them, strings by their characters, items in order, and of
      several members of one name the last, the empty name being a name like any other. */
  ghost function RfcValue(lib: Lib, d: Doc): JValue
    requires RfcDoc(lib, d) && ReadsNumbers(lib)
  {
    match d
    case DWord(t) => if t == NULL_TEXT then Null else Bool(t == TRUE_TEXT)
    case DNumber(t) => NumeralFound(t); Wanted(lib, NumeralOf(t))
    case DString(l) => Str(StringValue(lib, l.chars))
    case DArray(_, items) => Arr(ItemsValue(lib, items))
    case DObject(_, members) => Obj(MembersValue(lib, members))
  }

  ghost function ItemsValue(lib: Lib, items: Items): seq<JValue>
    requires RfcItems(lib, items) && ReadsNumbers(lib)
  {
    match items
    case NoItems => []
    case Item(_, d, _, rest) => [RfcValue(lib, d)] + ItemsValue(lib, rest)
  }

  ghost function MembersValue(lib: Lib, members: Members): map<Text, JValue>
    requires RfcMembers(lib, members) && ReadsNumbers(lib)
  {
    match members
    case NoMembers => map[]
    case Member(_, name, _, _, d, _, rest) =>
      map[StringValue(lib, name.chars) := RfcValue(lib, d)] + MembersValue(lib, rest)
  }

  /** Some number of the text wraps around, and no later member of its name replaces it. */
  ghost predicate HasWrap(lib: Lib, d: Doc)
    requires RfcDoc(lib, d) && ReadsNumbers(lib)
  {
    match d
    case DNumber(t) => NumeralFound(t); Wraps(NumeralOf(t))
    case DArray(_, items) => WrapInItems(lib, items)
    case DObject(_, members) => WrapInMembers(lib, members)
    case _ => false
  }

  ghost predicate WrapInItems(lib: Lib, items: Items)
    requires RfcItems(lib, items) && ReadsNumbers(lib)
  {
    items.Item? && (HasWrap(lib, items.doc) || WrapInItems(lib, items.rest))
  }

  ghost predicate WrapInMembers(lib: Lib, members: Members)
    requires RfcMembers(lib, members) && ReadsNumbers(lib)
  {
    && members.Member?
    && ((HasWrap(lib, members.doc) && StringValue(lib, members.name.chars) !in MembersValue(lib, members.rest))
        || WrapInMembers(lib, members.rest))
  }

  // ----- the reader finds that value

  /** The members read one after the other into m are m with the members of the text over it. */
  lemma {:induction false} ReadOver(lib: Lib, members: Members, m: map<Text, JValue>)
    requires MembersOk(lib, members)
    ensures MemberValues(lib, members, m) == m + MemberValues(lib, members, map[])
  {
    match members {
      case NoMembers => assert m + map[] == m;
      case Member(_, name, _, _, d, _, rest) =>
        var k := LiteralBytes(lib, name);
        if k == [] {
          ReadOver(lib, rest, m);
        } else {
          var v := Cloned(DocValue(lib, d));
          ReadOver(lib, rest, m[k := v]);
          ReadOver(lib, rest, map[k := v]);
          PutIsOver(m, k, v, MemberValues(lib, rest, map[]));
        }
    }
  }

  lemma PutIsOver<K, V>(m: map<K, V>, k: K, v: V, n: map<K, V>)
    ensures m[k := v] + n == m + (map[k := v] + n)
  {
  }

  lemma OverAgrees<K, V>(k: K, v: V, w: V, a: map<K, V>, b: map<K, V>)
    requires a.Keys == b.Keys
    ensures map[k := v] + a == map[k := w] + b <==> a == b && (k in a || v == w)
  {
    var s, t := map[k := v] + a, map[k := w] + b;
    if s == t {
      forall x | x in a ensures a[x] == b[x] { assert s[x] == a[x] && t[x] == b[x]; }
      if k !in a { assert s[k] == v && t[k] == w; }
    }
  }

  lemma NumberFound(lib: Lib, t: Text)
    requires IsRfcNumber(t) && ReadsNumbers(lib)
    ensures NumberOk(lib, t)
    ensures DocValue(lib, DNumber(t)) == RfcValue(lib, DNumber(t)) <==> !HasWrap(lib, DNumber(t))
    ensures !DocValue(lib, DNumber(t)).Buff?
  {
    NumeralFound(t);
    NumbersAreExact(lib, NumeralOf(t));
    hide NumeralOf, NumeralText, NumeralOk, Wraps, Wanted, IsRfcNumber;
  }

  lemma {:induction false} ValueFound(lib: Lib, d: Doc)
    requires RfcDoc(lib, d) && ReadsNumbers(lib) && DocOk(lib, d) && !HasEmptyName(lib, d)
    ensures DocValue(lib, d) == RfcValue(lib, d) <==> !HasWrap(lib, d)
    ensures Cloned(DocValue(lib, d)) == DocValue(lib, d)
    decreases d, 0
  {
    hide NumeralOf, Wraps, Wanted, IsRfcNumber, Number, NumberOk, StringValue, CharsBytes;
    match d {
      case DWord(t) => LowerWords();
      case DNumber(t) => NumberFound(lib, t);
      case DString(l) => StringIsRead(lib, l.chars);
      case DArray(_, items) => ItemsFound(lib, items);
      case DObject(_, members) => MembersFound(lib, members);
    }
  }

  lemma {:induction false} ItemsFound(lib: Lib, items: Items)
    requires RfcItems(lib, items) && ReadsNumbers(lib) && ItemsOk(lib, items) && !EmptyNameInItems(lib, items)
    ensures |ItemValues(lib, items)| == |ItemsValue(lib, items)|
    ensures ItemValues(lib, items) == ItemsValue(lib, items) <==> !WrapInItems(lib, items)
    decreases items, 1
  {
    match items {
      case NoItems =>
      case Item(_, d, _, rest) =>
        ValueFound(lib, d);
        ItemsFound(lib, rest);
        ConsAgrees(DocValue(lib, d), RfcValue(lib, d), ItemValues(lib, rest), ItemsValue(lib, rest));
    }
  }

  lemma ConsAgrees<T>(x: T, y: T, a: seq<T>, b: seq<T>)
    ensures [x] + a == [y] + b <==> x == y && a == b
  {
    if [x] + a == [y] + b {
      assert ([x] + a)[0] == ([y] + b)[0];
      assert ([x] + a)[1..] == a && ([y] + b)[1..] == b;
    }
  }

  lemma {:induction false} MembersFound(lib: Lib, members: Members)
    requires RfcMembers(lib, members) && ReadsNumbers(lib) && MembersOk(lib, members)
    requires !EmptyNameInMembers(lib, members)
    ensures MemberValues(lib, members, map[]).Keys == MembersValue(lib, members).Keys
    ensures MemberValues(lib, members, map[]) == MembersValue(lib, members) <==> !WrapInMembers(lib, members)
    decreases members, 1
  {
    match members {
      case NoMembers =>
      case Member(_, name, _, _, d, _, rest) =>
        StringIsRead(lib, name.chars);
        ValueFound(lib, d);
        MembersFound(lib, rest);
        var k := StringValue(lib, name.chars);
        ReadOver(lib, rest, map[k := DocValue(lib, d)]);
        OverAgrees(k, DocValue(lib, d), RfcValue(lib, d),
          MemberValues(lib, rest, map[]), MembersValue(lib, rest));
    }
  }

  /** Main result on the standard: a text of RFC 8259 rooted in an array or object is read without a diagnostic
      as the value the standard gives it, exactly when no name is empty and no number wraps around. */
  lemma RfcTextsMeanWhatTheySay(lib: Lib, before: Text, d: Doc, tail: Text, v0: JValue)
    returns (ch: int, s: St, v: JValue)
    requires RfcDoc(lib, d) && (d.DArray? || d.DObject?) && ReadsNumbers(lib) && Blank(before) && !IsContainer(v0)
    ensures Parse(lib, before + DocText(d) + tail, v0) == Done(ch, s, v)
    ensures s.log == [] <==> !HasEmptyName(lib, d)
    ensures s.log == [] && v == RfcValue(lib, d) <==> !HasEmptyName(lib, d) && !HasWrap(lib, d)
  {
    hide Parse, DocText, RfcDoc, DocOk, RfcValue, DocValue, HasWrap, HasEmptyName;
    ch, s := RfcTextsParse(lib, before, d, tail, v0);
    v := DocValue(lib, d);
    if !HasEmptyName(lib, d) { ValueFound(lib, d); }
  }
}
