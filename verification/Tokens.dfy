/** Tokens, escapes and digits that no syntax tree has, and those it has, one by one: what the reader makes of them, said
    without the functions it uses (apps/jsonreader.cpp). */
module Tokens {
  import opened Bytes
  import opened Decimal
  import opened JsonValue
  import opened ReaderSpec
  import opened Grammar
  import opened Completeness
  import opened Characters

  // ----- literals

  /** Read where no value has been read yet, a word in any case of its letters is its value, with one diagnostic if some
      letter is a capital; no other token is a literal, or is told that its case is wrong. */
  lemma LiteralsExactly(lib: Lib, ch: int, s: Text, st: St)
    ensures var r := AddToken(lib, ch, s, st, Invalid);
      && (Spells(s, "true") ==> r == (if HasCapital(s) then Note(st, LiteralCase) else st, Bool(true)))
      && (Spells(s, "false") ==> r == (if HasCapital(s) then Note(st, LiteralCase) else st, Bool(false)))
      && (Spells(s, "null") ==> r == (if HasCapital(s) then Note(st, LiteralCase) else st, Null))
      && (!Spells(s, "true") && !Spells(s, "false") && !Spells(s, "null") ==>
            && !r.1.Bool? && !r.1.Null?
            && r.0 == (if r.1.IsValid() then st else Note(st, BadLiteral)))
  {
    WordIsRead(s);
    OneWord(s);
    hide WordValue, Lower, Number, HasCapital, Spells;
    NumberIsNumber(lib, ch, s);
  }

  lemma OneWord(s: Text)
    ensures Spells(s, "true") ==> !Spells(s, "false") && !Spells(s, "null")
    ensures Spells(s, "null") ==> !Spells(s, "false")
    ensures Meant(s) == if Spells(s, "true") then Some(Bool(true)) else if Spells(s, "false") then Some(Bool(false))
      else if Spells(s, "null") then Some(Null) else None
  {
    if Spells(s, "true") { assert s[0] == 't' as int || s[0] == 'T' as int; }
  }

  lemma NumberIsNumber(lib: Lib, ch: int, s: Text)
    ensures var n := Number(lib, ch, s); n.Some? ==> n.value.Int? || n.value.UInt? || n.value.Double?
  {
    hide Signed, UnsignedResult;
  }

  /** The same in the text: the token is read, and the character after it. */
  lemma LiteralRead(lib: Lib, word: string, t: Text, st: St, r: Text)
    requires word == "true" || word == "false" || word == "null"
    requires Spells(t, word) && st.rest == t[1..] + r && Delimited(r)
    ensures var s := st.(rest := Next(r).1);
      ReadValue(lib, t[0], st, Invalid)
        == (Next(r).0, if HasCapital(t) then Note(s, LiteralCase) else s, if word == "null" then Null else Bool(word == "true"))
  {
    OneWord(t);
    WordShape(t);
    TokenRead(t, r, []);
    assert [] + t == t;
    LiteralsExactly(lib, t[0], t, st.(rest := Next(r).1));
    hide AddToken, Spells, HasCapital, ReadToken;
  }

  /** A token that is no word and no number is told so, and leaves nothing. */
  lemma BadTokenDropped(lib: Lib, key: Text, parent: JValue, st: St, t: Text, r: Text)
    requires IsContainer(parent) && t != [] && OneToken(t) && StartsToken(t[0]) && Delimited(r) && st.rest == t + r
    requires !Spells(t, "true") && !Spells(t, "false") && !Spells(t, "null") && Number(lib, t[0], t) == None
    ensures Loop(lib, 0, key, Invalid, parent, st)
      == Loop(lib, 0, key, Invalid, parent, Note(st.(rest := Next(r).1), BadLiteral).(rest := r))
  {
    OneWord(t);
    WordIsRead(t);
    hide Loop, Number, WordValue, Lower, Meant, Spells;
    var s := st.(rest := t[1..] + r);
    assert st.rest == [t[0]] + s.rest;
    TokenRead(t, r, []);
    assert [] + t == t;
    var after := Note(st.(rest := Next(r).1), BadLiteral).(rest := r);
    assert ReadValue(lib, t[0], s, Invalid) == (Next(r).0, after.(rest := Next(r).1), Invalid);
    StepTurn(lib, key, Invalid, parent, st, t[0], s.rest);
    GoRead(lib, key, Invalid, parent, after);
  }

  /** Which tokens are numbers, said of their digits: a token that starts with a digit or a sign is the integer it spells if
      that fits 64 bits, signed unless a plus sign says otherwise, and else what the library makes of it. */
  lemma NumbersExactly(lib: Lib, s: Text)
    requires s != []
    ensures !Among(s[0], "+-0123456789") ==> Number(lib, s[0], s) == None
    ensures Among(s[0], "+-0123456789") && AllDigits(Unsigned(s)) && |Unsigned(s)| <= 20 ==>
      var v := Value(Unsigned(s));
      && (s[0] == '-' as int && v <= TWO63 ==> Number(lib, s[0], s) == Some(Int(-v)))
      && (IsDigit(s[0]) && v < TWO63 ==> Number(lib, s[0], s) == Some(Int(v)))
      && (IsDigit(s[0]) && TWO63 <= v < TWO64 ==> Number(lib, s[0], s) == Some(UInt(v)))
      && (s[0] == '+' as int && v < TWO64 ==> Number(lib, s[0], s) == Some(UInt(v)))
    ensures Among(s[0], "+-0123456789") && !AllDigits(Unsigned(s)) ==>
      Number(lib, s[0], s) == match lib.toDouble(s) case Some(d) => Some(Double(d)) case None => None
  {
    if AllDigits(Unsigned(s)) && |Unsigned(s)| <= 20 {
      ConversionIsExact(s);
      hide Signed, UnsignedResult, Value, AllDigits;
    }
  }

  /** A value after a value is told so and dropped, except for the further pieces of strings and buffers. */
  lemma SecondValueDropped(lib: Lib, ch: int, s: Text, st: St, val: JValue)
    requires val.IsValid()
    ensures AddToken(lib, ch, s, st, val) == (Note(st, TokenAfterValue), val)
    ensures !val.Str? ==> AddString(st, s, val) == (Note(st, StringAfterValue), val)
    ensures !val.Buff? ==> AddBuffer(st, s, val) == (Note(st, BufferAfterValue), val)
    ensures val.Str? ==> AddString(st, s, val) == (Note(st, MultilineString), Str(val.s + s))
    ensures val.Buff? ==> AddBuffer(st, s, val) == (st, Buff(val.bytes + s))
  {
    hide WordValue, Number;
  }

  // ----- digits

  /** b is the hexadecimal digit n, in either case of the letters. */
  predicate IsNibble(b: Byte, n: int) {
    0 <= n < 16 && (b == "0123456789abcdef"[n] as int || b == "0123456789ABCDEF"[n] as int)
  }

  lemma HexDigits(b: Byte)
    ensures HexDigit(b) >= 0 ==> IsNibble(b, HexDigit(b))
    ensures forall n :: IsNibble(b, n) ==> HexDigit(b) == n
  {
    forall n | IsNibble(b, n) ensures HexDigit(b) == n {
      NibbleCode(n);
    }
    if HexDigit(b) >= 0 { NibbleCode(HexDigit(b)); }
  }

  lemma NibbleCode(n: int)
    requires 0 <= n < 16
    ensures "0123456789abcdef"[n] as int == if n < 10 then 48 + n else 87 + n
    ensures "0123456789ABCDEF"[n] as int == if n < 10 then 48 + n else 55 + n
  {
  }

  /** The four digits of an escape name a code. */
  lemma QuadsExactly(q: Text, a: int, b: int, c: int, d: int)
    requires |q| == 4 && IsNibble(q[0], a) && IsNibble(q[1], b) && IsNibble(q[2], c) && IsNibble(q[3], d)
    ensures IsHexQuad(q) && HexQuadValue(q) == a * 4096 + b * 256 + c * 16 + d
  {
    HexDigits(q[0]);
    HexDigits(q[1]);
    HexDigits(q[2]);
    HexDigits(q[3]);
  }

  /** The digit of a buffer: those the writer writes, and the seven characters between them, which stand for 3 to 9. A
      small letter is none. */
  function Digit(b: Byte): Option<int> {
    if '0' as int <= b <= '9' as int then Some(b - '0' as int)
    else if ':' as int <= b <= '@' as int then Some(b - ':' as int + 3)
    else if 'A' as int <= b <= 'F' as int then Some(b - 'A' as int + 10)
    else None
  }

  lemma BufferDigits(b: Byte)
    ensures Digit(b) == if BuffDigit(b) <= 15 then Some(BuffDigit(b)) else None
  {
  }

  predicate GoodPair(a: Byte, b: Byte) {
    Digit(a).Some? && Digit(b).Some?
  }

  /** The bytes of those pairs that are digits. */
  function PairBytes(t: Text): Text
    requires |t| % 2 == 0
  {
    if t == [] then []
    else (if GoodPair(t[0], t[1]) then [Digit(t[0]).value * 16 + Digit(t[1]).value] else []) + PairBytes(t[2..])
  }

  /** How many pairs are not. */
  function BadPairs(t: Text): nat
    requires |t| % 2 == 0
  {
    if t == [] then 0 else (if GoodPair(t[0], t[1]) then 0 else 1) + BadPairs(t[2..])
  }

  lemma {:induction false} PairsRead(t: Text, r: Text, buf: Text, errors: nat)
    requires |t| % 2 == 0 && APOSTROPHE !in t && CR !in t
    ensures BuffBody(t + [APOSTROPHE] + r, buf, errors) == (APOSTROPHE as int, r, buf + PairBytes(t), errors + BadPairs(t))
    decreases |t|
  {
    var u := t + [APOSTROPHE] + r;
    hide BuffBody, Next, BuffDigit;
    BuffStep(u, buf, errors);
    if t == [] {
      assert u == [APOSTROPHE] + r;
      NextPlain(APOSTROPHE, r);
      assert buf + [] == buf;
    } else {
      var more := t[2..] + [APOSTROPHE] + r;
      assert u == [t[0]] + ([t[1]] + more);
      NextPlain(t[0], [t[1]] + more);
      NextPlain(t[1], more);
      BufferDigits(t[0]);
      BufferDigits(t[1]);
      if GoodPair(t[0], t[1]) {
        var b: Byte := BuffDigit(t[0]) * 16 + BuffDigit(t[1]);
        PairsRead(t[2..], r, buf + [b], errors);
        assert buf + [b] + PairBytes(t[2..]) == buf + PairBytes(t);
      } else {
        PairsRead(t[2..], r, buf, errors + 1);
        assert [] + PairBytes(t[2..]) == PairBytes(t[2..]);
      }
    }
  }

  /** A buffer of pairs, read onto no value: pairs that are no digits are left out, and reported once. */
  lemma BufferReadExactly(st: St, t: Text, r: Text)
    requires |t| % 2 == 0 && APOSTROPHE !in t && CR !in t && st.rest == t + [APOSTROPHE] + r
    ensures var s := Note(st, BufferFound).(rest := r);
      ReadMemoryBuff(st, Invalid) == (Next(r).0, (if BadPairs(t) > 0 then Note(s, BadHexDigits) else s).(rest := Next(r).1),
                                      Buff(PairBytes(t)))
  {
    PairsRead(t, r, [], 0);
    assert [] + PairBytes(t) == PairBytes(t);
    hide BuffBody, PairBytes, BadPairs, Next;
  }

  // ----- escapes

  lemma OneLetterEscapes(e: Byte)
    ensures SimpleEscape(e) == if e == 'b' as int then 8 else if e == 't' as int then 9 else if e == 'n' as int then 10
      else if e == 'f' as int then 12 else if e == 'r' as int then 13 else if Among(e, "\"\\/") then e else -1
  {
  }

  /** A backslash before any other letter is reported, and both are left out. */
  lemma UnknownEscapeDropped(lib: Lib, e: Byte, st: St, r: Text, buf: Text)
    requires !Among(e, "btnfru\"\\/") && e != CR && st.rest == [BACKSLASH] + ([e] + r)
    ensures StringBody(lib, st, buf) == StringBody(lib, Note(st.(rest := r), UnknownEscape), buf)
  {
    NextPlain(BACKSLASH, [e] + r);
    NextPlain(e, r);
    OneLetterEscapes(e);
    var s := st.(rest := [e] + r);
    assert ReadChar(st) == (BACKSLASH as int, s) && ReadChar(s) == (e as int, st.(rest := r));
  }

  /** \u before four characters that are not all digits: what the library scans is appended, or the escape is reported. */
  lemma BadQuad(lib: Lib, q: Text, st: St, r: Text, buf: Text)
    requires |q| == 4 && CR !in q && !IsHexQuad(q) && st.rest == [BACKSLASH] + ([LETTER_U] + (q + r))
    ensures var s := st.(rest := r);
      StringBody(lib, st, buf)
        == if lib.scanHex(q).Some? then StringBody(lib, s, buf + lib.scanHex(q).value) else StringBody(lib, Note(s, BadEscape), buf)
  {
    NextPlain(BACKSLASH, [LETTER_U] + (q + r));
    NextPlain(LETTER_U, q + r);
    var s, t := st.(rest := [LETTER_U] + (q + r)), st.(rest := q + r);
    assert ReadChar(st) == (BACKSLASH as int, s) && ReadChar(s) == (LETTER_U, t);
    UesRead(q, r);
  }

  /** A string that is never closed ends with a byte 0xFF, and the reader is told that the input has ended. */
  lemma {:induction false} OpenString(lib: Lib, cs: seq<Char>, st: St, buf: Text)
    requires CharsOk(cs) && st.rest == CharsText(cs)
    ensures StringBody(lib, st, buf) == Scan(-1, st.(rest := []), buf + CharsBytes(lib, cs) + [255], false)
  {
    if cs == [] {
      assert buf + CharsBytes(lib, cs) == buf;
    } else {
      OpenSplit(lib, cs, buf);
      hide StringBody, CharsText, CharText, CharsBytes, CharBytes, CharsOk, CharOk;
      var more := CharsText(cs[1..]);
      BodyStep(lib, cs[0], st, more, buf);
      OpenString(lib, cs[1..], st.(rest := more), buf + CharBytes(lib, cs[0]));
    }
  }

  lemma OpenSplit(lib: Lib, cs: seq<Char>, buf: Text)
    requires cs != []
    ensures CharsText(cs) == CharText(cs[0]) + CharsText(cs[1..])
    ensures CharsOk(cs) ==> CharOk(cs[0]) && CharsOk(cs[1..])
    ensures CharsOk(cs) ==> buf + CharBytes(lib, cs[0]) + CharsBytes(lib, cs[1..]) == buf + CharsBytes(lib, cs)
  {
  }
}
