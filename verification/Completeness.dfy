/** The reader on well-formed texts: it consumes exactly the text of a syntax tree, builds the tree's value and
    raises exactly the tree's diagnostics, whatever follows. */
module Completeness {
  import opened Bytes
  import opened Decimal
  import opened JsonValue
  import opened ReaderSpec
  import opened Grammar

  function Kinds(log: seq<Event>): seq<Kind> {
    seq(|log|, i requires 0 <= i < |log| => log[i].kind)
  }

  lemma KindsOfNote(st: St, k: Kind)
    ensures Kinds(Note(st, k).log) == Kinds(st.log) + [k]
  {
  }

  // ----- characters and strings

  lemma NextPlain(b: Byte, r: Text)
    requires b != CR
    ensures Next([b] + r) == (b, r)
  {
    assert ([b] + r)[1..] == r;
  }

  lemma {:induction false} UesRead(q: Text, r: Text)
    requires |q| <= 4 && forall i :: 0 <= i < |q| ==> q[i] != CR
    ensures ReadUes(q + r, |q|) == (q, r)
  {
    if q == [] {
      assert q + r == r;
    } else {
      SplitTail(q, r);
      UesRead(q[1..], r);
      assert q == [q[0]] + q[1..];
    }
  }

  lemma RawStep(lib: Lib, b: Byte, st: St, r: Text, buf: Text)
    requires CharOk(Raw(b)) && st.rest == [b] + r
    ensures StringBody(lib, st, buf) == StringBody(lib, st.(rest := r), buf + [b])
  {
    NextPlain(b, r);
    assert ReadChar(st) == (b as int, st.(rest := r));
  }

  lemma ShortStep(lib: Lib, e: Byte, st: St, r: Text, buf: Text)
    requires CharOk(Short(e)) && st.rest == [BACKSLASH] + ([e] + r)
    ensures StringBody(lib, st, buf) == StringBody(lib, st.(rest := r), buf + [SimpleEscape(e)])
  {
    NextPlain(BACKSLASH, [e] + r);
    NextPlain(e, r);
    var s := st.(rest := [e] + r);
    assert ReadChar(st) == (BACKSLASH as int, s) && ReadChar(s) == (e as int, st.(rest := r));
  }

  lemma CodeStep(lib: Lib, q: Text, st: St, r: Text, buf: Text)
    requires CharOk(Code(q)) && st.rest == [BACKSLASH] + ([LETTER_U] + (q + r))
    ensures StringBody(lib, st, buf) == StringBody(lib, st.(rest := r), buf + EscapedBytes(lib, q).value)
  {
    NextPlain(BACKSLASH, [LETTER_U] + (q + r));
    NextPlain(LETTER_U, q + r);
    var s, t := st.(rest := [LETTER_U] + (q + r)), st.(rest := q + r);
    assert ReadChar(st) == (BACKSLASH as int, s) && ReadChar(s) == (LETTER_U, t);
    forall i | 0 <= i < |q| ensures q[i] != CR { assert HexDigit(q[i]) >= 0; }
    UesRead(q, r);
  }

  lemma EscapeText(c: Char, r: Text)
    ensures CharText(c) + r == match c
      case Raw(b) => [b] + r
      case Short(e) => [BACKSLASH] + ([e] + r)
      case Code(q) => [BACKSLASH] + ([LETTER_U] + (q + r))
  {
  }

  lemma BodyStep(lib: Lib, c: Char, st: St, r: Text, buf: Text)
    requires CharOk(c) && st.rest == CharText(c) + r
    ensures StringBody(lib, st, buf) == StringBody(lib, st.(rest := r), buf + CharBytes(lib, c))
  {
    EscapeText(c, r);
    hide StringBody, CharText;
    match c {
      case Raw(b) => RawStep(lib, b, st, r, buf);
      case Short(e) => ShortStep(lib, e, st, r, buf);
      case Code(q) => CodeStep(lib, q, st, r, buf);
    }
  }

  lemma CharsSplit(lib: Lib, cs: seq<Char>, r: Text, buf: Text)
    requires cs != []
    ensures CharsText(cs) + [QUOTE] + r == CharText(cs[0]) + (CharsText(cs[1..]) + [QUOTE] + r)
    ensures CharsOk(cs) ==> CharOk(cs[0]) && CharsOk(cs[1..])
    ensures CharsOk(cs) ==> buf + CharBytes(lib, cs[0]) + CharsBytes(lib, cs[1..]) == buf + CharsBytes(lib, cs)
  {
  }

  lemma BodyEnd(lib: Lib, st: St, r: Text, buf: Text)
    requires st.rest == [QUOTE] + r
    ensures StringBody(lib, st, buf) == Scan(QUOTE, st.(rest := r), buf, false)
  {
    NextPlain(QUOTE, r);
  }

  lemma {:induction false} BodyRead(lib: Lib, cs: seq<Char>, st: St, r: Text, buf: Text)
    requires CharsOk(cs) && st.rest == CharsText(cs) + [QUOTE] + r
    ensures StringBody(lib, st, buf) == Scan(QUOTE, st.(rest := r), buf + CharsBytes(lib, cs), false)
  {
    if cs == [] {
      assert st.rest == [QUOTE] + r;
      BodyEnd(lib, st, r, buf);
      assert buf + CharsBytes(lib, cs) == buf;
    } else {
      CharsSplit(lib, cs, r, buf);
      hide StringBody, CharsText, CharText, CharsBytes, CharBytes, CharsOk, CharOk;
      var more := CharsText(cs[1..]) + [QUOTE] + r;
      BodyStep(lib, cs[0], st, more, buf);
      BodyRead(lib, cs[1..], st.(rest := more), r, buf + CharBytes(lib, cs[0]));
    }
  }

  // ----- tokens

  lemma {:induction false} TokenRead(t: Text, r: Text, s: Text)
    requires t != [] && OneToken(t) && (Next(r).0 < 0 || EndsToken(Next(r).0))
    ensures ReadToken(t[0], t[1..] + r, s) == (Next(r).0, Next(r).1, s + t)
  {
    assert !EndsToken(t[0]);
    if |t| == 1 {
      assert t[1..] + r == r && s + t == s + [t[0]];
    } else {
      var u := t[1..];
      assert u + r == [u[0]] + (u[1..] + r);
      assert !EndsToken(u[0]);
      NextPlain(u[0], u[1..] + r);
      assert OneToken(u);
      TokenRead(u, r, s + [t[0]]);
      assert s + [t[0]] + u == s + t;
    }
  }

  // ----- one step of the loop, seen as what it does to the rest of the input

  lemma StepRead(lib: Lib, key: Text, value: JValue, parent: JValue, st: St)
    requires IsContainer(parent)
    ensures Loop(lib, 0, key, value, parent, st)
      == Loop(lib, Next(st.rest).0, key, value, parent, st.(rest := Next(st.rest).1))
  {
  }

  /** The outcome of the loop after one iteration. */
  ghost function After(lib: Lib, m: Move): Outcome
    requires m.Go? ==> IsContainer(m.parent) && -1 <= m.ch < 256
  {
    match m
    case Go(c, k, v, p, s) => Loop(lib, c, k, v, p, s)
    case Stop(r) => r
  }

  /** Reading a character that opens no container and then taking one turn. */
  lemma StepTurn(lib: Lib, key: Text, value: JValue, parent: JValue, st: St, b: Byte, r: Text)
    requires IsContainer(parent) && st.rest == [b] + r && b != CR && b > 0 && b != LBRACE && b != LBRACKET
    ensures Loop(lib, 0, key, value, parent, st) == After(lib, Turn(lib, b, key, value, parent, st.(rest := r)))
  {
    hide Turn;
    NextPlain(b, r);
    StepRead(lib, key, value, parent, st);
  }

  /** A turn that ends by reading the next character leads where reading it would lead. */
  lemma GoRead(lib: Lib, key: Text, value: JValue, parent: JValue, st: St)
    requires IsContainer(parent)
    ensures After(lib, Go(Next(st.rest).0, key, value, parent, st.(rest := Next(st.rest).1)))
      == Loop(lib, 0, key, value, parent, st)
  {
    hide Turn;
    StepRead(lib, key, value, parent, st);
  }

  lemma StepBlank(lib: Lib, key: Text, value: JValue, parent: JValue, st: St, b: Byte, r: Text)
    requires IsContainer(parent) && IsBlank(b) && st.rest == [b] + r
    ensures Loop(lib, 0, key, value, parent, st) == Loop(lib, 0, key, value, parent, st.(rest := r))
  {
    assert st.rest[1..] == r;
    var s := st.(rest := r);
    if b != CR {
      hide Loop;
      StepTurn(lib, key, value, parent, st, b, r);
      SkipWhiteRead(lib, key, value, parent, s);
    } else {
      StepRead(lib, key, value, parent, st);
      StepRead(lib, key, value, parent, s);
      if r != [] && r[0] == LF {
        assert st.rest[2..] == r[1..];
      } else if r != [] {
        hide Loop;
        AfterBlank(lib, key, value, parent, s);
      }
    }
  }

  lemma AfterBlank(lib: Lib, key: Text, value: JValue, parent: JValue, st: St)
    requires IsContainer(parent)
    ensures Loop(lib, CR, key, value, parent, st) == Loop(lib, 0, key, value, parent, st)
  {
    SkipWhiteRead(lib, key, value, parent, st);
  }

  lemma SkipWhiteRead(lib: Lib, key: Text, value: JValue, parent: JValue, st: St)
    requires IsContainer(parent)
    ensures var n := SkipWhite(st.rest);
      Loop(lib, n.0, key, value, parent, st.(rest := n.1)) == Loop(lib, 0, key, value, parent, st)
  {
    StepRead(lib, key, value, parent, st);
    var m := Next(st.rest);
    if m.0 == SPACE || m.0 == LF || m.0 == TAB {
      assert Turn(lib, m.0, key, value, parent, st.(rest := m.1))
        == Go(SkipWhite(m.1).0, key, value, parent, st.(rest := SkipWhite(m.1).1));
    }
  }

  lemma {:induction false} SkipBlanks(lib: Lib, key: Text, value: JValue, parent: JValue, st: St, b: Text, r: Text)
    requires IsContainer(parent) && Blank(b) && st.rest == b + r
    ensures Loop(lib, 0, key, value, parent, st) == Loop(lib, 0, key, value, parent, st.(rest := r))
    decreases b
  {
    if b == [] {
      assert st.rest == r;
    } else {
      assert st.rest == [b[0]] + (b[1..] + r);
      StepBlank(lib, key, value, parent, st, b[0], b[1..] + r);
      SkipBlanks(lib, key, value, parent, st.(rest := b[1..] + r), b[1..], r);
    }
  }

  // ----- comments

  /** A comment of C, seen from a character in it, ends behind the first place at which a star meets a slash. */
  lemma {:induction false} BlockEnds(ch: Byte, x: Text, r: Text)
    requires forall i :: 0 <= i <= |x| ==> !Meets([ch] + x + [STAR, SLASH], i)
    ensures BlockComment(ch, x + [STAR, SLASH] + r) == Next(r)
    decreases |x|
  {
    var t := x + [STAR, SLASH] + r;
    if x == [] {
      assert t == [STAR] + ([SLASH] + r);
      NextPlain(STAR, [SLASH] + r);
      NextPlain(SLASH, r);
      assert BlockComment(STAR, [SLASH] + r) == Next(r);
    } else {
      assert !Meets([ch] + x + [STAR, SLASH], 0);
      assert t[0] == x[0] && t[1] == (x + [STAR])[1];
      var n := if x[0] == CR && |x| > 1 && x[1] == LF then 2 else 1;
      var c, y := if n == 2 then LF else x[0], x[n..];
      assert t[n..] == y + [STAR, SLASH] + r;
      assert Next(t) == (c as int, t[n..]);
      forall i | 0 <= i <= |y| ensures !Meets([c] + y + [STAR, SLASH], i) {
        assert !Meets([ch] + x + [STAR, SLASH], i + n);
      }
      BlockEnds(c, y, r);
    }
  }

  lemma {:induction false} LineEnds(ch: Byte, x: Text, crlf: bool, r: Text)
    requires ch != LF && ch != CR && LF !in x && CR !in x
    ensures LineComment(ch, x + (if crlf then [CR, LF] else [LF]) + r) == (LF as int, r)
    decreases |x|
  {
    var end: Text := if crlf then [CR, LF] else [LF];
    var t := x + end + r;
    if x == [] {
      assert t == end + r && t[|end|..] == r;
      assert Next(t) == (LF as int, r);
    } else {
      assert t == [x[0]] + (x[1..] + end + r);
      NextPlain(x[0], x[1..] + end + r);
      LineEnds(x[0], x[1..], crlf, r);
    }
  }

  /** The state behind a comment that starts after the next character, with r left. */
  function Remarked(st: St, r: Text): St
    requires st.rest != []
  {
    Note(st.(rest := st.rest[1..]), CommentFound).(rest := r)
  }

  /** After its slash, a comment of C is skipped up to the first place at which a star, the opening one included, meets a
      slash, and the reader goes on with what follows. */
  lemma BlockSkipped(st: St, body: Text, r: Text)
    requires CommentOk(Block(body)) && st.rest == [STAR] + body + [STAR, SLASH] + r
    ensures SkipComment(st) == (Next(r).0, Remarked(st, Next(r).1))
  {
    var t := body + [STAR, SLASH] + r;
    assert st.rest == [STAR] + t;
    NextPlain(STAR, t);
    assert [STAR] + body + [STAR, SLASH] == [STAR] + (body + [STAR, SLASH]);
    BlockEnds(STAR, body, r);
    hide BlockComment, Next;
  }

  /** A comment of C++ is skipped up to the end of its line, and the line feed is handed back. */
  lemma LineSkipped(st: St, body: Text, crlf: bool, r: Text)
    requires CommentOk(ToLineEnd(body, crlf)) && st.rest == [SLASH] + body + (if crlf then [CR, LF] else [LF]) + r
    ensures SkipComment(st) == (LF as int, Remarked(st, r))
  {
    var t := body + (if crlf then [CR, LF] else [LF]) + r;
    assert st.rest == [SLASH] + t;
    NextPlain(SLASH, t);
    LineEnds(SLASH, body, crlf, r);
    hide LineComment, Next;
  }

  lemma CommentSplit(c: Comment, r: Text)
    ensures CommentText(c) + r == [SLASH] + match c
      case Block(body) => [STAR] + body + [STAR, SLASH] + r
      case ToLineEnd(body, crlf) => [SLASH] + body + (if crlf then [CR, LF] else [LF]) + r
  {
  }

  /** A comment is skipped as if it were not there, and noted once. */
  lemma StepComment(lib: Lib, key: Text, value: JValue, parent: JValue, st: St, c: Comment, r: Text)
    requires IsContainer(parent) && CommentOk(c) && st.rest == CommentText(c) + r
    ensures |st.rest| > 1
    ensures Loop(lib, 0, key, value, parent, st)
      == Loop(lib, 0, key, value, parent, Remarked(st.(rest := st.rest[1..]), r))
  {
    hide Loop, SkipComment, Next;
    CommentSplit(c, r);
    var t := st.rest[1..];
    var s := st.(rest := t);
    var after := Remarked(s, r);
    assert st.rest == [SLASH] + t;
    StepTurn(lib, key, value, parent, st, SLASH, t);
    match c {
      case Block(body) =>
        BlockSkipped(s, body, r);
        GoRead(lib, key, value, parent, after);
      case ToLineEnd(body, crlf) =>
        LineSkipped(s, body, crlf, r);
        AfterFeed(lib, key, value, parent, after);
    }
  }

  lemma AfterFeed(lib: Lib, key: Text, value: JValue, parent: JValue, st: St)
    requires IsContainer(parent)
    ensures Loop(lib, LF, key, value, parent, st) == Loop(lib, 0, key, value, parent, st)
  {
    SkipWhiteRead(lib, key, value, parent, st);
  }

  lemma StepColon(lib: Lib, k: Text, m: map<Text, JValue>, st: St, r: Text)
    requires st.rest == [COLON] + r
    ensures Loop(lib, 0, [], Str(k), Obj(m), st) == Loop(lib, 0, k, Invalid, Obj(m), st.(rest := r))
  {
    hide Loop;
    StepTurn(lib, [], Str(k), Obj(m), st, COLON, r);
    GoRead(lib, k, Invalid, Obj(m), st.(rest := r));
  }

  lemma StepComma(lib: Lib, key: Text, value: JValue, parent: JValue, st: St, r: Text)
    requires IsContainer(parent) && st.rest == [COMMA] + r
    ensures var s := StoreValue(COMMA, key, value, parent, st.(rest := r));
      Loop(lib, 0, key, value, parent, st) == Loop(lib, 0, [], Invalid, s.0, s.1)
  {
    hide Loop, StoreValue;
    var s := StoreValue(COMMA, key, value, parent, st.(rest := r));
    StepTurn(lib, key, value, parent, st, COMMA, r);
    GoRead(lib, [], Invalid, s.0, s.1);
  }

  lemma StepCloseArray(lib: Lib, value: JValue, items: seq<JValue>, st: St, r: Text)
    requires st.rest == [RBRACKET] + r
    ensures Loop(lib, 0, [], value, Arr(items), st)
      == Done(0, st.(rest := r), Arr(if value.IsValid() then items + [Cloned(value)] else items))
  {
    hide Loop;
    StepTurn(lib, [], value, Arr(items), st, RBRACKET, r);
  }

  lemma StepCloseObject(lib: Lib, key: Text, value: JValue, m: map<Text, JValue>, st: St, r: Text)
    requires st.rest == [RBRACE] + r
    ensures var s := StoreValue(RBRACE, key, value, Obj(m), st.(rest := r));
      Loop(lib, 0, key, value, Obj(m), st) == Done(Next(r).0, s.1.(rest := Next(r).1), s.0)
  {
    hide Loop, StoreValue;
    StepTurn(lib, key, value, Obj(m), st, RBRACE, r);
  }

  lemma StringRead(lib: Lib, value: JValue, st: St, cs: seq<Char>, r: Text)
    requires CharsOk(cs) && lib.utf8Ok(CharsBytes(lib, cs)) && st.rest == CharsText(cs) + [QUOTE] + r
    ensures var a := AddString(st.(rest := r), CharsBytes(lib, cs), value);
      ReadString(lib, st, value) == (Next(r).0, a.0.(rest := Next(r).1), a.1)
  {
    BodyRead(lib, cs, st, r, []);
    assert [] + CharsBytes(lib, cs) == CharsBytes(lib, cs);
  }

  lemma StepString(lib: Lib, key: Text, value: JValue, parent: JValue, st: St, cs: seq<Char>, r: Text)
    requires IsContainer(parent) && CharsOk(cs) && lib.utf8Ok(CharsBytes(lib, cs))
    requires st.rest == [QUOTE] + CharsText(cs) + [QUOTE] + r
    ensures var a := AddString(st.(rest := r), CharsBytes(lib, cs), value);
      Loop(lib, 0, key, value, parent, st) == Loop(lib, 0, key, a.1, parent, a.0)
  {
    hide Loop, ReadString, CharsText, CharsBytes;
    var s := st.(rest := CharsText(cs) + [QUOTE] + r);
    assert st.rest == [QUOTE] + s.rest;
    StringRead(lib, value, s, cs, r);
    var a := AddString(st.(rest := r), CharsBytes(lib, cs), value);
    StepTurn(lib, key, value, parent, st, QUOTE, s.rest);
    GoRead(lib, key, a.1, parent, a.0);
  }

  /** The words the reader knows, in any case of their letters, and what they stand for. */
  lemma WordIsRead(t: Text)
    ensures WordValue(t) == Meant(t)
    ensures t == Lower(t) <==> !HasCapital(t)
  {
    SpellsIsLower(t, "null", NULL_TEXT);
    SpellsIsLower(t, "true", TRUE_TEXT);
    SpellsIsLower(t, "false", FALSE_TEXT);
    hide Spells;
    if HasCapital(t) {
      var i :| 0 <= i < |t| && 'A' as int <= t[i] <= 'Z' as int;
      assert Lower(t)[i] != t[i];
    }
  }

  lemma SpellsIsLower(t: Text, word: string, w: Text)
    requires |word| == |w|
    requires forall i :: 0 <= i < |w| ==> w[i] == word[i] as int && 97 <= w[i] <= 122
    ensures Spells(t, word) <==> Lower(t) == w
  {
    var l := Lower(t);
    if Spells(t, word) {
      forall i | 0 <= i < |t| ensures l[i] == w[i] {}
    } else if l == w {
      forall i | 0 <= i < |t| ensures t[i] == word[i] as int || t[i] == word[i] as int - 32 {
        assert l[i] == w[i];
      }
    }
  }

  predicate StartsToken(ch: int) {
    ch > 0 && !EndsToken(ch) && ch != SLASH && ch != QUOTE && ch != APOSTROPHE
  }

  lemma StepToken(lib: Lib, key: Text, parent: JValue, st: St, t: Text, r: Text)
    requires IsContainer(parent) && t != [] && OneToken(t) && StartsToken(t[0])
    requires st.rest == t + r && (Next(r).0 < 0 || EndsToken(Next(r).0))
    requires Meant(t).Some? || Number(lib, t[0], t).Some?
    ensures Loop(lib, 0, key, Invalid, parent, st)
      == Loop(lib, 0, key, AddToken(lib, t[0], t, st, Invalid).1, parent, TokenLog(st, t, r))
  {
    WordIsRead(t);
    hide Loop, Number, WordValue, Lower, Meant, HasCapital;
    var s := st.(rest := t[1..] + r);
    assert st.rest == [t[0]] + s.rest;
    TokenRead(t, r, []);
    assert [] + t == t;
    var v := AddToken(lib, t[0], t, st, Invalid).1;
    assert ReadValue(lib, t[0], s, Invalid) == (Next(r).0, TokenLog(st, t, r).(rest := Next(r).1), v);
    StepTurn(lib, key, Invalid, parent, st, t[0], s.rest);
    GoRead(lib, key, v, parent, TokenLog(st, t, r));
  }

  /** The state after a token: a literal in the wrong case is noted when the character after it has been read. */
  function TokenLog(st: St, t: Text, r: Text): St {
    if Meant(t).Some? && HasCapital(t) then Note(st.(rest := Next(r).1), LiteralCase).(rest := r)
    else st.(rest := r)
  }

  lemma StepOpen(lib: Lib, key: Text, parent: JValue, st: St, isObject: bool, r: Text, inner: Outcome)
    requires IsContainer(parent) && st.rest == [if isObject then LBRACE else LBRACKET] + r
    requires inner == DoRead(lib, if isObject then Obj(map[]) else Arr([]),
                             NoteOpen(key, Invalid, parent, st.(rest := r)))
    requires inner.Done?
    ensures Loop(lib, 0, key, Invalid, parent, st) == Loop(lib, inner.ch, key, inner.v, parent, inner.st)
  {
    hide Turn;
    NextPlain(if isObject then LBRACE else LBRACKET, r);
    StepRead(lib, key, Invalid, parent, st);
  }

  // ----- buffers

  lemma HexCharReads(d: int)
    requires 0 <= d < 16
    ensures BuffDigit(HexChar(d)) == d && HexChar(d) != APOSTROPHE && HexChar(d) != CR
  {
  }

  lemma BuffEnd(r: Text, buf: Text)
    ensures BuffBody([APOSTROPHE] + r, buf, 0) == (APOSTROPHE as int, r, buf, 0)
  {
    hide BuffBody, Next;
    NextPlain(APOSTROPHE, r);
    BuffStep([APOSTROPHE] + r, buf, 0);
  }

  lemma {:induction false} BuffRead(bs: Text, r: Text, buf: Text)
    ensures BuffBody(HexText(bs) + [APOSTROPHE] + r, buf, 0) == (APOSTROPHE as int, r, buf + bs, 0)
  {
    if bs == [] {
      assert HexText(bs) + [APOSTROPHE] + r == [APOSTROPHE] + r;
      hide BuffBody, HexText;
      BuffEnd(r, buf);
      assert buf + bs == buf;
    } else {
      hide BuffBody, HexText;
      HexFirst(bs, r);
      BuffByte(bs[0], HexText(bs[1..]) + [APOSTROPHE] + r, buf);
      BuffRead(bs[1..], r, buf + [bs[0]]);
      OneByOne(buf, bs);
    }
  }

  lemma OneByOne(buf: Text, bs: Text)
    requires bs != []
    ensures buf + [bs[0]] + bs[1..] == buf + bs
  {
  }

  lemma HexFirst(bs: Text, r: Text)
    requires bs != []
    ensures HexText(bs) + [APOSTROPHE] + r == HexText([bs[0]]) + (HexText(bs[1..]) + [APOSTROPHE] + r)
  {
    hide HexChar;
    assert [bs[0]][1..] == [];
  }

  lemma BuffByte(b: Byte, more: Text, buf: Text)
    ensures BuffBody(HexText([b]) + more, buf, 0) == BuffBody(more, buf + [b], 0)
  {
    hide BuffBody, HexChar;
    BuffPair(b / 16, b % 16, more, buf);
    assert [b][1..] == [];
    assert HexText([b]) + more == [HexChar(b / 16)] + ([HexChar(b % 16)] + more);
  }

  /** Two digits make a byte. */
  lemma BuffPair(high: int, low: int, more: Text, buf: Text)
    requires 0 <= high < 16 && 0 <= low < 16
    ensures BuffBody([HexChar(high)] + ([HexChar(low)] + more), buf, 0) == BuffBody(more, buf + [high * 16 + low], 0)
  {
    HexCharReads(high);
    HexCharReads(low);
    hide BuffBody, HexChar, Next, BuffDigit;
    var hi, lo := HexChar(high), HexChar(low);
    BuffStep([hi] + ([lo] + more), buf, 0);
    NextPlain(hi, [lo] + more);
    NextPlain(lo, more);
  }

  lemma StepBuffer(lib: Lib, key: Text, value: JValue, parent: JValue, st: St, bs: Text, r: Text)
    requires IsContainer(parent) && (value == Invalid || value.Buff?)
    requires st.rest == [APOSTROPHE] + (HexText(bs) + [APOSTROPHE] + r)
    ensures Loop(lib, 0, key, value, parent, st)
      == Loop(lib, 0, key, AddBuffer(st, bs, value).1, parent,
              Note(st.(rest := HexText(bs) + [APOSTROPHE] + r), BufferFound).(rest := r))
  {
    hide Loop, HexText;
    var s := st.(rest := HexText(bs) + [APOSTROPHE] + r);
    var t := Note(s, BufferFound).(rest := r);
    var v := AddBuffer(st, bs, value).1;
    BuffRead(bs, r, []);
    assert [] + bs == bs;
    assert ReadMemoryBuff(s, value) == (Next(r).0, t.(rest := Next(r).1), v);
    StepTurn(lib, key, value, parent, st, APOSTROPHE, s.rest);
    GoRead(lib, key, v, parent, t);
  }

  // ----- whole texts

  function Max(a: int, b: int): int {
    if a < b then b else a
  }

  /** s is st after a text that raised `kinds` and opened n containers, with `tail` left to read. */
  ghost predicate Reached(st: St, s: St, tail: Text, kinds: seq<Kind>, n: nat) {
    && s.rest == tail
    && Kinds(s.log) == Kinds(st.log) + kinds
    && s.level == st.level + n
    && s.depth == Max(st.depth, s.level)
  }

  lemma Unchanged(st: St, tail: Text)
    requires st.depth >= st.level
    ensures Reached(st, st.(rest := tail), tail, [], 0)
  {
    assert Kinds(st.log) + [] == Kinds(st.log);
  }

  lemma Noted(st: St, r: Text, k: Kind, tail: Text)
    requires st.depth >= st.level
    ensures Reached(st, Note(st.(rest := r), k).(rest := tail), tail, [k], 0)
  {
    KindsOfNote(st.(rest := r), k);
  }

  lemma Follow(st: St, s1: St, s2: St, r1: Text, r2: Text, k1: seq<Kind>, k2: seq<Kind>, n1: nat, n2: nat)
    requires Reached(st, s1, r1, k1, n1) && Reached(s1, s2, r2, k2, n2)
    ensures Reached(st, s2, r2, k1 + k2, n1 + n2)
  {
    assert Kinds(st.log) + k1 + k2 == Kinds(st.log) + (k1 + k2);
  }

  lemma Chain(st: St, s1: St, s2: St, r1: Text, r2: Text, k1: seq<Kind>, k2: seq<Kind>, n1: nat, n2: nat, skipped: Text)
    requires Reached(st, s1, r1, k1, n1) && Reached(s1.(rest := skipped), s2, r2, k2, n2)
    ensures Reached(st, s2, r2, k1 + k2, n1 + n2)
  {
    assert Kinds(st.log) + k1 + k2 == Kinds(st.log) + (k1 + k2);
  }

  lemma {:induction false} SkipGap(lib: Lib, key: Text, value: JValue, parent: JValue, st: St, g: Gap, r: Text)
      returns (s: St)
    requires IsContainer(parent) && GapOk(g) && st.rest == GapText(g) + r && st.depth >= st.level
    ensures Reached(st, s, r, GapKinds(g), 0)
    ensures Loop(lib, 0, key, value, parent, st) == Loop(lib, 0, key, value, parent, s)
    decreases g
  {
    hide Loop, Reached, CommentOk, CommentText, Blank;
    match g {
      case Blanks(b) =>
        SkipBlanks(lib, key, value, parent, st, b, r);
        s := st.(rest := r);
        Unchanged(st, r);
      case Commented(b, c, rest) =>
        var t2 := GapText(rest) + r;
        var t1 := CommentText(c) + t2;
        GapSplit(b, c, rest, r);
        SkipBlanks(lib, key, value, parent, st, b, t1);
        var s1 := st.(rest := t1);
        StepComment(lib, key, value, parent, s1, c, t2);
        var s2 := Remarked(s1.(rest := t1[1..]), t2);
        Noted(st, t1[1..][1..], CommentFound, t2);
        Levels(st, s2, t2, [CommentFound], 0);
        s := SkipGap(lib, key, value, parent, s2, rest, r);
        Follow(st, s2, s, t2, r, [CommentFound], GapKinds(rest), 0, 0);
    }
  }

  lemma GapSplit(b: Text, c: Comment, rest: Gap, r: Text)
    ensures GapText(Commented(b, c, rest)) + r == b + (CommentText(c) + (GapText(rest) + r))
  {
    hide CommentText;
    Regroup(b + CommentText(c), GapText(rest), r);
    Regroup(b, CommentText(c), GapText(rest) + r);
  }

  /** The next character, if any, ends a token. */
  predicate Delimited(tail: Text) {
    Next(tail).0 < 0 || EndsToken(Next(tail).0)
  }

  /** After a word or a number comes a blank or the end of the item. */
  lemma DelimitedBy(d: Doc, post: Gap, end: Text)
    requires GapOk(post) && Separates(d, post)
    requires end != [] && (end[0] == COMMA || end[0] == RBRACKET || end[0] == RBRACE)
    ensures MayEnd(d, GapText(post) + end)
  {
    var t, b := GapText(post) + end, post.blanks;
    if d.DWord? || d.DNumber? {
      assert t[0] == if b == [] then end[0] else b[0];
    }
  }

  /** A word or a number ends before this text. */
  predicate MayEnd(d: Doc, tail: Text) {
    d.DWord? || d.DNumber? ==> Delimited(tail)
  }

  lemma SplitText(cs: seq<Char>, gap: Gap, rest: Literal, tail: Text)
    ensures LiteralText(Split(cs, gap, rest)) + tail
      == [QUOTE] + CharsText(cs) + [QUOTE] + (GapText(gap) + (LiteralText(rest) + tail))
  {
    hide CharsText, GapText;
  }

  /** A first or a further piece of a string: only a further one is noted. */
  lemma ReadPiece(lib: Lib, key: Text, value: JValue, parent: JValue, st: St, cs: seq<Char>, r: Text) returns (s: St)
    requires IsContainer(parent) && CharsOk(cs) && lib.utf8Ok(CharsBytes(lib, cs)) && st.depth >= st.level
    requires value == Invalid || value.Str?
    requires st.rest == [QUOTE] + CharsText(cs) + [QUOTE] + r
    ensures Reached(st, s, r, if value == Invalid then [] else [MultilineString], 0)
    ensures var bs := CharsBytes(lib, cs);
      Loop(lib, 0, key, value, parent, st)
      == Loop(lib, 0, key, Str(if value == Invalid then bs else value.s + bs), parent, s)
  {
    hide Loop;
    StepString(lib, key, value, parent, st, cs, r);
    s := AddString(st.(rest := r), CharsBytes(lib, cs), value).0;
    Unchanged(st, r);
    Noted(st, r, MultilineString, r);
  }

  lemma {:induction false} ReadPieces(lib: Lib, key: Text, t: Text, parent: JValue, st: St, l: Literal, tail: Text)
      returns (s: St)
    requires IsContainer(parent) && LiteralOk(lib, l) && st.rest == LiteralText(l) + tail && st.depth >= st.level
    ensures Reached(st, s, tail, [MultilineString] + LiteralKinds(l), 0)
    ensures Loop(lib, 0, key, Str(t), parent, st) == Loop(lib, 0, key, Str(t + LiteralBytes(lib, l)), parent, s)
    decreases l
  {
    hide Loop, Reached;
    match l {
      case Last(cs) =>
        s := ReadPiece(lib, key, Str(t), parent, st, cs, tail);
        assert [MultilineString] + LiteralKinds(l) == [MultilineString];
      case Split(cs, gap, rest) =>
        SplitText(cs, gap, rest, tail);
        var more, t1 := LiteralText(rest) + tail, t + CharsBytes(lib, cs);
        var s1 := ReadPiece(lib, key, Str(t), parent, st, cs, GapText(gap) + more);
        Levels(st, s1, GapText(gap) + more, [MultilineString], 0);
        var s2 := SkipGap(lib, key, Str(t1), parent, s1, gap, more);
        Levels(s1, s2, more, GapKinds(gap), 0);
        s := ReadPieces(lib, key, t1, parent, s2, rest, tail);
        Follow(s1, s2, s, more, tail, GapKinds(gap), [MultilineString] + LiteralKinds(rest), 0, 0);
        Follow(st, s1, s, GapText(gap) + more, tail, [MultilineString], LiteralKinds(l), 0, 0);
        BytesSplit(lib, t, cs, gap, rest);
    }
  }

  lemma BytesSplit(lib: Lib, t: Text, cs: seq<Char>, gap: Gap, rest: Literal)
    requires LiteralOk(lib, Split(cs, gap, rest))
    ensures t + CharsBytes(lib, cs) + LiteralBytes(lib, rest) == t + LiteralBytes(lib, Split(cs, gap, rest))
  {
  }

  lemma Levels(st: St, s: St, tail: Text, kinds: seq<Kind>, n: nat)
    requires Reached(st, s, tail, kinds, n) && st.depth >= st.level
    ensures s.rest == tail && s.depth >= s.level
  {
  }

  lemma ReadLiteral(lib: Lib, key: Text, parent: JValue, st: St, l: Literal, tail: Text) returns (s: St)
    requires IsContainer(parent) && LiteralOk(lib, l) && st.rest == LiteralText(l) + tail && st.depth >= st.level
    ensures Reached(st, s, tail, LiteralKinds(l), 0)
    ensures Loop(lib, 0, key, Invalid, parent, st) == Loop(lib, 0, key, Str(LiteralBytes(lib, l)), parent, s)
  {
    hide Loop, Reached;
    match l {
      case Last(cs) =>
        s := ReadPiece(lib, key, Invalid, parent, st, cs, tail);
      case Split(cs, gap, rest) =>
        SplitText(cs, gap, rest, tail);
        var more, t := LiteralText(rest) + tail, CharsBytes(lib, cs);
        var s1 := ReadPiece(lib, key, Invalid, parent, st, cs, GapText(gap) + more);
        Levels(st, s1, GapText(gap) + more, [], 0);
        var s2 := SkipGap(lib, key, Str(t), parent, s1, gap, more);
        Levels(s1, s2, more, GapKinds(gap), 0);
        s := ReadPieces(lib, key, t, parent, s2, rest, tail);
        Follow(s1, s2, s, more, tail, GapKinds(gap), [MultilineString] + LiteralKinds(rest), 0, 0);
        Follow(st, s1, s, GapText(gap) + more, tail, [], LiteralKinds(l), 0, 0);
        assert [] + LiteralKinds(l) == LiteralKinds(l);
    }
  }

  /** The value after one more piece of a buffer. */
  function Joined(value: JValue, bs: Text): JValue
    requires value == Invalid || value.Buff?
  {
    Buff(if value == Invalid then bs else value.bytes + bs)
  }

  lemma ReadHex(lib: Lib, key: Text, value: JValue, parent: JValue, st: St, bs: Text, r: Text) returns (s: St)
    requires IsContainer(parent) && (value == Invalid || value.Buff?) && st.depth >= st.level
    requires st.rest == [APOSTROPHE] + (HexText(bs) + [APOSTROPHE] + r)
    ensures Reached(st, s, r, [BufferFound], 0)
    ensures Loop(lib, 0, key, value, parent, st) == Loop(lib, 0, key, Joined(value, bs), parent, s)
  {
    hide Loop;
    StepBuffer(lib, key, value, parent, st, bs, r);
    Noted(st, HexText(bs) + [APOSTROPHE] + r, BufferFound, r);
    s := Note(st.(rest := HexText(bs) + [APOSTROPHE] + r), BufferFound).(rest := r);
  }

  lemma SplitHexText(bs: Text, gap: Gap, rest: Hex, tail: Text)
    ensures BufferText(SplitHex(bs, gap, rest)) + tail
      == [APOSTROPHE] + (HexText(bs) + [APOSTROPHE] + (GapText(gap) + (BufferText(rest) + tail)))
    ensures BufferText(LastHex(bs)) + tail == [APOSTROPHE] + (HexText(bs) + [APOSTROPHE] + tail)
  {
    hide HexText, GapText;
  }

  lemma {:induction false} ReadHexPieces(lib: Lib, key: Text, value: JValue, parent: JValue, st: St, h: Hex, tail: Text)
      returns (s: St)
    requires IsContainer(parent) && HexOk(h) && st.rest == BufferText(h) + tail && st.depth >= st.level
    requires value == Invalid || value.Buff?
    ensures Reached(st, s, tail, HexKinds(h), 0)
    ensures Loop(lib, 0, key, value, parent, st) == Loop(lib, 0, key, Joined(value, HexBytes(h)), parent, s)
    decreases h
  {
    hide Loop, Reached;
    match h {
      case LastHex(bs) =>
        SplitHexText(bs, Blanks([]), h, tail);
        s := ReadHex(lib, key, value, parent, st, bs, tail);
      case SplitHex(bs, gap, rest) =>
        SplitHexText(bs, gap, rest, tail);
        var more := BufferText(rest) + tail;
        var s1 := ReadHex(lib, key, value, parent, st, bs, GapText(gap) + more);
        Levels(st, s1, GapText(gap) + more, [BufferFound], 0);
        var v := Joined(value, bs);
        var s2 := SkipGap(lib, key, v, parent, s1, gap, more);
        Levels(s1, s2, more, GapKinds(gap), 0);
        s := ReadHexPieces(lib, key, v, parent, s2, rest, tail);
        Follow(s1, s2, s, more, tail, GapKinds(gap), HexKinds(rest), 0, 0);
        Follow(st, s1, s, GapText(gap) + more, tail, [BufferFound], GapKinds(gap) + HexKinds(rest), 0, 0);
        JoinedTwice(value, bs, HexBytes(rest));
    }
  }

  lemma JoinedTwice(value: JValue, a: Text, b: Text)
    requires value == Invalid || value.Buff?
    ensures Joined(Joined(value, a), b) == Joined(value, a + b)
  {
    assert value.Buff? ==> value.bytes + a + b == value.bytes + (a + b);
  }

  lemma WordShape(t: Text)
    requires Meant(t).Some?
    ensures t != [] && OneToken(t) && StartsToken(t[0])
  {
    forall i | 0 <= i < |t| ensures !EndsToken(t[i]) && t[i] != SLASH && 65 <= t[i] <= 117 {
    }
  }

  lemma NumberIsNoWord(t: Text)
    requires t != [] && (IsDigit(t[0]) || t[0] == PLUS || t[0] == MINUS)
    ensures Meant(t) == None
  {
    assert t[0] < 65;
  }

  /** A literal or a numeral. */
  lemma ReadWord(lib: Lib, key: Text, parent: JValue, st: St, d: Doc, tail: Text) returns (s: St)
    requires IsContainer(parent) && DocOk(lib, d) && Delimited(tail) && (d.DWord? || d.DNumber?)
    requires st.rest == d.text + tail && st.depth >= st.level
    ensures Reached(st, s, tail, DocKinds(lib, d), 0)
    ensures Loop(lib, 0, key, Invalid, parent, st) == Loop(lib, 0, key, DocValue(lib, d), parent, s)
  {
    hide Loop, HasCapital;
    var t := d.text;
    WordIsRead(t);
    if d.DWord? {
      WordShape(t);
    } else {
      assert !EndsToken(t[0]);
      NumberIsNoWord(t);
    }
    StepToken(lib, key, parent, st, t, tail);
    s := TokenLog(st, t, tail);
    Unchanged(st, tail);
    Noted(st, Next(tail).1, LiteralCase, tail);
  }

  /** The diagnostics of a value that follows `key` in `parent`. */
  function ValueKinds(lib: Lib, key: Text, parent: JValue, d: Doc): seq<Kind> {
    (if parent.Obj? && key == [] then OpenKinds(d) else []) + DocKinds(lib, d)
  }

  lemma {:induction false} ReadDoc(lib: Lib, key: Text, parent: JValue, st: St, d: Doc, tail: Text) returns (s: St)
    requires IsContainer(parent) && DocOk(lib, d) && MayEnd(d, tail)
    requires st.rest == DocText(d) + tail && st.depth >= st.level
    ensures Reached(st, s, tail, ValueKinds(lib, key, parent, d), Containers(d))
    ensures Loop(lib, 0, key, Invalid, parent, st) == Loop(lib, 0, key, DocValue(lib, d), parent, s)
    decreases d, 1
  {
    hide Loop, Reached;
    if d.DArray? || d.DObject? {
      s := ReadContainer(lib, key, parent, st, d, tail);
    } else {
      match d {
        case DString(l) => s := ReadLiteral(lib, key, parent, st, l, tail);
        case DBuffer(h) => s := ReadHexPieces(lib, key, Invalid, parent, st, h, tail);
        case _ => s := ReadWord(lib, key, parent, st, d, tail);
      }
      assert ValueKinds(lib, key, parent, d) == DocKinds(lib, d);
    }
  }

  /** The state in which DoRead starts on a container opened under `key` in `parent`. */
  function Opened(key: Text, parent: JValue, st: St, r: Text): St {
    Enter(NoteOpen(key, Invalid, parent, st.(rest := r)))
  }

  lemma OpenedReached(key: Text, parent: JValue, st: St, r: Text, d: Doc)
    requires st.depth >= st.level && (d.DArray? || d.DObject?)
    ensures Reached(st, Opened(key, parent, st, r), r, if parent.Obj? && key == [] then OpenKinds(d) else [], 1)
  {
    if parent.Obj? && key == [] {
      KindsOfNote(st.(rest := r), OpenNameMissing);
    } else {
      assert Kinds(st.log) + [] == Kinds(st.log);
    }
  }

  /** The reader inside a container, after its opening character. */
  ghost function Inside(lib: Lib, isObject: bool, s: St): Outcome {
    Loop(lib, 0, [], Invalid, if isObject then Obj(map[]) else Arr([]), s)
  }

  lemma EnterContainer(lib: Lib, key: Text, parent: JValue, st: St, isObject: bool, r: Text, inner: Outcome)
    requires IsContainer(parent) && st.rest == [if isObject then LBRACE else LBRACKET] + r
    requires inner == Inside(lib, isObject, Opened(key, parent, st, r)) && inner.Done?
    ensures Loop(lib, 0, key, Invalid, parent, st) == Loop(lib, inner.ch, key, inner.v, parent, inner.st)
  {
    hide Loop;
    StepOpen(lib, key, parent, st, isObject, r, inner);
  }

  lemma {:induction false} ReadContainer(lib: Lib, key: Text, parent: JValue, st: St, d: Doc, tail: Text) returns (s: St)
    requires IsContainer(parent) && DocOk(lib, d) && (d.DArray? || d.DObject?)
    requires st.rest == DocText(d) + tail && st.depth >= st.level
    ensures Reached(st, s, tail, ValueKinds(lib, key, parent, d), Containers(d))
    ensures Loop(lib, 0, key, Invalid, parent, st) == Loop(lib, 0, key, DocValue(lib, d), parent, s)
    decreases d, 0
  {
    if d.DArray? {
      s := ReadArray(lib, key, parent, st, d, tail);
    } else {
      s := ReadObject(lib, key, parent, st, d, tail);
    }
  }

  lemma {:induction false} ReadArray(lib: Lib, key: Text, parent: JValue, st: St, d: Doc, tail: Text) returns (s: St)
    requires IsContainer(parent) && DocOk(lib, d) && d.DArray?
    requires st.rest == DocText(d) + tail && st.depth >= st.level
    ensures Reached(st, s, tail, ValueKinds(lib, key, parent, d), Containers(d))
    ensures Loop(lib, 0, key, Invalid, parent, st) == Loop(lib, 0, key, DocValue(lib, d), parent, s)
    decreases d, -1
  {
    hide Loop, Reached, Opened, OpenKinds;
    var inside := ItemsText(d.items) + [RBRACKET] + tail;
    var r := GapText(d.gap) + inside;
    ArrayText(d, tail);
    var s1 := Opened(key, parent, st, r);
    OpenedReached(key, parent, st, r, d);
    var opening := if parent.Obj? && key == [] then OpenKinds(d) else [];
    Levels(st, s1, r, opening, 1);
    var s2 := SkipGap(lib, [], Invalid, Arr([]), s1, d.gap, inside);
    Levels(s1, s2, inside, GapKinds(d.gap), 0);
    s := ReadItems(lib, [], s2, d.items, tail);
    assert [] + ItemValues(lib, d.items) == ItemValues(lib, d.items);
    Follow(s1, s2, s, inside, tail, GapKinds(d.gap), ItemKinds(lib, d.items), 0, ItemContainers(d.items));
    Follow(st, s1, s, r, tail, opening, DocKinds(lib, d), 1, ItemContainers(d.items));
    EnterContainer(lib, key, parent, st, false, r, Done(0, s, DocValue(lib, d)));
  }

  lemma ArrayText(d: Doc, tail: Text)
    requires d.DArray?
    ensures DocText(d) + tail == [LBRACKET] + (GapText(d.gap) + (ItemsText(d.items) + [RBRACKET] + tail))
  {
    hide ItemsText, GapText;
  }

  lemma ObjectText(d: Doc, tail: Text)
    requires d.DObject?
    ensures DocText(d) + tail == [LBRACE] + (GapText(d.gap) + (MembersText(d.members) + [RBRACE] + tail))
  {
    hide MembersText, GapText;
  }

  lemma {:induction false} ReadObject(lib: Lib, key: Text, parent: JValue, st: St, d: Doc, tail: Text) returns (s: St)
    requires IsContainer(parent) && DocOk(lib, d) && d.DObject?
    requires st.rest == DocText(d) + tail && st.depth >= st.level
    ensures Reached(st, s, tail, ValueKinds(lib, key, parent, d), Containers(d))
    ensures Loop(lib, 0, key, Invalid, parent, st) == Loop(lib, 0, key, DocValue(lib, d), parent, s)
    decreases d, -1
  {
    hide Loop, Reached, Opened, OpenKinds, MembersText, MemberKinds, MemberContainers, MembersOk, GapOk, GapText, GapKinds,
      StoreValue;
    var inside := MembersText(d.members) + [RBRACE] + tail;
    var r := GapText(d.gap) + inside;
    ObjectText(d, tail);
    var s1 := Opened(key, parent, st, r);
    OpenedReached(key, parent, st, r, d);
    var opening := if parent.Obj? && key == [] then OpenKinds(d) else [];
    Levels(st, s1, r, opening, 1);
    var s2 := SkipGap(lib, [], Invalid, Obj(map[]), s1, d.gap, inside);
    Levels(s1, s2, inside, GapKinds(d.gap), 0);
    s := ReadMembers(lib, map[], s2, d.members, tail);
    Levels(s2, s, tail, MemberKinds(lib, d.members), MemberContainers(d.members));
    Follow(s1, s2, s, inside, tail, GapKinds(d.gap), MemberKinds(lib, d.members), 0, MemberContainers(d.members));
    Follow(st, s1, s, r, tail, opening, DocKinds(lib, d), 1, MemberContainers(d.members));
    EnterContainer(lib, key, parent, st, true, r, Done(Next(tail).0, s.(rest := Next(tail).1), DocValue(lib, d)));
    StepRead(lib, key, DocValue(lib, d), parent, s);
  }

  /** What follows an item and the blanks after it. */
  function ItemsEnd(rest: Items, tail: Text): (end: Text)
    ensures end != [] && (end[0] == COMMA || end[0] == RBRACKET)
  {
    if rest == NoItems then [RBRACKET] + tail else [COMMA] + (ItemsText(rest) + [RBRACKET] + tail)
  }

  lemma ItemsSplit(items: Items, tail: Text)
    requires items.Item?
    ensures ItemsText(items) + [RBRACKET] + tail
      == GapText(items.pre) + (DocText(items.doc) + (GapText(items.post) + ItemsEnd(items.rest, tail)))
  {
    hide *;
    var a, b, c := GapText(items.pre), DocText(items.doc), GapText(items.post);
    var x := if items.rest == NoItems then [] else [COMMA] + ItemsText(items.rest);
    ItemsUnfold(items);
    ItemsEndIs(items.rest, tail);
    Regroup(a + b + c, x, [RBRACKET]);
    Regroup(a + b + c, x + [RBRACKET], tail);
    Regroup(a + b, c, x + [RBRACKET] + tail);
    Regroup(a, b, c + (x + [RBRACKET] + tail));
  }

  lemma ItemsUnfold(items: Items)
    requires items.Item?
    ensures ItemsText(items) == GapText(items.pre) + DocText(items.doc) + GapText(items.post)
      + if items.rest == NoItems then [] else [COMMA] + ItemsText(items.rest)
  {
    hide DocText, GapText;
  }

  lemma ItemsEndIs(rest: Items, tail: Text)
    ensures (if rest == NoItems then [] else [COMMA] + ItemsText(rest)) + [RBRACKET] + tail == ItemsEnd(rest, tail)
  {
    hide ItemsText;
    if rest == NoItems {
      assert [] + [RBRACKET] + tail == [RBRACKET] + tail;
    } else {
      Regroup([COMMA], ItemsText(rest), [RBRACKET]);
      Regroup([COMMA], ItemsText(rest) + [RBRACKET], tail);
    }
  }

  lemma {:induction false} ReadItems(lib: Lib, xs: seq<JValue>, st: St, items: Items, tail: Text) returns (s: St)
    requires ItemsOk(lib, items) && st.rest == ItemsText(items) + [RBRACKET] + tail && st.depth >= st.level
    ensures Reached(st, s, tail, ItemKinds(lib, items), ItemContainers(items))
    ensures Loop(lib, 0, [], Invalid, Arr(xs), st) == Done(0, s, Arr(xs + ItemValues(lib, items)))
    decreases items, 1
  {
    hide Loop, Reached, GapText, GapOk, GapKinds, DocOk, DocText, DocValue, DocKinds, Containers, OneItemKinds;
    if items == NoItems {
      assert st.rest == [RBRACKET] + tail;
      StepCloseArray(lib, Invalid, xs, st, tail);
      s := st.(rest := tail);
      Unchanged(st, tail);
      assert xs + [] == xs;
    } else {
      var d, rest, end := items.doc, items.rest, ItemsEnd(items.rest, tail);
      var s1 := ReadItem(lib, xs, st, items.pre, d, items.post, end, items, tail);
      var v, k := DocValue(lib, d), OneItemKinds(lib, items.pre, d, items.post);
      Levels(st, s1, end, k, Containers(d));
      OneItem(lib, xs, items);
      if rest == NoItems {
        StepCloseArray(lib, v, xs, s1, tail);
        s := s1.(rest := tail);
        Unchanged(s1, tail);
        Follow(st, s1, s, end, tail, k, [], Containers(d), 0);
      } else {
        var more := ItemsText(rest) + [RBRACKET] + tail;
        StepComma(lib, [], v, Arr(xs), s1, more);
        s := ReadItems(lib, xs + [Cloned(v)], s1.(rest := more), rest, tail);
        Chain(st, s1, s, end, tail, k, ItemKinds(lib, rest), Containers(d), ItemContainers(rest), more);
      }
    }
  }

  /** The diagnostics of one item. */
  function OneItemKinds(lib: Lib, pre: Gap, d: Doc, post: Gap): seq<Kind> {
    GapKinds(pre) + DocKinds(lib, d) + GapKinds(post)
  }

  lemma OneItem(lib: Lib, xs: seq<JValue>, items: Items)
    requires items.Item? && ItemsOk(lib, items)
    ensures ItemKinds(lib, items) == OneItemKinds(lib, items.pre, items.doc, items.post) + ItemKinds(lib, items.rest)
    ensures ItemContainers(items) == Containers(items.doc) + ItemContainers(items.rest)
    ensures xs + [Cloned(DocValue(lib, items.doc))] + ItemValues(lib, items.rest) == xs + ItemValues(lib, items)
    ensures items.rest == NoItems ==>
      && ItemKinds(lib, items.rest) == [] && ItemContainers(items.rest) == 0
      && xs + ItemValues(lib, items) == xs + [Cloned(DocValue(lib, items.doc))]
  {
    hide DocKinds, DocValue, DocOk, Containers, GapKinds, GapOk;
  }

  lemma {:induction false} ReadItem(lib: Lib, xs: seq<JValue>, st: St, pre: Gap, d: Doc, post: Gap, end: Text,
      items: Items, tail: Text) returns (s: St)
    requires items.Item? && items == Item(pre, d, post, items.rest) && ItemsOk(lib, items)
    requires st.rest == ItemsText(items) + [RBRACKET] + tail && st.depth >= st.level && end == ItemsEnd(items.rest, tail)
    ensures Reached(st, s, end, OneItemKinds(lib, pre, d, post), Containers(d))
    ensures Loop(lib, 0, [], Invalid, Arr(xs), st) == Loop(lib, 0, [], DocValue(lib, d), Arr(xs), s)
    decreases items, 0
  {
    hide Loop, Reached, GapText, GapOk, DocText;
    ItemsSplit(items, tail);
    var after := GapText(post) + end;
    var body := DocText(d) + after;
    var s1 := SkipGap(lib, [], Invalid, Arr(xs), st, pre, body);
    Levels(st, s1, body, GapKinds(pre), 0);
    DelimitedBy(d, post, end);
    var s2 := ReadDoc(lib, [], Arr(xs), s1, d, after);
    assert ValueKinds(lib, [], Arr(xs), d) == DocKinds(lib, d);
    Levels(s1, s2, after, DocKinds(lib, d), Containers(d));
    s := SkipGap(lib, [], DocValue(lib, d), Arr(xs), s2, post, end);
    Follow(st, s1, s2, body, after, GapKinds(pre), DocKinds(lib, d), 0, Containers(d));
    Follow(st, s2, s, after, end, GapKinds(pre) + DocKinds(lib, d), GapKinds(post), Containers(d), 0);
  }

  function MembersEnd(rest: Members, tail: Text): (end: Text)
    ensures end != [] && (end[0] == COMMA || end[0] == RBRACE)
  {
    if rest == NoMembers then [RBRACE] + tail else [COMMA] + (MembersText(rest) + [RBRACE] + tail)
  }

  lemma Regroup(a: Text, b: Text, c: Text)
    ensures a + b + c == a + (b + c)
  {
  }

  lemma MembersSplit(ms: Members, tail: Text)
    requires ms.Member?
    ensures MembersText(ms) + [RBRACE] + tail
      == GapText(ms.pre) + (LiteralText(ms.name) + (GapText(ms.mid) + ([COLON]
         + (GapText(ms.gap) + (DocText(ms.doc) + (GapText(ms.post) + MembersEnd(ms.rest, tail)))))))
  {
    hide LiteralText, DocText, GapText;
    var x := if ms.rest == NoMembers then [] else [COMMA] + MembersText(ms.rest);
    MembersEndIs(ms.rest, tail);
    MembersRegroup(GapText(ms.pre), LiteralText(ms.name), GapText(ms.mid), GapText(ms.gap), DocText(ms.doc), GapText(ms.post),
      x, [RBRACE], tail);
  }

  lemma MembersEndIs(rest: Members, tail: Text)
    ensures (if rest == NoMembers then [] else [COMMA] + MembersText(rest)) + [RBRACE] + tail == MembersEnd(rest, tail)
  {
    hide MembersText;
    if rest == NoMembers {
      assert [] + [RBRACE] + tail == [RBRACE] + tail;
    } else {
      Regroup([COMMA], MembersText(rest), [RBRACE]);
      Regroup([COMMA], MembersText(rest) + [RBRACE], tail);
    }
  }

  lemma MembersRegroup(a: Text, b: Text, c: Text, e: Text, f: Text, g: Text, x: Text, y: Text, z: Text)
    ensures a + b + c + [COLON] + e + f + g + x + y + z == a + (b + (c + ([COLON] + (e + (f + (g + (x + y + z)))))))
  {
    hide *;
    var p := a + b + c + [COLON] + e + f;
    Regroup(p + g, x, y);
    Regroup(p + g, x + y, z);
    Regroup(p, g, x + y + z);
    Regroup(a + b + c + [COLON] + e, f, g + (x + y + z));
    Regroup(a + b + c + [COLON], e, f + (g + (x + y + z)));
    Regroup(a + b + c, [COLON], e + (f + (g + (x + y + z))));
    Regroup(a + b, c, [COLON] + (e + (f + (g + (x + y + z)))));
    Regroup(a, b, c + ([COLON] + (e + (f + (g + (x + y + z))))));
  }

  /** The diagnostics of a member up to its comma or the end of its object. */
  function BeforeKinds(lib: Lib, ms: Members, key: Text, m: map<Text, JValue>): seq<Kind>
    requires ms.Member?
  {
    NameKinds(ms.pre, ms.name, ms.mid, ms.gap) + (ValueKinds(lib, key, Obj(m), ms.doc) + GapKinds(ms.post))
  }

  /** The diagnostics of one member. */
  function OneMemberKinds(lib: Lib, ms: Members): seq<Kind>
    requires ms.Member?
  {
    var empty := IsEmptyName(lib, ms.name);
    NameKinds(ms.pre, ms.name, ms.mid, ms.gap)
    + ((if empty then OpenKinds(ms.doc) else []) + DocKinds(lib, ms.doc) + GapKinds(ms.post))
    + if empty then [KeyMissing] else []
  }

  lemma OneMember(lib: Lib, ms: Members, m: map<Text, JValue>)
    requires ms.Member? && LiteralOk(lib, ms.name)
    ensures var k := LiteralBytes(lib, ms.name);
      BeforeKinds(lib, ms, k, m) + (if k == [] then [KeyMissing] else []) == OneMemberKinds(lib, ms)
    ensures MemberKinds(lib, ms) == OneMemberKinds(lib, ms) + MemberKinds(lib, ms.rest)
    ensures ms.rest == NoMembers ==> MemberKinds(lib, ms) == OneMemberKinds(lib, ms)
  {
    hide GapKinds, LiteralKinds, DocKinds, NameKinds;
  }

  /** What follows a member once its comma or the end of its object has been read. */
  function AfterMember(rest: Members, tail: Text): Text {
    if rest == NoMembers then tail else MembersText(rest) + [RBRACE] + tail
  }

  ghost function WithMember(lib: Lib, ms: Members, m: map<Text, JValue>): map<Text, JValue>
    requires ms.Member? && MembersOk(lib, ms)
  {
    var k := LiteralBytes(lib, ms.name);
    if k == [] then m else m[k := Cloned(DocValue(lib, ms.doc))]
  }

  lemma {:induction false} ReadMembers(lib: Lib, m: map<Text, JValue>, st: St, members: Members, tail: Text)
      returns (s: St)
    requires MembersOk(lib, members) && st.rest == MembersText(members) + [RBRACE] + tail && st.depth >= st.level
    ensures Reached(st, s, tail, MemberKinds(lib, members), MemberContainers(members))
    ensures Loop(lib, 0, [], Invalid, Obj(m), st)
      == Done(Next(tail).0, s.(rest := Next(tail).1), Obj(MemberValues(lib, members, m)))
    decreases members, 2
  {
    hide Loop, Reached, OneMemberKinds, LiteralOk, DocOk, Blank, DocText, LiteralText, DocValue, LiteralBytes, LiteralKinds,
      Containers, GapOk, GapText, GapKinds;
    if members == NoMembers {
      assert st.rest == [RBRACE] + tail;
      StepCloseObject(lib, [], Invalid, m, st, tail);
      s := st.(rest := tail);
      Unchanged(st, tail);
    } else {
      var d, rest, kinds := members.doc, members.rest, OneMemberKinds(lib, members);
      s := TakeMember(lib, m, st, members, tail);
      OneMember(lib, members, m);
      if rest != NoMembers {
        var s2, r := s, AfterMember(rest, tail);
        Levels(st, s2, r, kinds, Containers(d));
        s := ReadMembers(lib, WithMember(lib, members, m), s2, rest, tail);
        assert s2.(rest := r) == s2;
        Chain(st, s2, s, r, tail, kinds, MemberKinds(lib, rest), Containers(d), MemberContainers(rest), r);
      }
    }
  }

  lemma {:induction false} TakeMember(lib: Lib, m: map<Text, JValue>, st: St, ms: Members, tail: Text)
      returns (s: St)
    requires ms.Member? && MembersOk(lib, ms)
    requires st.rest == MembersText(ms) + [RBRACE] + tail && st.depth >= st.level
    ensures Reached(st, s, AfterMember(ms.rest, tail), OneMemberKinds(lib, ms), Containers(ms.doc))
    ensures Loop(lib, 0, [], Invalid, Obj(m), st)
      == if ms.rest == NoMembers then Done(Next(tail).0, s.(rest := Next(tail).1), Obj(WithMember(lib, ms, m)))
         else Loop(lib, 0, [], Invalid, Obj(WithMember(lib, ms, m)), s)
    decreases ms, 1
  {
    hide Loop, Reached, OneMemberKinds, BeforeKinds, GapOk, GapText, GapKinds, ValueKinds, StoreValue, LiteralOk, DocOk, Blank, DocValue, LiteralBytes, DocText,
      LiteralText, LiteralKinds, Containers, IsContainer;
    var end := MembersEnd(ms.rest, tail);
    var s1 := ReadMember(lib, m, st, ms, tail);
    var k, v := LiteralBytes(lib, ms.name), DocValue(lib, ms.doc);
    var before := BeforeKinds(lib, ms, k, m);
    Levels(st, s1, end, before, Containers(ms.doc));
    var after := AfterMember(ms.rest, tail);
    s := StoreMember(lib, k, v, m, s1, ms.rest == NoMembers, after);
    assert s1.(rest := end) == s1;
    Chain(st, s1, s, end, after, before, if k == [] then [KeyMissing] else [], Containers(ms.doc), 0, end);
    OneMember(lib, ms, m);
  }

  /** A member is stored, or dropped for its empty name, at the comma or at the end of its object. */
  lemma StoreMember(lib: Lib, k: Text, v: JValue, m: map<Text, JValue>, st: St, last: bool, r: Text) returns (s: St)
    requires v.IsValid() && st.depth >= st.level && st.rest == [if last then RBRACE else COMMA] + r
    ensures s == if k == [] then Note(st.(rest := r), KeyMissing) else st.(rest := r)
    ensures Reached(st, s, r, if k == [] then [KeyMissing] else [], 0)
    ensures var m1 := if k == [] then m else m[k := Cloned(v)];
      Loop(lib, 0, k, v, Obj(m), st)
      == if last then Done(Next(r).0, s.(rest := Next(r).1), Obj(m1)) else Loop(lib, 0, [], Invalid, Obj(m1), s)
  {
    hide Loop;
    s := if k == [] then Note(st.(rest := r), KeyMissing) else st.(rest := r);
    Unchanged(st, r);
    Noted(st, r, KeyMissing, r);
    if last {
      StepCloseObject(lib, k, v, m, st, r);
    } else {
      StepComma(lib, k, v, Obj(m), st, r);
    }
  }

  lemma {:induction false} ReadMember(lib: Lib, m: map<Text, JValue>, st: St, ms: Members, tail: Text) returns (s: St)
    requires ms.Member? && MembersOk(lib, ms)
    requires st.rest == MembersText(ms) + [RBRACE] + tail && st.depth >= st.level
    ensures var k := LiteralBytes(lib, ms.name);
      && Reached(st, s, MembersEnd(ms.rest, tail), BeforeKinds(lib, ms, k, m), Containers(ms.doc))
      && Loop(lib, 0, [], Invalid, Obj(m), st) == Loop(lib, 0, k, DocValue(lib, ms.doc), Obj(m), s)
    decreases ms, 0
  {
    hide Loop, Reached, GapText, GapOk, GapKinds, NameKinds, ValueKinds, DocText, LiteralText, Containers;
    MembersSplit(ms, tail);
    var end := MembersEnd(ms.rest, tail);
    var after := GapText(ms.post) + end;
    var more := DocText(ms.doc) + after;
    var k, v := LiteralBytes(lib, ms.name), DocValue(lib, ms.doc);
    var naming, kinds := NameKinds(ms.pre, ms.name, ms.mid, ms.gap), ValueKinds(lib, k, Obj(m), ms.doc);
    var s1 := ReadName(lib, m, st, ms.pre, ms.name, ms.mid, ms.gap, more);
    Levels(st, s1, more, naming, 0);
    DelimitedBy(ms.doc, ms.post, end);
    var s2 := ReadDoc(lib, k, Obj(m), s1, ms.doc, after);
    Levels(s1, s2, after, kinds, Containers(ms.doc));
    s := SkipGap(lib, k, v, Obj(m), s2, ms.post, end);
    Follow(s1, s2, s, after, end, kinds, GapKinds(ms.post), Containers(ms.doc), 0);
    Follow(st, s1, s, more, end, naming, kinds + GapKinds(ms.post), 0, Containers(ms.doc));
  }

  /** A name, its colon, and what stands around them. */
  lemma ReadName(lib: Lib, m: map<Text, JValue>, st: St, pre: Gap, name: Literal, mid: Gap, gap: Gap, more: Text)
      returns (s: St)
    requires GapOk(pre) && LiteralOk(lib, name) && GapOk(mid) && GapOk(gap) && st.depth >= st.level
    requires st.rest == GapText(pre) + (LiteralText(name) + (GapText(mid) + ([COLON] + (GapText(gap) + more))))
    ensures Reached(st, s, more, NameKinds(pre, name, mid, gap), 0)
    ensures Loop(lib, 0, [], Invalid, Obj(m), st) == Loop(lib, 0, LiteralBytes(lib, name), Invalid, Obj(m), s)
  {
    hide Loop, Reached, GapText, GapOk, GapKinds, LiteralText, LiteralKinds, LiteralOk, LiteralBytes;
    var k := LiteralBytes(lib, name);
    var r3 := GapText(gap) + more;
    var r2 := [COLON] + r3;
    var r1 := GapText(mid) + r2;
    var r0 := LiteralText(name) + r1;
    var k0, k1, k2, k3 := GapKinds(pre), LiteralKinds(name), GapKinds(mid), GapKinds(gap);
    var s0 := SkipGap(lib, [], Invalid, Obj(m), st, pre, r0);
    Levels(st, s0, r0, k0, 0);
    var s1 := ReadLiteral(lib, [], Obj(m), s0, name, r1);
    Levels(s0, s1, r1, k1, 0);
    Follow(st, s0, s1, r0, r1, k0, k1, 0, 0);
    var s2 := SkipGap(lib, [], Str(k), Obj(m), s1, mid, r2);
    Levels(s1, s2, r2, k2, 0);
    Follow(st, s1, s2, r1, r2, k0 + k1, k2, 0, 0);
    StepColon(lib, k, m, s2, r3);
    s := SkipGap(lib, k, Invalid, Obj(m), s2.(rest := r3), gap, more);
    Chain(st, s2, s, r2, more, k0 + k1 + k2, k3, 0, 0, r3);
  }
}
