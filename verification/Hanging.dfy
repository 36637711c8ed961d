/** When parsing does not return. A scanner that keeps no values, only the number of open containers, tells for every
    text whether the reader comes upon a backspace where its loop looks at a character. */
module Hanging {
  import opened Bytes
  import opened Decimal
  import opened JsonValue
  import opened ReaderSpec

  // ----- where strings, buffers, tokens and comments end; each gives the next character and what is left

  /** After the opening quote. */
  function StringEnd(r: Text): (g: (int, Text))
    ensures -1 <= g.0 < 256 && |g.1| <= |r| && (g.0 >= 0 ==> |g.1| < |r|)
    decreases |r|
  {
    var n := Next(r);
    if n.0 < 0 then (-1, n.1)
    else if n.0 == QUOTE then Next(n.1)
    else if n.0 != BACKSLASH then StringEnd(n.1)
    else
      var e := Next(n.1);
      if e.0 < 0 then (-1, e.1)
      else if e.0 != LETTER_U then StringEnd(e.1)
      else
        var q := ReadUes(e.1, 4);
        if |q.0| < 4 then (-1, q.1) else StringEnd(q.1)
  }

  /** After the opening apostrophe. */
  function BufferEnd(r: Text): (g: (int, Text))
    ensures -1 <= g.0 < 256 && |g.1| <= |r| && (g.0 >= 0 ==> |g.1| < |r|)
    decreases |r|
  {
    var a := Next(r);
    if a.0 < 0 then (-1, a.1)
    else if a.0 == APOSTROPHE then Next(a.1)
    else
      var b := Next(a.1);
      if b.0 < 0 then (-1, b.1) else BufferEnd(b.1)
  }

  function TokenEnd(ch: int, r: Text): (g: (int, Text))
    requires -1 <= ch < 256
    ensures -1 <= g.0 < 256 && |g.1| <= |r| && (g.0 >= 0 && !EndsToken(ch) ==> |g.1| < |r|)
    decreases |r|, if ch < 0 then 0 else 1
  {
    if ch < 0 || EndsToken(ch) then (ch, r)
    else
      var n := Next(r);
      TokenEnd(n.0, n.1)
  }

  /** What follows a character that opens, closes and separates nothing that counts. */
  function Past(ch: int, r: Text): (g: (int, Text))
    requires 0 < ch < 256 && !IsBracket(ch) && ch != BACKSPACE
    ensures -1 <= g.0 < 256 && |g.1| <= |r| && (g.0 >= 0 ==> |g.1| < |r|)
  {
    if IsBlank(ch) then SkipWhite(r)
    else if ch == SLASH then
      var g := SkipComment(St(r, [], 0, 0));
      (g.0, g.1.rest)
    else if ch == QUOTE then StringEnd(r)
    else if ch == APOSTROPHE then BufferEnd(r)
    else if ch == COMMA || ch == COLON then Next(r)
    else TokenEnd(ch, r)
  }

  predicate IsBracket(ch: int) {
    ch == LBRACE || ch == LBRACKET || ch == RBRACE || ch == RBRACKET
  }

  /** The scan from `ch` on, with r left and `outer` containers open around the current one, meets a backspace. As in
      the reader, 0 asks for the next character, and only the brace reads on when it closes. */
  predicate Stumbles(ch: int, r: Text, outer: nat)
    requires -1 <= ch < 256
    decreases |r|, if ch < 0 then 0 else if ch == 0 then 1 else 3
  {
    if ch < 0 then false
    else if ch == 0 then
      var n := Next(r);
      Stumbles(n.0, n.1, outer)
    else if ch == BACKSPACE then true
    else if ch == LBRACE || ch == LBRACKET then Stumbles(0, r, outer + 1)
    else if ch == RBRACE then
      var n := Next(r);
      outer > 0 && Stumbles(n.0, n.1, outer - 1)
    else if ch == RBRACKET then outer > 0 && Stumbles(0, r, outer - 1)
    else
      var n := Past(ch, r);
      Stumbles(n.0, n.1, outer)
  }

  // ----- the reader goes where the scanner goes

  lemma {:induction false} StringMoves(lib: Lib, st: St, buf: Text)
    ensures var b := StringBody(lib, st, buf);
      StringEnd(st.rest) == if b.ch < 0 then (-1, b.st.rest) else Next(b.st.rest)
    decreases |st.rest|
  {
    hide SimpleEscape, EscapedBytes;
    var n := ReadChar(st);
    if n.0 == BACKSLASH {
      var e := Escape(lib, n.1, buf);
      if e.0 >= 0 {
        StringMoves(lib, e.1, e.2);
      }
    } else if n.0 >= 0 && n.0 != QUOTE {
      StringMoves(lib, n.1, buf + [n.0]);
    }
  }

  /** Two characters of a buffer. */
  lemma PairStep(r: Text)
    ensures var a := Next(r);
      var b := Next(a.1);
      && -1 <= a.0 < 256 && -1 <= b.0 < 256 && (a.0 >= 0 ==> |b.1| < |r|)
      && BufferEnd(r)
        == if a.0 < 0 then (-1, a.1)
           else if a.0 == APOSTROPHE then Next(a.1)
           else if b.0 < 0 then (-1, b.1)
           else BufferEnd(b.1)
  {
  }

  lemma {:induction false} BufferMoves(r: Text, buf: Text, errors: nat)
    ensures var b := BuffBody(r, buf, errors);
      BufferEnd(r) == if b.0 < 0 then (-1, b.1) else Next(b.1)
    decreases |r|
  {
    hide *;
    BuffStep(r, buf, errors);
    PairStep(r);
    var a := Next(r);
    var b := Next(a.1);
    if a.0 >= 0 && a.0 != APOSTROPHE && b.0 >= 0 {
      if BuffDigit(a.0) > 15 || BuffDigit(b.0) > 15 {
        BufferMoves(b.1, buf, errors + 1);
      } else {
        BufferMoves(b.1, buf + [BuffDigit(a.0) * 16 + BuffDigit(b.0)], errors);
      }
    }
  }

  lemma {:induction false} TokenMoves(ch: int, r: Text, s: Text)
    requires -1 <= ch < 256
    ensures TokenEnd(ch, r) == (ReadToken(ch, r, s).0, ReadToken(ch, r, s).1)
    decreases |r|, if ch < 0 then 0 else 1
  {
    if ch >= 0 && !EndsToken(ch) {
      var n := Next(r);
      TokenMoves(n.0, n.1, s + [ch]);
    }
  }

  lemma ReadStringMoves(lib: Lib, st: St, value: JValue)
    ensures (ReadString(lib, st, value).0, ReadString(lib, st, value).1.rest) == StringEnd(st.rest)
  {
    StringMoves(lib, st, []);
    hide StringBody, StringEnd, Next;
  }

  lemma ReadBufferMoves(st: St, value: JValue)
    ensures (ReadMemoryBuff(st, value).0, ReadMemoryBuff(st, value).1.rest) == BufferEnd(st.rest)
  {
    BufferMoves(st.rest, [], 0);
    hide BuffBody, BufferEnd, Next;
  }

  lemma ReadValueMoves(lib: Lib, ch: int, st: St, value: JValue)
    requires -1 <= ch < 256
    ensures (ReadValue(lib, ch, st, value).0, ReadValue(lib, ch, st, value).1.rest) == TokenEnd(ch, st.rest)
  {
    TokenMoves(ch, st.rest, []);
    hide ReadToken, TokenEnd, AddToken;
  }

  lemma CommentMoves(st: St)
    ensures var g := SkipComment(St(st.rest, [], 0, 0));
      SkipComment(st).0 == g.0 && SkipComment(st).1.rest == g.1.rest
  {
    hide LineComment, BlockComment, StrangeText, Next;
  }

  lemma StoreReadsNothing(ch: int, key: Text, value: JValue, parent: JValue, st: St)
    requires IsContainer(parent)
    ensures StoreValue(ch, key, value, parent, st).1.rest == st.rest
    ensures AddColon(key, value, parent, st).2.rest == st.rest
  {
  }

  /** A turn on anything but a bracket or a backspace goes on past it. */
  lemma TurnMoves(lib: Lib, ch: int, key: Text, value: JValue, parent: JValue, st: St)
    requires IsContainer(parent) && 0 < ch < 256 && !IsBracket(ch) && ch != BACKSPACE
    ensures var m := Turn(lib, ch, key, value, parent, st); m.Go? && (m.ch, m.st.rest) == Past(ch, st.rest)
  {
    hide ReadString, ReadMemoryBuff, ReadValue, StringEnd, BufferEnd, TokenEnd, SkipWhite, SkipComment, StoreValue, AddColon, Next;
    ReadStringMoves(lib, st, value);
    ReadBufferMoves(st, value);
    ReadValueMoves(lib, ch, st, value);
    CommentMoves(st);
    StoreReadsNothing(ch, key, value, parent, st);
  }

  /** A closing bracket returns from the container. */
  lemma TurnCloses(lib: Lib, ch: int, key: Text, value: JValue, parent: JValue, st: St)
    requires IsContainer(parent) && (ch == RBRACE || ch == RBRACKET)
    ensures var m := Turn(lib, ch, key, value, parent, st);
      && m.Stop? && m.result.Done?
      && (m.result.ch, m.result.st.rest) == if ch == RBRACE then Next(st.rest) else (0, st.rest)
  {
    hide Next;
  }

  lemma {:induction false} DoReadStumbles(lib: Lib, parent: JValue, st: St, outer: nat)
    requires IsContainer(parent)
    ensures var o := DoRead(lib, parent, st);
      && (o == Hang ==> Stumbles(0, st.rest, outer))
      && (o.Done? ==> (Stumbles(0, st.rest, outer) <==> outer > 0 && Stumbles(o.ch, o.st.rest, outer - 1)))
    decreases |st.rest|, 2
  {
    EnterLoop(lib, parent, st);
    LoopStumbles(lib, 0, [], Invalid, parent, Enter(st), outer);
  }

  lemma {:induction false} LoopStumbles(lib: Lib, ch: int, key: Text, value: JValue, parent: JValue, st: St, outer: nat)
    requires IsContainer(parent) && -1 <= ch < 256
    ensures var o := Loop(lib, ch, key, value, parent, st);
      && (o == Hang ==> Stumbles(ch, st.rest, outer))
      && (o.Done? ==> (Stumbles(ch, st.rest, outer) <==> outer > 0 && Stumbles(o.ch, o.st.rest, outer - 1)))
    decreases |st.rest|, if ch < 0 then 0 else if ch == 0 then 1 else 3
  {
    hide Turn, Loop, DoRead, StoreValue, NoteOpen, Past, Next, Stumbles;
    ScanStep(ch, st.rest, outer);
    if ch < 0 {
      LoopStops(lib, ch, key, value, parent, st);
      var o := Loop(lib, ch, key, value, parent, st);
      if outer > 0 { ScanStep(o.ch, o.st.rest, outer - 1); }
    } else if ch == 0 {
      LoopReads(lib, key, value, parent, st);
      var n := ReadChar(st);
      LoopStumbles(lib, n.0, key, value, parent, n.1, outer);
    } else if ch == LBRACE || ch == LBRACKET {
      LoopOpens(lib, ch, key, value, parent, st);
      var p, s := if ch == LBRACE then ToObject(value) else ToArray(value), NoteOpen(key, value, parent, st);
      NoteReadsNothing(key, value, parent, st);
      DoReadStumbles(lib, p, s, outer + 1);
      var inner := DoRead(lib, p, s);
      if inner.Done? {
        LoopStumbles(lib, inner.ch, key, inner.v, parent, inner.st, outer);
      }
    } else {
      LoopTurns(lib, ch, key, value, parent, st);
      if ch == BACKSPACE {
        TurnOnBackspace(lib, key, value, parent, st);
      } else if ch == RBRACE || ch == RBRACKET {
        TurnCloses(lib, ch, key, value, parent, st);
      } else {
        TurnMoves(lib, ch, key, value, parent, st);
        var m := Turn(lib, ch, key, value, parent, st);
        LoopStumbles(lib, m.ch, m.key, m.value, m.parent, m.st, outer);
      }
    }
  }

  /** One step of the scan. */
  lemma ScanStep(ch: int, r: Text, outer: nat)
    requires -1 <= ch < 256
    ensures Stumbles(ch, r, outer) ==
      if ch < 0 then false
      else if ch == 0 then Stumbles(Next(r).0, Next(r).1, outer)
      else if ch == BACKSPACE then true
      else if ch == LBRACE || ch == LBRACKET then Stumbles(0, r, outer + 1)
      else if ch == RBRACE then outer > 0 && Stumbles(Next(r).0, Next(r).1, outer - 1)
      else if ch == RBRACKET then outer > 0 && Stumbles(0, r, outer - 1)
      else Stumbles(Past(ch, r).0, Past(ch, r).1, outer)
  {
  }

  lemma NoteReadsNothing(key: Text, value: JValue, parent: JValue, st: St)
    ensures NoteOpen(key, value, parent, st).rest == st.rest
  {
  }

  /** Parse returns on a text exactly when the scan from its opening character meets no backspace. */
  lemma ParseHangsExactly(lib: Lib, input: Text, v0: JValue)
    ensures var g := GetStart(0, St(input, [], 0, 0));
      Parse(lib, input, v0) == Hang <==> g.0 >= 0 && Stumbles(0, g.1.rest, 0)
  {
    hide DoRead, GetStart, Stumbles;
    var g := GetStart(0, St(input, [], 0, 0));
    if g.0 == LBRACE {
      DoReadStumbles(lib, ToObject(v0), g.1, 0);
    } else if g.0 == LBRACKET {
      DoReadStumbles(lib, ToArray(v0), g.1, 0);
    }
  }
}
