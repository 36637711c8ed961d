/** When the reader terminates. */
module Termination {
  import opened Bytes
  import opened Decimal
  import opened JsonValue
  import opened ReaderSpec

  predicate Clean(r: Text) {
    BACKSPACE !in r
  }

  lemma NextClean(r: Text)
    requires Clean(r)
    ensures Next(r).0 != BACKSPACE && Clean(Next(r).1) && Peek(r) != BACKSPACE
  {
  }

  lemma {:induction false} SkipWhiteClean(r: Text)
    requires Clean(r)
    ensures SkipWhite(r).0 != BACKSPACE && Clean(SkipWhite(r).1)
    decreases |r|
  {
    NextClean(r);
    var n := Next(r);
    if n.0 == SPACE || n.0 == LF || n.0 == TAB { SkipWhiteClean(n.1); }
  }

  lemma {:induction false} LineCommentClean(ch: int, r: Text)
    requires Clean(r) && ch != BACKSPACE && -1 <= ch < 256
    ensures LineComment(ch, r).0 != BACKSPACE && Clean(LineComment(ch, r).1)
    decreases |r|, if ch < 0 then 0 else 1
  {
    NextClean(r);
    if !(ch < 0 || ch == LF || ch == CR) { LineCommentClean(Next(r).0, Next(r).1); }
  }

  lemma {:induction false} BlockCommentClean(ch: int, r: Text)
    requires Clean(r) && ch != BACKSPACE && -1 <= ch < 256
    ensures BlockComment(ch, r).0 != BACKSPACE && Clean(BlockComment(ch, r).1)
    decreases |r|, if ch < 0 then 0 else 1
  {
    NextClean(r);
    var n := Next(r);
    NextClean(n.1);
    if ch >= 0 && !(ch == STAR && Peek(r) == SLASH) { BlockCommentClean(n.0, n.1); }
  }

  lemma {:induction false} StrangeTextClean(r: Text)
    requires Clean(r)
    ensures Clean(StrangeText(r).1)
    decreases |r|
  {
    NextClean(r);
    var n := Next(r);
    if !(n.0 < 0 || n.0 == LF || (n.0 == STAR && Peek(n.1) == SLASH)) { StrangeTextClean(n.1); }
  }

  lemma SkipCommentClean(st: St)
    requires Clean(st.rest)
    ensures SkipComment(st).0 != BACKSPACE && Clean(SkipComment(st).1.rest)
  {
    NextClean(st.rest);
    var n := Next(st.rest);
    if n.0 == SLASH { LineCommentClean(n.0, n.1); }
    else if n.0 == STAR { BlockCommentClean(n.0, n.1); }
    else if n.0 >= 0 {
      StrangeTextClean(n.1);
      NextClean(StrangeText(n.1).1);
    }
  }

  lemma {:induction false} ReadUesClean(r: Text, n: nat)
    requires Clean(r) && n <= 4
    ensures Clean(ReadUes(r, n).1)
  {
    NextClean(r);
    if n > 0 && Next(r).0 >= 0 { ReadUesClean(Next(r).1, n - 1); }
  }

  lemma EscapeClean(lib: Lib, st: St, buf: Text)
    requires Clean(st.rest)
    ensures Clean(Escape(lib, st, buf).1.rest)
  {
    NextClean(st.rest);
    ReadUesClean(Next(st.rest).1, 4);
  }

  lemma {:induction false} StringBodyClean(lib: Lib, st: St, buf: Text)
    requires Clean(st.rest)
    ensures Clean(StringBody(lib, st, buf).st.rest)
    decreases |st.rest|
  {
    NextClean(st.rest);
    var n := ReadChar(st);
    if n.0 == BACKSLASH {
      EscapeClean(lib, n.1, buf);
      var e := Escape(lib, n.1, buf);
      if e.0 >= 0 { StringBodyClean(lib, e.1, e.2); }
    } else if n.0 >= 0 && n.0 != QUOTE {
      StringBodyClean(lib, n.1, buf + [n.0]);
    }
  }

  lemma ReadStringClean(lib: Lib, st: St, val: JValue)
    requires Clean(st.rest)
    ensures ReadString(lib, st, val).0 != BACKSPACE && Clean(ReadString(lib, st, val).1.rest)
  {
    StringBodyClean(lib, st, []);
    NextClean(StringBody(lib, st, []).st.rest);
  }

  lemma {:induction false} ReadTokenClean(ch: int, r: Text, s: Text)
    requires Clean(r) && ch != BACKSPACE && -1 <= ch < 256
    ensures ReadToken(ch, r, s).0 != BACKSPACE && Clean(ReadToken(ch, r, s).1)
    decreases |r|, if ch < 0 then 0 else 1
  {
    NextClean(r);
    if !(ch < 0 || EndsToken(ch)) { ReadTokenClean(Next(r).0, Next(r).1, s + [ch]); }
  }

  lemma {:induction false} BuffBodyClean(r: Text, buf: Text, errors: nat)
    requires Clean(r)
    ensures Clean(BuffBody(r, buf, errors).1)
    decreases |r|
  {
    NextClean(r);
    var a := Next(r);
    if a.0 >= 0 && a.0 != APOSTROPHE {
      NextClean(a.1);
      var b := Next(a.1);
      if b.0 >= 0 {
        if BuffDigit(a.0) > 15 || BuffDigit(b.0) > 15 { BuffBodyClean(b.1, buf, errors + 1); }
        else { BuffBodyClean(b.1, buf + [BuffDigit(a.0) * 16 + BuffDigit(b.0)], errors); }
      }
    }
  }

  lemma ReadMemoryBuffClean(st: St, val: JValue)
    requires Clean(st.rest)
    ensures ReadMemoryBuff(st, val).0 != BACKSPACE && Clean(ReadMemoryBuff(st, val).1.rest)
  {
    BuffBodyClean(st.rest, [], 0);
    NextClean(BuffBody(st.rest, [], 0).1);
  }

  lemma TurnClean(lib: Lib, ch: int, key: Text, value: JValue, parent: JValue, st: St)
    requires IsContainer(parent) && 0 < ch < 256 && ch != LBRACE && ch != LBRACKET && ch != BACKSPACE && Clean(st.rest)
    ensures var m := Turn(lib, ch, key, value, parent, st);
      if m.Go? then m.ch != BACKSPACE && Clean(m.st.rest)
      else m.result.Done? && m.result.ch != BACKSPACE && Clean(m.result.st.rest)
  {
    hide SkipWhite, SkipComment, ReadString, ReadMemoryBuff, ReadToken, StoreValue, AddColon, Next;
    NextClean(st.rest);
    SkipWhiteClean(st.rest);
    SkipCommentClean(st);
    ReadStringClean(lib, st, value);
    ReadMemoryBuffClean(st, value);
    ReadTokenClean(ch, st.rest, []);
  }

  lemma {:induction false} DoReadEnds(lib: Lib, parent: JValue, st: St)
    requires IsContainer(parent) && Clean(st.rest)
    ensures var r := DoRead(lib, parent, st); r.Done? && Clean(r.st.rest) && r.ch != BACKSPACE
    decreases |st.rest|, 2
  {
    LoopEnds(lib, 0, [], Invalid, parent, Enter(st));
  }

  lemma {:induction false} LoopEnds(lib: Lib, ch: int, key: Text, value: JValue, parent: JValue, st: St)
    requires IsContainer(parent) && -1 <= ch < 256 && ch != BACKSPACE && Clean(st.rest)
    ensures var r := Loop(lib, ch, key, value, parent, st); r.Done? && Clean(r.st.rest) && r.ch != BACKSPACE
    decreases |st.rest|, if ch < 0 then 0 else if ch == 0 then 1 else 3
  {
    hide Turn, Loop, StoreValue, NoteOpen;
    if ch < 0 {
      LoopStops(lib, ch, key, value, parent, st);
    } else if ch == 0 {
      LoopReads(lib, key, value, parent, st);
      NextClean(st.rest);
      var n := ReadChar(st);
      LoopEnds(lib, n.0, key, value, parent, n.1);
    } else if ch == LBRACE || ch == LBRACKET {
      LoopOpens(lib, ch, key, value, parent, st);
      var p, s := if ch == LBRACE then ToObject(value) else ToArray(value), NoteOpen(key, value, parent, st);
      DoReadEnds(lib, p, s);
      var inner := DoRead(lib, p, s);
      LoopEnds(lib, inner.ch, key, inner.v, parent, inner.st);
    } else {
      LoopTurns(lib, ch, key, value, parent, st);
      TurnClean(lib, ch, key, value, parent, st);
      var m := Turn(lib, ch, key, value, parent, st);
      if m.Go? {
        LoopEnds(lib, m.ch, m.key, m.value, m.parent, m.st);
      }
    }
  }

  lemma {:induction false} GetStartClean(ch: int, st: St)
    requires -1 <= ch < 256 && Clean(st.rest)
    ensures Clean(GetStart(ch, st).1.rest)
    decreases |st.rest|, if ch < 0 then 0 else 1
  {
    if ch >= 0 && ch != LBRACE && ch != LBRACKET {
      NextClean(st.rest);
      SkipCommentClean(st);
      var n := if ch == SLASH then SkipComment(st) else ReadChar(st);
      GetStartClean(n.0, n.1);
    }
  }

  /** Parse returns on every input without a raw backspace. */
  lemma ParseEnds(lib: Lib, input: Text, v0: JValue)
    requires Clean(input)
    ensures Parse(lib, input, v0).Done?
  {
    var st := St(input, [], 0, 0);
    GetStartClean(0, st);
    var g := GetStart(0, st);
    if g.0 == LBRACE { DoReadEnds(lib, ToObject(v0), g.1); }
    else if g.0 == LBRACKET { DoReadEnds(lib, ToArray(v0), g.1); }
  }

  /** A backspace where a value may start keeps Parse from returning, in an array and in an object. */
  lemma BackspaceHangs(lib: Lib, tail: Text, v0: JValue)
    ensures Parse(lib, [LBRACKET, BACKSPACE] + tail, v0) == Hang
    ensures Parse(lib, [LBRACE, BACKSPACE] + tail, v0) == Hang
  {
    forall open | open == LBRACKET || open == LBRACE
      ensures Parse(lib, [open, BACKSPACE] + tail, v0) == Hang
    {
      var input := [open, BACKSPACE] + tail;
      var st := St(input, [], 0, 0);
      var s := st.(rest := input[1..]);
      assert GetStart(0, st) == GetStart(open, s);
      var t := St(input[1..][1..], [], 1, 1);
      var p := if open == LBRACE then ToObject(v0) else ToArray(v0);
      assert Loop(lib, BACKSPACE, [], Invalid, p, t) == Hang;
      assert Loop(lib, 0, [], Invalid, p, St(input[1..], [], 1, 1)) == Loop(lib, BACKSPACE, [], Invalid, p, t);
    }
  }
}
