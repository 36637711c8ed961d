/** Four short texts, each with what Parse makes of it. */
module Instances {
  import opened Bytes
  import opened Decimal
  import opened JsonValue
  import opened ReaderSpec
  import opened Grammar
  import opened Completeness
  import opened Rfc8259
  import opened RoundTrip
  import opened WriterSpec
  import opened Comments
  import opened Tokens

  const NONE := Blanks([])

  /** An array of one word or number, with something in front of it. */
  function One(pre: Gap, d: Doc): Doc {
    DArray(NONE, Item(pre, d, NONE, NoItems))
  }

  lemma ReadOne(lib: Lib, pre: Gap, d: Doc) returns (ch: int, s: St)
    requires GapOk(pre) && DocOk(lib, d) && (d.DWord? || d.DNumber?)
    ensures Parse(lib, [LBRACKET] + GapText(pre) + d.text + [RBRACKET], Invalid) == Done(ch, s, Arr([Cloned(DocValue(lib, d))]))
    ensures Kinds(s.log) == GapKinds(pre) + DocKinds(lib, d)
  {
    var a := One(pre, d);
    OneText(pre, d);
    OneIsRead(lib, pre, d);
    hide Parse, DocText, DocOk, DocValue, DocKinds, GapText, GapKinds, GapOk, Containers;
    NoText();
    ch, s := ParseDocument(lib, NONE, a, [], Invalid);
    assert [] + DocText(a) + [] == DocText(a);
    assert [] + DocKinds(lib, a) == DocKinds(lib, a);
  }

  lemma NoText()
    ensures GapText(NONE) == [] && GapKinds(NONE) == [] && GapOk(NONE) && LeadOk(NONE)
  {
  }

  lemma OneText(pre: Gap, d: Doc)
    requires d.DWord? || d.DNumber?
    ensures DocText(One(pre, d)) == [LBRACKET] + GapText(pre) + d.text + [RBRACKET]
  {
    NoText();
    assert DocText(d) == d.text;
    assert ItemsText(NoItems) == [];
    hide GapText;
    assert ItemsText(Item(pre, d, NONE, NoItems)) == GapText(pre) + d.text + [] + [];
    assert [LBRACKET] + [] + (GapText(pre) + d.text + [] + []) + [RBRACKET] == [LBRACKET] + GapText(pre) + d.text + [RBRACKET];
  }

  lemma OneIsRead(lib: Lib, pre: Gap, d: Doc)
    requires GapOk(pre) && DocOk(lib, d) && (d.DWord? || d.DNumber?)
    ensures DocOk(lib, One(pre, d)) && DocValue(lib, One(pre, d)) == Arr([Cloned(DocValue(lib, d))])
    ensures DocKinds(lib, One(pre, d)) == GapKinds(pre) + DocKinds(lib, d)
  {
    NoText();
    var rest := NoItems;
    var items := Item(pre, d, NONE, rest);
    hide GapOk, GapKinds;
    assert ItemsOk(lib, rest) && ItemValues(lib, rest) == [] && ItemKinds(lib, rest) == [];
    assert ItemsOk(lib, items);
    assert ItemValues(lib, items) == [Cloned(DocValue(lib, d))] + [];
    assert ItemKinds(lib, items) == GapKinds(pre) + DocKinds(lib, d) + [] + [];
    assert DocKinds(lib, One(pre, d)) == [] + ItemKinds(lib, items);
  }

  /** [TRUE] */
  const SHOUTED: Text := [91, 84, 82, 85, 69, 93]

  lemma ShoutedIsTrue(lib: Lib) returns (ch: int, s: St)
    ensures Parse(lib, SHOUTED, Invalid) == Done(ch, s, Arr([Bool(true)])) && Kinds(s.log) == [LiteralCase]
  {
    var t: Text := [84, 82, 85, 69];
    var d := DWord(t);
    assert Spells(t, "true");
    OneWord(t);
    assert HasCapital(t) by { assert t[0] == 84; }
    NoText();
    assert [LBRACKET] + [] + t + [RBRACKET] == SHOUTED;
    hide Parse, Spells, HasCapital;
    ch, s := ReadOne(lib, NONE, d);
  }

  lemma OneDigit()
    ensures Digits(1) == [49] && Digits(11) == [49, 49]
  {
    assert Digits(1) == [49];
  }

  /** [, a comment with the letter a, 1, ] */
  const REMARKED: Text := [91, 47, 42, 97, 42, 47, 49, 93]

  lemma CommentIsPassed(lib: Lib) returns (ch: int, s: St)
    ensures Parse(lib, REMARKED, Invalid) == Done(ch, s, Arr([Int(1)])) && Kinds(s.log) == [CommentFound]
  {
    var c := Block([97]);
    var pre, d := Commented([], c, NONE), DNumber([49]);
    OneDigit();
    IntReadsBack(lib, 1);
    assert CommentOk(c) by { assert [STAR] + [97] + [STAR, SLASH] == [42, 97, 42, 47]; }
    assert CommentText(c) == [47, 42, 97, 42, 47];
    assert GapText(pre) == [] + CommentText(c) + [];
    assert GapKinds(pre) == [CommentFound] + [];
    assert [LBRACKET] + GapText(pre) + [49] + [RBRACKET] == REMARKED;
    hide Parse, Number, NumberOk, CommentOk;
    ch, s := ReadOne(lib, pre, d);
  }

  /** [1, a comment with the letter a, ] */
  const GLUED: Text := [91, 49, 47, 42, 97, 42, 47, 93]

  /** A comment right after a number is part of its token. */
  lemma CommentIsGlued(lib: Lib) returns (ch: int, s: St)
    requires lib.toDouble([49, 47, 42, 97, 42, 47]) == None
    ensures Parse(lib, GLUED, Invalid) == Done(ch, s, Arr([])) && Kinds(s.log) == [BadLiteral]
  {
    var t: Text := [49, 47, 42, 97, 42, 47];
    var r := t + [RBRACKET];
    assert GLUED == [LBRACKET] + r;
    GluedIsNoNumber(lib, t);
    GluedIsNoWord(t);
    assert Delimited([RBRACKET]);
    hide Loop, DoRead, Spells, Number, GetStart, OneToken;
    OpenArray(lib, GLUED, r);
    var s2 := St(r, [], 1, 1);
    BadTokenDropped(lib, [], Arr([]), s2, t, [RBRACKET]);
    var s3 := Note(s2.(rest := Next([RBRACKET]).1), BadLiteral).(rest := [RBRACKET]);
    assert [RBRACKET] + [] == [RBRACKET];
    StepCloseArray(lib, Invalid, [], s3, []);
    ch, s := 0, s3.(rest := []);
  }

  /** The reader behind the bracket that opens a text. */
  lemma OpenArray(lib: Lib, text: Text, r: Text)
    requires text == [LBRACKET] + r
    ensures Parse(lib, text, Invalid) == Loop(lib, 0, [], Invalid, Arr([]), St(r, [], 1, 1))
  {
    hide Loop, GetStart, DoRead;
    var st := St(text, [], 0, 0);
    StartOpens(st, LBRACKET, r);
    EnterLoop(lib, Arr([]), st.(rest := r));
  }

  lemma GluedIsNoWord(t: Text)
    requires t == [49, 47, 42, 97, 42, 47]
    ensures !Spells(t, "true") && !Spells(t, "false") && !Spells(t, "null") && OneToken(t) && StartsToken(t[0])
  {
  }

  lemma GluedIsNoNumber(lib: Lib, t: Text)
    requires t == [49, 47, 42, 97, 42, 47] && lib.toDouble(t) == None
    ensures Number(lib, 49, t) == None
  {
    assert t[1] == 47;
    assert !AllDigits(Unsigned(t));
  }

  /** [//, a carriage return, 1, ] */
  const LONE_CR: Text := [91, 47, 47, 13, 49, 93]

  /** After a line that ends in a carriage return alone the next character is read twice: this is an array of 11. */
  lemma ElevenForOne(lib: Lib) returns (ch: int, s: St)
    ensures Parse(lib, LONE_CR, Invalid) == Done(ch, s, Arr([Int(11)])) && Kinds(s.log) == [CommentFound]
  {
    var st := St([47, 13, 49, 93], [], 1, 1);
    hide Loop, Parse, Turn;
    PastTheReturn(lib, st);
    s := Remarked(st, []);
    ch := 0;
    ReadTwo(lib, Remarked(st, [49, 93]));
  }

  lemma PastTheReturn(lib: Lib, st: St)
    requires st == St([47, 13, 49, 93], [], 1, 1)
    ensures Parse(lib, LONE_CR, Invalid) == Loop(lib, 49, [], Invalid, Arr([]), Remarked(st, [49, 93]))
  {
    hide Loop, Turn, Parse, Remarked;
    var r: Text := [47, 47, 13, 49, 93];
    assert LONE_CR == [LBRACKET] + r && r == [SLASH] + st.rest;
    OpenArray(lib, LONE_CR, r);
    StepTurn(lib, [], Invalid, Arr([]), St(r, [], 1, 1), SLASH, st.rest);
    CrTurn(lib, st);
  }

  lemma ReadTwo(lib: Lib, st: St)
    requires st.rest == [49, 93]
    ensures Loop(lib, 49, [], Invalid, Arr([]), st) == Done(0, st.(rest := []), Arr([Int(11)]))
  {
    OneDigit();
    IntReadsBack(lib, 11);
    hide Loop, Turn, Number, NumberOk, Digits;
    LoopTurns(lib, 49, [], Invalid, Arr([]), st);
    TwiceOne(lib, st);
    var t := st.(rest := [RBRACKET]);
    GoRead(lib, [], Int(11), Arr([]), t);
    assert [RBRACKET] + [] == [RBRACKET];
    StepCloseArray(lib, Int(11), [], t, []);
    assert [] + [Int(11)] == [Int(11)];
  }

  lemma CrTurn(lib: Lib, st: St)
    requires st.rest == [47, 13, 49, 93]
    ensures Turn(lib, SLASH, [], Invalid, Arr([]), st) == Go(49, [], Invalid, Arr([]), Remarked(st, [49, 93]))
  {
    assert st.rest == [SLASH] + [] + [CR] + [49, 93];
    LoneCr(st, [], [49, 93]);
    hide SkipComment;
  }

  lemma TwiceOne(lib: Lib, st: St)
    requires st.rest == [49, 93] && Digits(11) == [49, 49]
    requires var t := IntOut(11); NumberOk(lib, t) && Number(lib, t[0], t) == Some(Int(11))
    ensures Turn(lib, 49, [], Invalid, Arr([]), st)
      == Go(Next([RBRACKET]).0, [], Int(11), Arr([]), st.(rest := Next([RBRACKET]).1))
  {
    assert IntOut(11) == [49, 49];
    hide *;
    ElevenToken(st.rest);
    ElevenIsNoWord();
    ElevenRead(lib, st);
    DigitTurn(lib, st);
  }

  lemma ElevenToken(r: Text)
    requires r == [49, 93]
    ensures ReadToken(49, r, []) == (Next([RBRACKET]).0, Next([RBRACKET]).1, [49, 49])
  {
    var t: Text := [49, 49];
    assert t[1..] + [RBRACKET] == r && [] + t == t;
    TokenRead(t, [RBRACKET], []);
    hide ReadToken;
  }

  lemma ElevenIsNoWord()
    ensures WordValue([49, 49]) == None
  {
    NumberIsNoWord([49, 49]);
    WordIsRead([49, 49]);
  }

  lemma ElevenRead(lib: Lib, st: St)
    requires ReadToken(49, st.rest, []) == (Next([RBRACKET]).0, Next([RBRACKET]).1, [49, 49])
    requires WordValue([49, 49]) == None && Number(lib, 49, [49, 49]) == Some(Int(11))
    ensures ReadValue(lib, 49, st, Invalid) == (Next([RBRACKET]).0, st.(rest := Next([RBRACKET]).1), Int(11))
  {
    hide ReadToken, WordValue, Number, Next, Lower;
  }

  lemma DigitTurn(lib: Lib, st: St)
    ensures var v := ReadValue(lib, 49, st, Invalid);
      Turn(lib, 49, [], Invalid, Arr([]), st) == Go(v.0, [], v.2, Arr([]), v.1)
  {
    hide ReadValue, SkipWhite, SkipComment, ReadString, ReadMemoryBuff, StoreValue, AddColon;
  }
}
