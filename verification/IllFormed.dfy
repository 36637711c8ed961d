/** Texts outside of the grammar (apps/jsonreader.cpp): what is stored, what is reported, and what never is. */
module IllFormed {
  import opened Bytes
  import opened Decimal
  import opened JsonValue
  import opened ReaderSpec
  import opened Grammar
  import opened Completeness
  import opened Rfc8259
  import opened RoundTrip
  import opened Comments
  import opened Tokens

  // ----- what is stored

  /** What a comma, a closing character or the end of the input does with the value read so far: an array takes every
      value, an object every value with a name; anything else is dropped, and reported at most once. */
  lemma StoredExactly(ch: int, key: Text, value: JValue, parent: JValue, st: St)
    requires IsContainer(parent) && (parent.Arr? ==> key == [])
    ensures var r, told := StoreValue(ch, key, value, parent, st), Complaint(ch, key, value, parent);
      && (parent.Arr? ==> r.0 == Arr(parent.items + if value == Invalid then [] else [Cloned(value)]))
      && (parent.Obj? ==>
            r.0 == Obj(if value == Invalid || key == [] then parent.members else parent.members[key := Cloned(value)]))
      && r.1 == if told.Some? then Note(st, told.value) else st
  {
    if parent.Arr? && value == Invalid { assert parent.items + [] == parent.items; }
  }

  /** Nothing between two commas, or before the end of the input; a name without a value; a value without a name. */
  function Complaint(ch: int, key: Text, value: JValue, parent: JValue): Option<Kind> {
    if value == Invalid && key == [] && ch != RBRACE && ch != RBRACKET then Some(KeyOrValueMissing)
    else if parent.Obj? && value == Invalid && key != [] then Some(ValueMissing)
    else if parent.Obj? && value != Invalid && key == [] then Some(KeyMissing)
    else None
  }

  /** A colon makes a name of a string exactly in an object that waits for a name; otherwise nothing changes, and one
      diagnostic says why. */
  lemma ColonExactly(key: Text, value: JValue, parent: JValue, st: St)
    requires IsContainer(parent)
    ensures var r := AddColon(key, value, parent, st);
      if parent.Obj? && value.Str? && key == [] then r == (value.s, Invalid, st)
      else r == (key, value, Note(st, if parent.Arr? then ColonOutsideObject
                                      else if !value.Str? then ColonAfterNonString else ColonAfterName))
  {
  }

  /** A container opened in an object without a name is told so, and one opened after a value, too. */
  lemma OpeningExactly(key: Text, value: JValue, parent: JValue, st: St)
    ensures Kinds(NoteOpen(key, value, parent, st).log) == Kinds(st.log)
      + (if parent.Obj? && key == [] then [OpenNameMissing] else []) + (if value == Invalid then [] else [OpenAfterValue])
  {
    assert Kinds(st.log) + [] == Kinds(st.log);
  }

  // ----- the wrong closing character, and none

  /** The value is stored as it would be without the diagnostic k, which comes first. */
  ghost predicate AlsoTold(a: St, b: St, before: St, k: Kind) {
    exists more: seq<Kind> :: More(a, b, before, k, more)
  }

  predicate More(a: St, b: St, before: St, k: Kind, more: seq<Kind>) {
    && Kinds(a.log) == Kinds(before.log) + [k] + more && Kinds(b.log) == Kinds(before.log) + more
    && a.rest == b.rest && a.depth == b.depth && a.level == b.level
  }

  lemma StoredAlike(ch: int, other: int, key: Text, value: JValue, parent: JValue, st: St, k: Kind)
    requires IsContainer(parent) && (parent.Arr? ==> key == [])
    requires (ch == RBRACE || ch == RBRACKET) && (other == RBRACE || other == RBRACKET)
    ensures var a, b := StoreValue(other, key, value, parent, Note(st, k)), StoreValue(ch, key, value, parent, st);
      a.0 == b.0 && AlsoTold(a.1, b.1, st, k)
  {
    StoredExactly(ch, key, value, parent, st);
    StoredExactly(other, key, value, parent, Note(st, k));
    var a, b := StoreValue(other, key, value, parent, Note(st, k)), StoreValue(ch, key, value, parent, st);
    var told := Complaint(ch, key, value, parent);
    var more := if told.Some? then [told.value] else [];
    KindsOfNote(st, k);
    hide StoreValue;
    if told.Some? {
      KindsOfNote(st, told.value);
      KindsOfNote(Note(st, k), told.value);
    } else {
      assert Kinds(st.log) + [] == Kinds(st.log) && Kinds(st.log) + [k] + [] == Kinds(st.log) + [k];
    }
    assert More(a.1, b.1, st, k, more);
  }

  /** Closed by the wrong character a container has the value it has when closed by the right one; the difference is one
      diagnostic, and how much is read. */
  lemma OtherClose(lib: Lib, key: Text, value: JValue, parent: JValue, st: St) returns (right: Move, wrong: Move)
    requires IsContainer(parent) && (parent.Arr? ==> key == [])
    ensures right == Turn(lib, if parent.Obj? then RBRACE else RBRACKET, key, value, parent, st)
    ensures wrong == Turn(lib, if parent.Obj? then RBRACKET else RBRACE, key, value, parent, st)
    ensures right.Stop? && right.result.Done? && wrong.Stop? && wrong.result.Done?
    ensures wrong.result.v == right.result.v
    ensures AlsoTold(wrong.result.st.(rest := []), right.result.st.(rest := []), st, CloseMismatch)
  {
    var a, b := if parent.Obj? then RBRACE else RBRACKET, if parent.Obj? then RBRACKET else RBRACE;
    right, wrong := Turn(lib, a, key, value, parent, st), Turn(lib, b, key, value, parent, st);
    StoredAlike(a, b, key, value, parent, st, CloseMismatch);
    hide StoreValue, AlsoTold;
    var x, y := StoreValue(b, key, value, parent, Note(st, CloseMismatch)), StoreValue(a, key, value, parent, st);
    SameRest(x.1, y.1, st, CloseMismatch);
  }

  lemma SameRest(a: St, b: St, before: St, k: Kind)
    requires AlsoTold(a, b, before, k)
    ensures AlsoTold(a.(rest := []), b.(rest := []), before, k)
  {
    var more :| More(a, b, before, k, more);
    assert More(a.(rest := []), b.(rest := []), before, k, more);
  }

  /** At the end of the input every container that is open is closed as if by its own character, and reported. */
  lemma EndCloses(lib: Lib, key: Text, value: JValue, parent: JValue, st: St)
    requires IsContainer(parent) && (parent.Arr? ==> key == []) && (value != Invalid || key != [])
    ensures var right := Turn(lib, if parent.Obj? then RBRACE else RBRACKET, key, value, parent, st);
      var end := Loop(lib, -1, key, value, parent, st);
      && right.Stop? && right.result.Done? && end.Done? && end.ch == -1 && end.v == right.result.v
      && AlsoTold(end.st.(rest := [], level := 0), right.result.st.(rest := [], level := 0), st, MissingAtEof)
  {
    var ch := if parent.Obj? then RBRACE else RBRACKET;
    LoopStops(lib, -1, key, value, parent, st);
    StoredExactly(-1, key, value, parent, Note(st, MissingAtEof));
    StoredExactly(ch, key, value, parent, Note(st, MissingAtEof));
    StoredAlike(ch, ch, key, value, parent, st, MissingAtEof);
    hide Loop, StoreValue, AlsoTold;
    var x, y := StoreValue(ch, key, value, parent, Note(st, MissingAtEof)), StoreValue(ch, key, value, parent, st);
    SameElse(x.1, y.1, st, MissingAtEof);
  }

  lemma SameElse(a: St, b: St, before: St, k: Kind)
    requires AlsoTold(a, b, before, k)
    ensures AlsoTold(a.(rest := [], level := 0), b.(rest := [], level := 0), before, k)
  {
    var more :| More(a, b, before, k, more);
    assert More(a.(rest := [], level := 0), b.(rest := [], level := 0), before, k, more);
  }

  /** A text that opens no container is reported once, besides its comments, and leaves the value as it was. */
  lemma NothingOpened(lib: Lib, text: Gap, v0: JValue) returns (s: St)
    requires LeadOk(text)
    ensures Parse(lib, GapText(text), v0) == Done(-1, s, v0)
    ensures Kinds(s.log) == GapKinds(text) + [NoStart]
  {
    hide GapText, GapKinds, LeadOk, GetStart, DoRead;
    var st := St(GapText(text), [], 0, 0);
    assert GapText(text) + [] == GapText(text);
    var t := StartGap(st, text, []);
    StartReads(t);
    EmptyStart(t);
    KindsOfNote(t, NoStart);
    s := Note(t, NoStart);
    assert Kinds([]) == [] && Kinds(t.log) == [] + GapKinds(text) == GapKinds(text);
  }

  lemma EmptyStart(st: St)
    requires st.rest == []
    ensures GetStart(0, st) == (-1, st)
  {
    assert st.(rest := []) == st;
    StartReads(st);
  }

  // ----- what is never reported

  /** Arrays never hold a name. */
  predicate Nameless(key: Text, parent: JValue) {
    parent.Arr? ==> key == []
  }

  /** Of the diagnostics of the reader, these two are raised by no text. */
  predicate NeverTold(log: seq<Event>) {
    forall i :: 0 <= i < |log| ==> log[i].kind != ItemMissing && log[i].kind != KeyInArray
  }

  lemma {:induction false} BodyTells(lib: Lib, st: St, buf: Text)
    requires NeverTold(st.log)
    ensures NeverTold(StringBody(lib, st, buf).st.log)
    decreases |st.rest|
  {
    hide EscapedBytes, SimpleEscape;
    var n := ReadChar(st);
    if n.0 == BACKSLASH {
      var e := Escape(lib, n.1, buf);
      if e.0 >= 0 { BodyTells(lib, e.1, e.2); }
    } else if n.0 != QUOTE && n.0 >= 0 {
      BodyTells(lib, n.1, buf + [n.0]);
    }
  }

  lemma StoreTells(ch: int, key: Text, value: JValue, parent: JValue, st: St)
    requires IsContainer(parent) && Nameless(key, parent) && NeverTold(st.log)
    ensures NeverTold(StoreValue(ch, key, value, parent, st).1.log)
  {
  }

  lemma StringTells(lib: Lib, st: St, value: JValue)
    requires NeverTold(st.log)
    ensures NeverTold(ReadString(lib, st, value).1.log)
  {
    BodyTells(lib, st, []);
    hide StringBody, Next;
  }

  lemma BufferTells(st: St, value: JValue)
    requires NeverTold(st.log)
    ensures NeverTold(ReadMemoryBuff(st, value).1.log)
  {
    hide BuffBody, Next;
  }

  lemma TokenTells(lib: Lib, ch: int, st: St, value: JValue)
    requires -1 <= ch < 256 && NeverTold(st.log)
    ensures NeverTold(ReadValue(lib, ch, st, value).1.log)
  {
    hide ReadToken, Number, WordValue, Lower;
  }

  lemma CommentTells(st: St)
    requires NeverTold(st.log)
    ensures NeverTold(SkipComment(st).1.log)
  {
    hide LineComment, BlockComment, StrangeText, Next;
  }

  /** Only the name after a colon is new, and only in an object. */
  lemma ColonTells(key: Text, value: JValue, parent: JValue, st: St)
    requires Nameless(key, parent) && NeverTold(st.log)
    ensures var r := AddColon(key, value, parent, st); Nameless(r.0, parent) && NeverTold(r.2.log)
  {
  }

  lemma TurnTells(lib: Lib, ch: int, key: Text, value: JValue, parent: JValue, st: St)
    requires IsContainer(parent) && 0 < ch < 256 && ch != LBRACE && ch != LBRACKET
    requires Nameless(key, parent) && NeverTold(st.log)
    ensures var m := Turn(lib, ch, key, value, parent, st);
      if m.Go? then Nameless(m.key, m.parent) && NeverTold(m.st.log) else m.result.Done? ==> NeverTold(m.result.st.log)
  {
    hide ReadString, ReadMemoryBuff, ReadValue, SkipComment, SkipWhite, AddColon, StoreValue, Next, NeverTold;
    StringTells(lib, st, value);
    BufferTells(st, value);
    TokenTells(lib, ch, st, value);
    CommentTells(st);
    ColonTells(key, value, parent, st);
    StoreTells(ch, key, value, parent, st);
    MismatchTells(ch, key, value, parent, st);
  }

  lemma MismatchTells(ch: int, key: Text, value: JValue, parent: JValue, st: St)
    requires IsContainer(parent) && Nameless(key, parent) && NeverTold(st.log)
    ensures NeverTold(StoreValue(ch, key, value, parent, Note(st, CloseMismatch)).1.log)
  {
    StoreTells(ch, key, value, parent, Note(st, CloseMismatch));
  }

  lemma {:induction false} DoReadTells(lib: Lib, parent: JValue, st: St)
    requires IsContainer(parent) && NeverTold(st.log)
    ensures var r := DoRead(lib, parent, st); r.Done? ==> NeverTold(r.st.log)
    decreases |st.rest|, 2
  {
    hide Loop;
    EnterLoop(lib, parent, st);
    LoopTells(lib, 0, [], Invalid, parent, Enter(st));
  }

  lemma {:induction false} LoopTells(lib: Lib, ch: int, key: Text, value: JValue, parent: JValue, st: St)
    requires IsContainer(parent) && -1 <= ch < 256 && Nameless(key, parent) && NeverTold(st.log)
    ensures var r := Loop(lib, ch, key, value, parent, st); r.Done? ==> NeverTold(r.st.log)
    decreases |st.rest|, if ch < 0 then 0 else if ch == 0 then 1 else 3
  {
    hide Turn, Loop, DoRead, StoreValue, Next;
    if ch < 0 {
      LoopStops(lib, ch, key, value, parent, st);
      StoreTells(ch, key, value, parent, Note(st, MissingAtEof));
    } else if ch == 0 {
      LoopReads(lib, key, value, parent, st);
      var n := ReadChar(st);
      LoopTells(lib, n.0, key, value, parent, n.1);
    } else if ch == LBRACE || ch == LBRACKET {
      LoopOpens(lib, ch, key, value, parent, st);
      var p, s := if ch == LBRACE then ToObject(value) else ToArray(value), NoteOpen(key, value, parent, st);
      DoReadTells(lib, p, s);
      var inner := DoRead(lib, p, s);
      if inner.Done? {
        LoopTells(lib, inner.ch, key, inner.v, parent, inner.st);
      }
    } else {
      LoopTurns(lib, ch, key, value, parent, st);
      TurnTells(lib, ch, key, value, parent, st);
      var m := Turn(lib, ch, key, value, parent, st);
      if m.Go? {
        LoopTells(lib, m.ch, m.key, m.value, m.parent, m.st);
      }
    }
  }

  lemma {:induction false} StartTells(ch: int, st: St)
    requires -1 <= ch < 256 && NeverTold(st.log)
    ensures NeverTold(GetStart(ch, st).1.log)
    decreases |st.rest|, if ch < 0 then 0 else 1
  {
    hide LineComment, BlockComment, StrangeText;
    if ch >= 0 && ch != LBRACE && ch != LBRACKET {
      var n := if ch == SLASH then SkipComment(st) else ReadChar(st);
      StartTells(n.0, n.1);
    }
  }

  /** The code has messages for an array item that is missing and for a name in an array; no text at all calls for
      either. */
  lemma TwoKindsNeverTold(lib: Lib, input: Text, v0: JValue)
    ensures var r := Parse(lib, input, v0); r.Done? ==> NeverTold(r.st.log)
  {
    hide DoRead, GetStart;
    var st := St(input, [], 0, 0);
    StartTells(0, st);
    var g := GetStart(0, st);
    if g.0 == LBRACE { DoReadTells(lib, ToObject(v0), g.1); }
    else if g.0 == LBRACKET { DoReadTells(lib, ToArray(v0), g.1); }
  }
}
