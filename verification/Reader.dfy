/** The JSON reader as the source has it: an object with a stream position, counters and two message arrays, whose
    methods read one character at a time (apps/jsonreader.cpp). Each method is proved against ReaderSpec. */
module Reader {
  import opened Bytes
  import opened Decimal
  import opened JsonValue
  import opened ReaderSpec
  import opened Diagnostics

  class JsonReader {
    const lib: Lib
    const flags: Flags
    const maxErrors: int

    var input: Text
    var pos: nat
    var lineNo: int
    var colNo: int
    var level: int
    var depth: int
    var errors: seq<Message>
    var warnings: seq<Message>

    ghost var log: seq<Event>
    ghost var delivered: Text

    constructor (lib: Lib, flags: Flags, maxErrors: int)
      ensures this.lib == lib && this.flags == flags && this.maxErrors == maxErrors
    {
      this.lib, this.flags, this.maxErrors := lib, flags, maxErrors;
    }

    /** Line, column and message arrays agree with what has been consumed and raised. */
    ghost predicate Valid()
      reads `input, `pos, `lineNo, `colNo, `delivered, `errors, `warnings, `log
      ensures Valid() ==> pos <= |input|
    {
      && Boundary(input, pos)
      && lineNo == Line(input, pos) && colNo == Column(input, pos) && delivered == Delivered(input, pos)
      && Within(input, log)
      && Within(input, Select(flags, true, log)) && errors == Report(input, Select(flags, true, log), maxErrors)
      && Within(input, Select(flags, false, log)) && warnings == Report(input, Select(flags, false, log), maxErrors)
    }

    ghost function State(): St
      reads `input, `pos, `log, `level, `depth
      requires pos <= |input|
    {
      St(input[pos..], log, level, depth)
    }

    // ----- characters

    method ReadChar() returns (ch: int)
      requires Valid()
      modifies this`pos, this`lineNo, this`colNo, this`delivered
      ensures Valid() && (ch, State()) == ReaderSpec.ReadChar(old(State()))
    {
      hide Select, Report, Line, Column, Delivered;
      if pos == |input| { return -1; }
      ghost var p := pos;
      ch := input[pos];
      pos := pos + 1;
      if ch == CR {
        colNo := 1;
        if pos == |input| {
          Advance(input, p, pos);
          delivered := Delivered(input, pos);
          return -1;
        }
        if input[pos] == LF {
          ch := input[pos];
          pos := pos + 1;
        }
      }
      if ch == LF {
        lineNo := lineNo + 1;
        colNo := 1;
      } else {
        colNo := colNo + 1;
      }
      Advance(input, p, pos);
      delivered := delivered + [ch];
    }

    function PeekChar(): int
      reads `input, `pos
      requires pos <= |input|
    {
      if pos == |input| then -1 else input[pos]
    }

    // ----- diagnostics

    method AddError(kind: Kind)
      requires Valid() && IsError(flags, kind)
      modifies this`errors, this`log
      ensures Valid() && State() == Note(old(State()), kind)
    {
      hide Select, Report, Line, Column, Delivered;
      NotedIn(true, kind);
      NotedIn(false, kind);
      errors := Push(errors, Told(kind, lineNo, colNo), maxErrors);
      log := log + [Event(kind, |input| - pos)];
    }

    method AddWarning(flag: Flag, kind: Kind)
      requires Valid() && Extension(kind) == Some(flag)
      modifies this`errors, this`warnings, this`log
      ensures Valid() && State() == Note(old(State()), kind)
    {
      hide Select, Report, Line, Column, Delivered;
      if flag !in flags {
        AddError(kind);
        return;
      }
      NotedIn(true, kind);
      NotedIn(false, kind);
      warnings := Push(warnings, Told(kind, lineNo, colNo), maxErrors);
      log := log + [Event(kind, |input| - pos)];
    }

    /** One of the two arrays after one more event. */
    lemma NotedIn(error: bool, kind: Kind)
      requires pos <= |input| && lineNo == Line(input, pos) && colNo == Column(input, pos)
      requires Within(input, Select(flags, error, log))
      ensures var e, before := Event(kind, |input| - pos), Report(input, Select(flags, error, log), maxErrors);
        && Within(input, Select(flags, error, log + [e]))
        && Report(input, Select(flags, error, log + [e]), maxErrors)
           == if IsError(flags, kind) == error then Push(before, Told(kind, lineNo, colNo), maxErrors) else before
    {
      hide Select, Report, Line, Column;
      var e := Event(kind, |input| - pos);
      assert Tell(input, e) == Told(kind, lineNo, colNo);
      SelectNote(flags, error, log, e);
      if IsError(flags, kind) == error {
        ReportNote(input, Select(flags, error, log), e, maxErrors);
      } else {
        assert Select(flags, error, log) + [] == Select(flags, error, log);
      }
    }

    // ----- blanks and comments

    method SkipWhiteSpace() returns (ch: int)
      requires Valid()
      modifies this`pos, this`lineNo, this`colNo, this`delivered
      ensures Valid()
      ensures var g := SkipWhite(old(State()).rest); ch == g.0 && State() == old(State()).(rest := g.1)
    {
      ch := ReadChar();
      while ch == SPACE || ch == LF || ch == TAB
        invariant Valid() && -1 <= ch < 256 && State() == old(State()).(rest := State().rest)
        invariant SkipWhite(old(State()).rest)
          == if ch == SPACE || ch == LF || ch == TAB then SkipWhite(State().rest) else (ch, State().rest)
        decreases |input| - pos, if ch < 0 then 0 else 1
      {
        ch := ReadChar();
      }
    }

    method SkipComment() returns (ch: int)
      requires Valid()
      modifies this`pos, this`lineNo, this`colNo, this`delivered, this`errors, this`warnings, this`log
      ensures Valid() && (ch, State()) == ReaderSpec.SkipComment(old(State()))
    {
      hide Valid;
      ch := ReadChar();
      if ch < 0 { return -1; }
      if ch == SLASH {
        AddWarning(AllowComments, CommentFound);
        ch := SkipLine(ch);
      } else if ch == STAR {
        AddWarning(AllowComments, CommentFound);
        ch := SkipBlock(ch);
      } else {
        AddError(StrangeSlash);
        SkipStrange();
        ch := ReadChar();
      }
    }

    method SkipLine(first: int) returns (ch: int)
      requires Valid() && 0 <= first < 256
      modifies this`pos, this`lineNo, this`colNo, this`delivered
      ensures Valid()
      ensures var g := LineComment(first, old(State()).rest); ch == g.0 && State() == old(State()).(rest := g.1)
    {
      ch := first;
      while ch >= 0
        invariant Valid() && -1 <= ch < 256 && State() == old(State()).(rest := State().rest)
        invariant LineComment(first, old(State()).rest) == LineComment(ch, State().rest)
        decreases |input| - pos, if ch < 0 then 0 else 1
      {
        if ch == LF { break; }
        if ch == CR {
          ch := PeekChar();
          if ch == LF {
            ch := ReadChar();
          }
          return;
        }
        ch := ReadChar();
      }
    }

    method SkipBlock(first: int) returns (ch: int)
      requires Valid() && 0 <= first < 256
      modifies this`pos, this`lineNo, this`colNo, this`delivered
      ensures Valid()
      ensures var g := BlockComment(first, old(State()).rest); ch == g.0 && State() == old(State()).(rest := g.1)
    {
      ch := first;
      while ch >= 0
        invariant Valid() && -1 <= ch < 256 && State() == old(State()).(rest := State().rest)
        invariant BlockComment(first, old(State()).rest) == BlockComment(ch, State().rest)
        decreases |input| - pos, if ch < 0 then 0 else 1
      {
        if ch == STAR {
          ch := PeekChar();
          if ch == SLASH {
            ch := ReadChar();
            ch := ReadChar();
            return;
          }
        }
        ch := ReadChar();
      }
    }

    method SkipStrange()
      requires Valid()
      modifies this`pos, this`lineNo, this`colNo, this`delivered
      ensures Valid() && State() == old(State()).(rest := StrangeText(old(State()).rest).1)
    {
      var ch := 0;
      while ch >= 0
        invariant Valid() && -1 <= ch < 256 && State() == old(State()).(rest := State().rest)
        invariant ch >= 0 ==> StrangeText(old(State()).rest) == StrangeText(State().rest)
        invariant ch < 0 ==> StrangeText(old(State()).rest).1 == State().rest
        decreases |input| - pos, if ch < 0 then 0 else 1
      {
        ch := ReadChar();
        if ch == STAR && PeekChar() == SLASH { break; }
        if ch == LF { break; }
      }
    }

    // ----- strings

    method ReadUes() returns (ch: int, quad: Text)
      requires Valid()
      modifies this`pos, this`lineNo, this`colNo, this`delivered
      ensures Valid() && State() == old(State()).(rest := State().rest)
      ensures (quad, State().rest) == ReaderSpec.ReadUes(old(State()).rest, 4)
      ensures ch == if |quad| < 4 then -1 else 0
    {
      hide Valid, ReaderSpec.ReadUes;
      quad := [];
      var i := 0;
      assert [] + ReaderSpec.ReadUes(State().rest, 4).0 == ReaderSpec.ReadUes(State().rest, 4).0;
      while i < 4
        invariant 0 <= i <= 4 && |quad| == i && Valid() && State() == old(State()).(rest := State().rest)
        invariant ReaderSpec.ReadUes(old(State()).rest, 4)
          == var g := ReaderSpec.ReadUes(State().rest, 4 - i); (quad + g.0, g.1)
      {
        NextOfUes(State().rest, 4 - i, quad);
        ch := ReadChar();
        if ch < 0 { return; }
        quad := quad + [ch];
        i := i + 1;
      }
      NoMoreUes(State().rest, quad);
      ch := 0;
    }

    /** The scanning loop of ReadString; `cut` is its early return inside a \u escape. */
    method ScanString() returns (ch: int, buf: Text, cut: bool)
      requires Valid()
      modifies this`pos, this`lineNo, this`colNo, this`delivered, this`errors, this`log
      ensures Valid() && Scan(ch, State(), buf, cut) == StringBody(lib, old(State()), [])
    {
      hide Valid;
      buf := [];
      ch := 0;
      cut := false;
      ghost var goal := StringBody(lib, State(), []);
      while ch >= 0
        invariant Valid() && -1 <= ch < 256
        invariant goal == if ch >= 0 then StringBody(lib, State(), buf) else Scan(ch, State(), buf, false)
        decreases |input| - pos, if ch < 0 then 0 else 1
      {
        ch := ReadChar();
        if ch == BACKSLASH {
          ch, buf, cut := ReadEscape(buf);
          if cut { return; }
        } else {
          if ch == QUOTE { break; }
          buf := buf + [if ch < 0 then 255 else ch];
        }
      }
    }

    /** The escape after a backslash. */
    method ReadEscape(buf: Text) returns (ch: int, buf': Text, cut: bool)
      requires Valid()
      modifies this`pos, this`lineNo, this`colNo, this`delivered, this`errors, this`log
      ensures Valid() && (ch, State(), buf', cut) == Escape(lib, old(State()), buf)
    {
      hide Valid;
      buf', cut := buf, false;
      ch := ReadChar();
      if ch == -1 {
      } else if ch == LETTER_U {
        var quad;
        ch, quad := ReadUes();
        if ch < 0 { return ch, buf, true; }
        var bytes := EscapedBytes(lib, quad);
        if bytes == None {
          AddError(BadEscape);
        } else {
          buf' := buf + bytes.value;
        }
      } else {
        var b := SimpleEscape(ch);
        if b >= 0 {
          buf' := buf + [b];
        } else {
          AddError(UnknownEscape);
        }
      }
    }

    method ReadString(val: JValue) returns (ch: int, val': JValue)
      requires Valid()
      modifies this`pos, this`lineNo, this`colNo, this`delivered, this`errors, this`warnings, this`log
      ensures Valid() && (ch, State(), val') == ReaderSpec.ReadString(lib, old(State()), val)
    {
      hide Valid, StringBody, ReaderSpec.ReadChar;
      var buf, cut;
      val' := val;
      ch, buf, cut := ScanString();
      if cut { return; }
      var s := buf;
      if !lib.utf8Ok(buf) {
        AddError(BadUtf8);
        s := NOT_VALID;
      }
      if val == Invalid {
        val' := Str(s);
      } else if val.Str? {
        AddWarning(MultiString, MultilineString);
        val' := Str(val.s + s);
      } else {
        AddError(StringAfterValue);
      }
      if ch >= 0 {
        ch := ReadChar();
      }
    }

    // ----- tokens

    method ReadToken(first: int) returns (ch: int, s: Text)
      requires Valid() && -1 <= first < 256
      modifies this`pos, this`lineNo, this`colNo, this`delivered
      ensures Valid() && State() == old(State()).(rest := State().rest)
      ensures (ch, State().rest, s) == ReaderSpec.ReadToken(first, old(State()).rest, [])
    {
      hide Valid;
      ch := first;
      s := [];
      while ch >= 0
        invariant Valid() && -1 <= ch < 256 && State() == old(State()).(rest := State().rest)
        invariant ReaderSpec.ReadToken(first, old(State()).rest, []) == ReaderSpec.ReadToken(ch, State().rest, s)
        decreases |input| - pos, if ch < 0 then 0 else 1
      {
        if EndsToken(ch) { return; }
        s := s + [ch];
        ch := ReadChar();
      }
    }

    /** The conversions of ReadValue: signed, unsigned, then double, as the first character allows. */
    method ReadNumber(ch: int, s: Text) returns (r: Option<JValue>)
      ensures r == Number(lib, ch, s)
    {
      var tSigned, tUnsigned := true, true;
      if IsDigit(ch) {
      } else if ch == PLUS {
        tSigned := false;
      } else if ch == MINUS {
        tUnsigned := false;
      } else {
        return None;
      }
      if tSigned {
        var i64 := Strtoll(s);
        if i64.Some? { return Some(Int(i64.value)); }
      }
      if tUnsigned {
        var ui64 := Strtoull(s);
        if ui64.Some? { return Some(UInt(ui64.value)); }
      }
      var d := lib.toDouble(s);
      if d.Some? { return Some(Double(d.value)); }
      return None;
    }

    method ReadValue(first: int, val: JValue) returns (ch: int, val': JValue)
      requires Valid() && 0 <= first < 256
      modifies this`pos, this`lineNo, this`colNo, this`delivered, this`errors, this`warnings, this`log
      ensures Valid() && (ch, State(), val') == ReaderSpec.ReadValue(lib, first, old(State()), val)
    {
      hide Valid;
      var s;
      val' := val;
      ch, s := ReadToken(first);
      if val.IsValid() {
        AddError(TokenAfterValue);
        return;
      }
      var word := WordValue(s);
      if word.Some? {
        if s != Lower(s) {
          AddWarning(CaseFolding, LiteralCase);
        }
        val' := word.value;
        return;
      }
      var number := ReadNumber(first, s);
      if number.Some? {
        val' := number.value;
      } else {
        AddError(BadLiteral);
      }
    }

    // ----- memory buffers

    method ScanBuffer() returns (ch: int, buf: Text, bad: nat)
      requires Valid()
      modifies this`pos, this`lineNo, this`colNo, this`delivered
      ensures Valid() && State() == old(State()).(rest := State().rest)
      ensures (ch, State().rest, buf, bad) == BuffBody(old(State()).rest, [], 0)
    {
      hide Valid, Boundary, ReaderSpec.ReadUes, BuffBody;
      ghost var goal := BuffBody(State().rest, [], 0);
      buf := [];
      ch := 0;
      bad := 0;
      while ch >= 0
        invariant Valid() && 0 <= ch < 256 && State() == old(State()).(rest := State().rest)
        invariant goal == BuffBody(State().rest, buf, bad)
        decreases |input| - pos
      {
        BuffStep(State().rest, buf, bad);
        ch := ReadChar();
        if ch < 0 { break; }
        if ch == APOSTROPHE { break; }
        var c1 := ch;
        ch := ReadChar();
        if ch < 0 { break; }
        var d1, d2 := BuffDigit(c1), BuffDigit(ch);
        if d1 > 15 {
          bad := bad + 1;
        } else if d2 > 15 {
          bad := bad + 1;
        } else {
          buf := buf + [d1 * 16 + d2];
        }
      }
    }

    method ReadMemoryBuff(val: JValue) returns (ch: int, val': JValue)
      requires Valid()
      modifies this`pos, this`lineNo, this`colNo, this`delivered, this`errors, this`warnings, this`log
      ensures Valid() && (ch, State(), val') == ReaderSpec.ReadMemoryBuff(old(State()), val)
    {
      hide Valid, BuffBody, ReaderSpec.ReadChar;
      var buf, bad;
      AddWarning(MemoryBuffer, BufferFound);
      ch, buf, bad := ScanBuffer();
      if bad > 0 {
        AddError(BadHexDigits);
      }
      val' := val;
      if val == Invalid {
        val' := Buff(buf);
      } else if val.Buff? {
        val' := Buff(val.bytes + buf);
      } else {
        AddError(BufferAfterValue);
      }
      if ch >= 0 {
        ch := ReadChar();
      }
    }

    // ----- structure

    method StoreValue(ch: int, key: Text, value: JValue, parent: JValue) returns (parent': JValue)
      requires Valid() && IsContainer(parent)
      modifies this`errors, this`log
      ensures Valid() && (parent', State()) == ReaderSpec.StoreValue(ch, key, value, parent, old(State()))
    {
      hide Valid;
      parent' := parent;
      if !value.IsValid() && key == [] {
        if !(ch == RBRACE || ch == RBRACKET) {
          AddError(KeyOrValueMissing);
        }
      } else if parent.Obj? {
        if !value.IsValid() {
          AddError(ValueMissing);
        } else if key == [] {
          AddError(KeyMissing);
        } else {
          parent' := Obj(parent.members[key := Cloned(value)]);
        }
      } else {
        if !value.IsValid() {
          AddError(ItemMissing);
        }
        if key != [] {
          AddError(KeyInArray);
        }
        parent' := Arr(parent.items + [Cloned(value)]);
      }
    }

    method NoteOpening(key: Text, value: JValue, parent: JValue)
      requires Valid() && IsContainer(parent)
      modifies this`errors, this`log
      ensures Valid() && State() == NoteOpen(key, value, parent, old(State()))
    {
      if parent.Obj? {
        if key == [] {
          AddError(OpenNameMissing);
        }
        if value.IsValid() {
          AddError(OpenAfterValue);
        }
      } else {
        if value.IsValid() {
          AddError(OpenAfterValue);
        }
      }
    }

    method ReadColon(key: Text, value: JValue, parent: JValue) returns (key': Text, value': JValue)
      requires Valid() && IsContainer(parent)
      modifies this`errors, this`log
      ensures Valid() && (key', value', State()) == AddColon(key, value, parent, old(State()))
    {
      key', value' := key, value;
      if !parent.Obj? {
        AddError(ColonOutsideObject);
      } else if !value.Str? {
        AddError(ColonAfterNonString);
      } else if key != [] {
        AddError(ColonAfterName);
      } else {
        key', value' := value.s, Invalid;
      }
    }

    /** One turn of the switch on a character that opens no container. `returned` is a return from DoRead. */
    method Dispatch(ch: int, key: Text, value: JValue, parent: JValue)
      returns (ch': int, key': Text, value': JValue, parent': JValue, returned: bool)
      requires Valid() && IsContainer(parent) && 0 < ch < 256 && ch != LBRACE && ch != LBRACKET && ch != BACKSPACE
      modifies this`pos, this`lineNo, this`colNo, this`delivered, this`errors, this`warnings, this`log
      ensures Valid() && level == old(level) && depth == old(depth)
      ensures Turn(lib, ch, key, value, parent, old(State()))
        == if returned then Stop(Done(ch', State(), parent')) else Go(ch', key', value', parent', State())
    {
      hide Valid, SkipWhite, AddColon, ReaderSpec.SkipComment, ReaderSpec.ReadString, ReaderSpec.ReadMemoryBuff;
      hide ReaderSpec.ReadValue, ReaderSpec.StoreValue, ReaderSpec.ReadChar;
      key', value', parent', returned := key, value, parent, false;
      if IsBlank(ch) {
        ch' := SkipWhiteSpace();
      } else if ch == SLASH {
        ch' := SkipComment();
      } else if ch == RBRACE || ch == RBRACKET {
        ch', parent' := CloseContainer(ch, key, value, parent);
        returned := true;
      } else if ch == COMMA {
        parent' := StoreValue(ch, key, value, parent);
        key', value' := [], Invalid;
        ch' := ReadChar();
      } else if ch == QUOTE {
        ch', value' := ReadString(value);
      } else if ch == APOSTROPHE {
        ch', value' := ReadMemoryBuff(value);
      } else if ch == COLON {
        key', value' := ReadColon(key, value, parent);
        ch' := ReadChar();
      } else {
        ch', value' := ReadValue(ch, value);
      }
    }

    /** A closing brace or bracket; only the brace reads on. */
    method CloseContainer(ch: int, key: Text, value: JValue, parent: JValue) returns (ch': int, parent': JValue)
      requires Valid() && IsContainer(parent) && (ch == RBRACE || ch == RBRACKET)
      modifies this`pos, this`lineNo, this`colNo, this`delivered, this`errors, this`warnings, this`log
      ensures Valid() && level == old(level) && depth == old(depth)
      ensures Turn(lib, ch, key, value, parent, old(State())) == Stop(Done(ch', State(), parent'))
    {
      hide Valid, ReaderSpec.StoreValue, ReaderSpec.ReadChar;
      if (ch == RBRACE && !parent.Obj?) || (ch == RBRACKET && !parent.Arr?) {
        AddWarning(MissingClose, CloseMismatch);
      }
      parent' := StoreValue(ch, key, value, parent);
      if ch == RBRACE {
        ch' := ReadChar();
      } else {
        ch' := 0;
      }
    }

    /** DoRead fills `parent`; `hung` says that the source never returns from here. */
    method DoRead(parent: JValue) returns (hung: bool, ch: int, filled: JValue)
      requires Valid() && IsContainer(parent)
      modifies this`pos, this`lineNo, this`colNo, this`delivered, this`errors, this`warnings, this`log,
        this`level, this`depth
      ensures Valid()
      ensures ReaderSpec.DoRead(lib, parent, old(State())) == if hung then Hang else Done(ch, State(), filled)
      decreases |input| - pos, 1
    {
      hide Valid, ReaderSpec.StoreValue, Loop, ReaderSpec.DoRead;
      EnterLoop(lib, parent, State());
      level := level + 1;
      if depth < level {
        depth := level;
      }
      ch := 0;
      filled := parent;
      hung := false;
      var returned := false;
      var key: Text := [];
      var value := Invalid;
      while ch >= 0
        invariant Valid() && !hung && -1 <= ch < 256 && IsContainer(filled) && pos >= old(pos) && (ch > 0 ==> pos > old(pos))
        invariant ReaderSpec.DoRead(lib, parent, old(State())) == Loop(lib, ch, key, value, filled, State())
        decreases |input| - pos, if ch < 0 then 0 else if ch == 0 then 1 else 3
      {
        hung, returned, ch, key, value, filled := Iterate(ch, key, value, filled);
        if hung || returned { return; }
      }
      LoopStops(lib, ch, key, value, filled, State());
      AddWarning(MissingClose, MissingAtEof);
      filled := StoreValue(ch, key, value, filled);
      level := level - 1;
    }

    /** One turn of the loop. */
    method Iterate(ch: int, key: Text, value: JValue, parent: JValue)
      returns (hung: bool, returned: bool, ch': int, key': Text, value': JValue, parent': JValue)
      requires Valid() && IsContainer(parent) && 0 <= ch < 256
      modifies this`pos, this`lineNo, this`colNo, this`delivered, this`errors, this`warnings, this`log,
        this`level, this`depth
      ensures Valid() && (!hung ==> -1 <= ch' < 256 && IsContainer(parent') && pos >= old(pos))
      ensures !hung && !returned && ch' >= 0 ==> pos > old(pos)
      ensures Loop(lib, ch, key, value, parent, old(State()))
        == if hung then Hang else if returned then Done(ch', State(), parent')
           else Loop(lib, ch', key', value', parent', State())
      decreases |input| - pos, if ch == 0 then 0 else 3
    {
      hide Valid, Turn, NoteOpen, ReaderSpec.ReadChar, Note, Boundary, Loop, ReaderSpec.DoRead;
      hung, returned, ch', key', value', parent' := false, false, ch, key, value, parent;
      if ch == 0 {
        LoopReads(lib, key, value, parent, State());
        ch' := ReadChar();
      } else if ch == LBRACE || ch == LBRACKET {
        LoopOpens(lib, ch, key, value, parent, State());
        hung, ch', value' := ReadNested(ch, key, value, parent);
      } else {
        LoopTurns(lib, ch, key, value, parent, State());
        if ch == BACKSPACE {
          TurnOnBackspace(lib, key, value, parent, State());
          hung := true;
        } else {
          ch', key', value', parent', returned := Dispatch(ch, key, value, parent);
        }
      }
    }

    /** An opening character: the complaints about where it stands, and the container it opens. */
    method ReadNested(ch: int, key: Text, value: JValue, parent: JValue) returns (hung: bool, ch': int, value': JValue)
      requires Valid() && IsContainer(parent) && (ch == LBRACE || ch == LBRACKET)
      modifies this`pos, this`lineNo, this`colNo, this`delivered, this`errors, this`warnings, this`log,
        this`level, this`depth
      ensures Valid()
      ensures ReaderSpec.DoRead(lib, if ch == LBRACE then ToObject(value) else ToArray(value),
                                NoteOpen(key, value, parent, old(State())))
        == if hung then Hang else Done(ch', State(), value')
      decreases |input| - pos, 2
    {
      hide Valid, NoteOpen, ReaderSpec.DoRead;
      NoteOpening(key, value, parent);
      hung, ch', value' := DoRead(if ch == LBRACE then ToObject(value) else ToArray(value));
    }

    method GetStart() returns (ch: int)
      requires Valid()
      modifies this`pos, this`lineNo, this`colNo, this`delivered, this`errors, this`warnings, this`log
      ensures Valid() && (ch, State()) == ReaderSpec.GetStart(0, old(State()))
    {
      hide Valid;
      ch := 0;
      while ch >= 0
        invariant Valid() && -1 <= ch < 256
        invariant level == old(level) && depth == old(depth)
        invariant ReaderSpec.GetStart(0, old(State())) == ReaderSpec.GetStart(ch, State())
        decreases |input| - pos, if ch < 0 then 0 else 1
      {
        if ch == LBRACE || ch == LBRACKET {
          return;
        } else if ch == SLASH {
          ch := SkipComment();
        } else {
          ch := ReadChar();
        }
      }
    }

    /** Before the first character. */
    method Reset(text: Text)
      modifies this
      ensures Valid() && input == text && State() == St(text, [], 0, 0)
    {
      input, pos, lineNo, colNo, level, depth := text, 0, 1, 1, 0, 0;
      errors, warnings, log, delivered := [], [], [], [];
      assert State().rest == text;
      assert input[..0] == [];
    }

    /** The number Parse returns: how many entries the error array holds. */
    method Parse(text: Text, v0: JValue) returns (hung: bool, numErrors: int, v: JValue)
      requires StoreComments !in flags
      modifies this
      ensures Valid() && input == text
      ensures hung <==> ReaderSpec.Parse(lib, text, v0) == Hang
      ensures !hung ==>
        var r := ReaderSpec.Parse(lib, text, v0);
        && r.v == v && r.st == State()
        && numErrors == |errors|
    {
      hide Valid, ReaderSpec.DoRead, ReaderSpec.GetStart;
      Reset(text);
      v, hung := v0, false;
      var ch := GetStart();
      if ch == LBRACE {
        hung, ch, v := DoRead(ToObject(v0));
      } else if ch == LBRACKET {
        hung, ch, v := DoRead(ToArray(v0));
      } else {
        AddError(NoStart);
      }
      numErrors := |errors|;
    }
  }

  lemma LineStep(input: Text, p: nat)
    requires p < |input|
    ensures Line(input, p + 1) == Line(input, p) + if input[p] == LF then 1 else 0
  {
    assert input[..p + 1][..p] == input[..p];
  }

  /** Line, column and delivered text after one character. */
  lemma Advance(input: Text, p: nat, pos: nat)
    requires Boundary(input, p) && p < |input|
    requires pos == if input[p] == CR && p + 1 < |input| && input[p + 1] == LF then p + 2 else p + 1
    ensures Boundary(input, pos)
    ensures Line(input, pos) == Line(input, p) + if input[pos - 1] == LF then 1 else 0
    ensures Column(input, pos)
      == if input[pos - 1] == LF then 1 else if input[pos - 1] == CR then (if pos == |input| then 1 else 2)
         else Column(input, p) + 1
    ensures Delivered(input, pos)
      == if pos == |input| && input[pos - 1] == CR then Delivered(input, p) else Delivered(input, p) + [input[pos - 1]]
    ensures Next(input[p..])
      == (if pos == |input| && input[pos - 1] == CR then -1 else input[pos - 1], input[pos..])
  {
    LineStep(input, p);
    if pos == p + 2 {
      LineStep(input, p + 1);
    }
    assert input[p..][1..] == input[p + 1..] && input[|input|..] == [];
    assert pos == p + 2 ==> input[p..][2..] == input[pos..];
  }

  /** One of the characters of an escape, after those read before. */
  lemma NextOfUes(r: Text, n: nat, before: Text)
    requires 0 < n <= 4
    ensures var c, all := Next(r), ReaderSpec.ReadUes(r, n);
      if c.0 < 0 then (before + all.0, all.1) == (before, c.1)
      else
        var g := ReaderSpec.ReadUes(c.1, n - 1); (before + all.0, all.1) == (before + [c.0] + g.0, g.1)
  {
    var c := Next(r);
    if c.0 < 0 {
      assert before + [] == before;
    } else {
      var g := ReaderSpec.ReadUes(c.1, n - 1);
      assert before + ([c.0] + g.0) == before + [c.0] + g.0;
    }
  }

  lemma NoMoreUes(r: Text, before: Text)
    ensures var g := ReaderSpec.ReadUes(r, 0); (before + g.0, g.1) == (before, r)
  {
    assert before + [] == before;
  }

  /** Flags and the error limit only reclassify: two readers that differ in nothing else hang together or build the
      same value and raise the same diagnostics, and the one with more flags reports no more errors. */
  method ReadTwice(lib: Lib, few: Flags, many: Flags, max1: int, max2: int, text: Text, v0: JValue)
    returns (r1: JsonReader, r2: JsonReader, hung1: bool, hung2: bool, v1: JValue, v2: JValue)
    requires few <= many && StoreComments !in many
    ensures r1.Valid() && r2.Valid() && r1.input == r2.input == text && r1.flags == few && r2.flags == many
    ensures hung1 == hung2
    ensures !hung1 ==> v1 == v2 && r1.pos == r2.pos && r1.lineNo == r2.lineNo && r1.depth == r2.depth
    ensures !hung1 ==> r1.log == r2.log
    ensures !hung1 ==>
      (|Select(few, true, r1.log)| + |Select(few, false, r1.log)|
       == |Select(many, true, r2.log)| + |Select(many, false, r2.log)|)
    ensures !hung1 && max1 == max2 ==> |r2.errors| <= |r1.errors|
  {
    hide ReaderSpec.Parse;
    var n1, n2;
    r1 := new JsonReader(lib, few, max1);
    hung1, n1, v1 := r1.Parse(text, v0);
    r2 := new JsonReader(lib, many, max2);
    hung2, n2, v2 := r2.Parse(text, v0);
    if !hung1 {
      SameRest(text, r1.pos, r2.pos);
      SameReports(text, few, many, r1.log, max1);
    }
  }

  lemma SameRest(text: Text, p: nat, q: nat)
    requires p <= |text| && q <= |text| && text[p..] == text[q..]
    ensures p == q
  {
    assert |text[p..]| == |text[q..]|;
  }

  lemma SameReports(text: Text, few: Flags, many: Flags, log: seq<Event>, max: int)
    requires few <= many && Within(text, Select(few, true, log)) && Within(text, Select(many, true, log))
    ensures |Select(few, true, log)| + |Select(few, false, log)| == |Select(many, true, log)| + |Select(many, false, log)|
    ensures |Report(text, Select(many, true, log), max)| <= |Report(text, Select(few, true, log), max)|
  {
    hide Select;
    NothingLost(few, log);
    NothingLost(many, log);
    MoreFlagsFewerErrors(few, many, log);
  }
}
