/** The JSON writer as the source has it: an object that appends to an output stream and keeps the nesting level
    (apps/jsonwriter.cpp). Each method is proved against WriterSpec. The stream takes every byte. */
module Writer {
  import opened Bytes
  import opened Decimal
  import opened JsonValue
  import opened Grammar
  import opened WriterSpec

  class JsonWriter {
    const style: Style
    var out: Text
    var level: int

    constructor (style: Style)
      ensures this.style == style && out == []
    {
      this.style := style;
      out := [];
      level := 0;
    }

    method PutC(b: Byte)
      modifies this`out
      ensures out == old(out) + [b]
    {
      out := out + [b];
    }

    method Put(s: Text)
      modifies this`out
      ensures out == old(out) + s
    {
      out := out + s;
    }

    /** WriteIndent for a given number of levels. */
    method WriteIndentFor(num: int) returns (lastChar: int)
      modifies this`out
      ensures out == old(out) + Indent(style, num)
      ensures lastChar == 0 || lastChar == SPACE || lastChar == TAB
    {
      if !style.styled || style.noIndentation { return 0; }
      var numChars := style.indent + style.step * num;
      var c := SPACE;
      if style.tabIndent {
        c := TAB;
        numChars := num;
      }
      var i := 0;
      while i < numChars
        invariant 0 <= i && (i <= numChars || i == 0)
        invariant out == old(out) + Repeat(c, i)
      {
        PutC(c);
        assert Repeat(c, i) + [c] == Repeat(c, i + 1);
        i := i + 1;
      }
      assert Repeat(c, numChars) == Repeat(c, i);
      return c;
    }

    method WriteIndent() returns (lastChar: int)
      modifies this`out
      ensures out == old(out) + Indent(style, level)
      ensures lastChar == 0 || lastChar == SPACE || lastChar == TAB
    {
      lastChar := WriteIndentFor(level);
    }

    /** WriteSeparator answers with a line feed even when it writes none. */
    method WriteSeparator() returns (lastChar: int)
      modifies this`out
      ensures out == old(out) + Separator(style) && lastChar == LF
    {
      if style.styled && !style.noLinefeeds {
        PutC(LF);
      }
      return LF;
    }

    // ----- strings

    method WriteChar(ch: Byte)
      modifies this`out
      ensures out == old(out) + CharOut(style, ch)
    {
      var escCh := EscapeLetter(ch);
      var shouldEscape := escCh != 0;
      if !shouldEscape && ch < 32 {
        Put([BACKSLASH, 117, 48, 48, HexChar(ch / 16), HexChar(ch % 16)]);
      } else {
        if shouldEscape && !style.escapeSolidus {
          if ch == SLASH {
            shouldEscape := false;
          }
        }
        if shouldEscape && style.multilineString {
          if ch == LF || ch == TAB {
            shouldEscape := false;
          }
        }
        if shouldEscape {
          Put([BACKSLASH, escCh]);
        } else {
          PutC(ch);
        }
      }
    }

    method WriteReopen(quote: Byte)
      modifies this`out
      ensures out == old(out) + Reopen(style, level, quote)
    {
      Put([quote, LF]);
      var lastChar := WriteIndentFor(level + 2);
      PutC(quote);
    }

    /** One character, and the split after a line feed. */
    method WriteCharAndSplit(ch: Byte)
      modifies this`out
      ensures out == old(out) + (CharOut(style, ch) + if Splits(style) && ch == LF then Reopen(style, level, QUOTE) else [])
    {
      hide CharOut, Reopen;
      WriteChar(ch);
      if style.styled && style.splitString {
        if ch == LF {
          WriteReopen(QUOTE);
        }
      }
    }

    method WriteStringValue(str: Text) returns (lastChar: int)
      modifies this`out
      ensures out == old(out) + StringOut(style, level, str) && lastChar == 0
    {
      hide CharOut, Reopen, UpToNul;
      PutC(QUOTE);
      ghost var start := out;
      var buff := UpToNul(str);
      var i := 0;
      assert buff[0..] == buff;
      while i < |buff|
        invariant 0 <= i <= |buff|
        invariant out + StringBodyOut(style, level, buff[i..]) == start + StringBodyOut(style, level, buff)
      {
        ghost var before := out;
        assert buff[i..][0] == buff[i] && buff[i..][1..] == buff[i + 1..];
        WriteCharAndSplit(buff[i]);
        assert out + StringBodyOut(style, level, buff[i + 1..]) == before + StringBodyOut(style, level, buff[i..]);
        i := i + 1;
      }
      assert buff[i..] == [];
      assert out == start + StringBodyOut(style, level, buff);
      PutC(QUOTE);
      return 0;
    }

    method WriteKey(key: Text) returns (lastChar: int)
      modifies this`out
      ensures out == old(out) + KeyOut(style, level, Some(key)) && lastChar == 0
    {
      lastChar := WriteStringValue(key);
      Put([SPACE, COLON, SPACE]);
    }

    // ----- buffers

    method WriteMemoryBuff(buff: Text) returns (lastChar: int)
      modifies this`out
      ensures out == old(out) + BuffOut(style, level, buff)
      ensures lastChar == if style.memoryBuff then APOSTROPHE else RBRACKET
    {
      if !style.memoryBuff {
        PutC(LBRACKET);
        WriteByteList(buff);
        PutC(RBRACKET);
        return RBRACKET;
      }
      PutC(APOSTROPHE);
      WriteHex(buff);
      PutC(APOSTROPHE);
      return APOSTROPHE;
    }

    method WriteByteList(buff: Text)
      modifies this`out
      ensures out == old(out) + ByteListOut(buff)
    {
      var i := 0;
      assert buff[0..] == buff;
      while i < |buff|
        invariant 0 <= i <= |buff|
        invariant out + ByteListOut(buff[i..]) == old(out) + ByteListOut(buff)
      {
        ghost var before := out;
        assert buff[i..][0] == buff[i] && buff[i..][1..] == buff[i + 1..];
        Put(Digits(buff[i]));
        if i < |buff| - 1 {
          PutC(COMMA);
        }
        assert out + ByteListOut(buff[i + 1..]) == before + ByteListOut(buff[i..]);
        i := i + 1;
      }
    }

    method WriteHex(buff: Text)
      modifies this`out
      ensures out == old(out) + HexOut(style, level, buff, 0)
    {
      hide HexOut, HexChar, Reopen;
      var bytesWritten := 0;
      var i := 0;
      assert buff[0..] == buff;
      while i < |buff|
        invariant 0 <= i <= |buff| && bytesWritten >= 0
        invariant out + HexOut(style, level, buff[i..], bytesWritten) == old(out) + HexOut(style, level, buff, 0)
      {
        HexStep(style, level, buff[i..], bytesWritten);
        var c := buff[i];
        assert buff[i..][0] == c && buff[i..][1..] == buff[i + 1..];
        PutC(HexChar(c / 16));
        PutC(HexChar(c % 16));
        if style.styled && style.splitString {
          bytesWritten := bytesWritten + 1;
        }
        if bytesWritten >= ROW && |buff| - i >= MIN_REST {
          WriteReopen(APOSTROPHE);
          bytesWritten := 0;
        }
        i := i + 1;
      }
      assert buff[i..] == [];
      HexEnd(style, level, bytesWritten);
    }

    // ----- values

    method WriteLeaf(v: JValue) returns (lastChar: int)
      requires !v.Arr? && !v.Obj?
      modifies this`out
      ensures out == old(out) + LeafOut(style, level, v) && lastChar != LF && lastChar >= 0
    {
      hide IntOut, Digits, StringOut, BuffOut;
      lastChar := 0;
      match v {
        case Invalid => Put(INVALID_TEXT);
        case Null => Put([110, 117, 108, 108]);
        case Bool(b) => Put(if b then [116, 114, 117, 101] else [102, 97, 108, 115, 101]);
        case Int(i) => Put(IntOut(i));
        case UInt(u) =>
          Joins(out, if style.recognizeUnsigned then [PLUS] else [], Digits(u));
          if style.recognizeUnsigned {
            PutC(PLUS);
          }
          Put(Digits(u));
        case Double(d) => Put(style.formatDouble(d));
        case Str(s) => lastChar := WriteStringValue(s);
        case Buff(bs) => lastChar := WriteMemoryBuff(bs);
      }
    }

    /** DoWrite. On return the level is what it was on entry. */
    method DoWrite(o: Ordered, key: Option<Text>, comma: bool) returns (lastChar: int)
      requires ProperLeaves(o)
      modifies this`out, this`level
      ensures out == old(out) + LineOut(style, old(level), key, comma, o)
      ensures level == old(level) && lastChar == LF
      decreases o, 2
    {
      hide ValueOut, Indent, Separator, KeyOut;
      lastChar := WriteIndent();
      if key.Some? {
        lastChar := WriteKey(key.value);
      } else {
        KeyOutNone(style, level);
      }
      lastChar := WriteValue(o);
      if comma {
        PutC(COMMA);
      }
      if lastChar != LF {
        lastChar := WriteSeparator();
      }
      Enclose(old(out), Indent(style, level), KeyOut(style, level, key), ValueOut(style, level, o),
              if comma then [COMMA] else [], Separator(style));
    }

    /** The switch on the type. */
    method WriteValue(o: Ordered) returns (lastChar: int)
      requires ProperLeaves(o)
      modifies this`out, this`level
      ensures out == old(out) + ValueOut(style, old(level), o)
      ensures level == old(level) && 0 <= lastChar != LF
      decreases o, 1
    {
      hide LeafOut;
      match o {
        case Leaf(v) => lastChar := WriteLeaf(v);
        case OArr(items) => lastChar := WriteArray(items);
        case OObj(members) => lastChar := WriteObject(members);
      }
    }

    method WriteArray(items: seq<Ordered>) returns (lastChar: int)
      requires ProperLeaves(OArr(items))
      modifies this`out, this`level
      ensures out == old(out) + ValueOut(style, old(level), OArr(items))
      ensures level == old(level) && 0 <= lastChar != LF
      decreases items, 1
    {
      hide Indent, Separator, ItemsOut;
      level := level + 1;
      PutC(LBRACKET);
      lastChar := WriteSeparator();
      WriteItems(items);
      level := level - 1;
      lastChar := WriteIndent();
      PutC(RBRACKET);
      Enclose(old(out), [LBRACKET], Separator(style), ItemsOut(style, level + 1, items), Indent(style, level), [RBRACKET]);
    }

    method WriteObject(members: seq<Entry>) returns (lastChar: int)
      requires ProperLeaves(OObj(members))
      modifies this`out, this`level
      ensures out == old(out) + ValueOut(style, old(level), OObj(members))
      ensures level == old(level) && 0 <= lastChar != LF
      decreases members, 1
    {
      hide Indent, Separator, MembersOut;
      level := level + 1;
      PutC(LBRACE);
      lastChar := WriteSeparator();
      WriteMembers(members);
      level := level - 1;
      lastChar := WriteIndent();
      PutC(RBRACE);
      Enclose(old(out), [LBRACE], Separator(style), MembersOut(style, level + 1, members), Indent(style, level), [RBRACE]);
    }

    /** The loop over the items of an array. */
    method WriteItems(items: seq<Ordered>)
      requires forall i :: 0 <= i < |items| ==> ProperLeaves(items[i])
      modifies this`out, this`level
      ensures out == old(out) + ItemsOut(style, old(level), items) && level == old(level)
      decreases items, 0
    {
      hide LineOut;
      var size := |items|;
      var i := 0;
      assert items[0..] == items;
      while i < size
        invariant 0 <= i <= size && level == old(level)
        invariant out + ItemsOut(style, level, items[i..]) == old(out) + ItemsOut(style, level, items)
      {
        ghost var before := out;
        assert items[i..][0] == items[i] && items[i..][1..] == items[i + 1..];
        var comma := false;
        if i < size - 1 {
          comma := true;
        }
        var lastChar := DoWrite(items[i], None, comma);
        assert out + ItemsOut(style, level, items[i + 1..]) == before + ItemsOut(style, level, items[i..]);
        i := i + 1;
      }
    }

    /** The loop over the entries of an object, in the order of its map. */
    method WriteMembers(members: seq<Entry>)
      requires forall i :: 0 <= i < |members| ==> ProperLeaves(members[i].value)
      modifies this`out, this`level
      ensures out == old(out) + MembersOut(style, old(level), members) && level == old(level)
      decreases members, 0
    {
      hide LineOut;
      var size := |members|;
      var count := 0;
      assert members[0..] == members;
      while count < size
        invariant 0 <= count <= size && level == old(level)
        invariant out + MembersOut(style, level, members[count..]) == old(out) + MembersOut(style, level, members)
      {
        ghost var before := out;
        assert members[count..][0] == members[count] && members[count..][1..] == members[count + 1..];
        var comma := false;
        if count < size - 1 {
          comma := true;
        }
        assert members[count].value < members[count];
        var lastChar := DoWrite(members[count].value, Some(members[count].key), comma);
        assert out + MembersOut(style, level, members[count + 1..]) == before + MembersOut(style, level, members[count..]);
        count := count + 1;
      }
    }

    method Write(o: Ordered)
      requires ProperLeaves(o)
      modifies this`out, this`level
      ensures out == old(out) + Written(style, o) && level == 0
    {
      level := 0;
      var lastChar := DoWrite(o, None, false);
    }
  }

  lemma Joins(a: Text, b: Text, c: Text)
    ensures a + b + c == a + (b + c)
  {
  }

  lemma Enclose(h: Text, a: Text, b: Text, c: Text, d: Text, e: Text)
    ensures h + a + b + c + d + e == h + (a + b + c + d + e)
  {
  }

  lemma KeyOutNone(style: Style, level: int)
    ensures KeyOut(style, level, None) == []
  {
  }
}
