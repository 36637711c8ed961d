/** The lines of the text written (apps/jsonwriter.cpp): where each item stands, how far it is indented, how strings and
    buffers are broken into rows, and which characters of a string are escaped. */
module Lines {
  import opened Bytes
  import opened Decimal
  import opened JsonValue
  import opened Grammar
  import opened WriterSpec
  import opened Characters

  /** n characters of one kind, or none if n is negative. */
  function Copies(c: char, n: int): Text
    requires c as int < 256
  {
    seq(if n < 0 then 0 else n, _ => c as int)
  }

  /** The margin at depth n: the number of spaces or tabs that the style asks for. */
  function Margin(style: Style, n: int): Text {
    if !style.styled || style.noIndentation then []
    else if style.tabIndent then Copies('\t', n)
    else Copies(' ', style.indent + style.step * n)
  }

  /** The end of a line, if the style has lines. */
  function Break(style: Style): Text {
    if style.styled && !style.noLinefeeds then [LF] else []
  }

  lemma MarginIs(style: Style, n: int)
    ensures Indent(style, n) == Margin(style, n) && Separator(style) == Break(style)
  {
  }

  // ----- the items of a tree

  /** The item or member number i of a container, and its name. */
  predicate HasKid(o: Ordered, i: nat) {
    (o.OArr? && i < |o.items|) || (o.OObj? && i < |o.members|)
  }

  function Kid(o: Ordered, i: nat): Ordered
    requires HasKid(o, i)
  {
    if o.OArr? then o.items[i] else o.members[i].value
  }

  predicate IsLast(o: Ordered, i: nat) {
    (o.OArr? && i + 1 == |o.items|) || (o.OObj? && i + 1 == |o.members|)
  }

  /** A value as it stands on its line: with its name, if it has one, a colon between spaces, and the text of the value. */
  function Entered(style: Style, depth: int, o: Ordered, i: nat): Text
    requires HasKid(o, i)
  {
    var text := ValueOut(style, depth, Kid(o, i));
    if o.OArr? then text else StringOut(style, depth, o.members[i].key) + [' ' as int, ':' as int, ' ' as int] + text
  }

  predicate HasPath(o: Ordered, path: seq<nat>)
    decreases path
  {
    path == [] || (HasKid(o, path[0]) && HasPath(Kid(o, path[0]), path[1..]))
  }

  /** The container that the last step of a path is taken in. */
  function Parent(o: Ordered, path: seq<nat>): Ordered
    requires path != [] && HasPath(o, path)
    decreases path
  {
    if |path| == 1 then o else Parent(Kid(o, path[0]), path[1..])
  }

  lemma {:induction false} ParentHasKid(o: Ordered, path: seq<nat>)
    requires path != [] && HasPath(o, path)
    ensures HasKid(Parent(o, path), path[|path| - 1])
    decreases path
  {
    if |path| > 1 {
      ParentHasKid(Kid(o, path[0]), path[1..]);
      assert path[1..][|path| - 2] == path[|path| - 1];
    }
  }

  // ----- one item among its siblings

  /** What follows an item: a comma unless it is the last, and the end of the line. */
  function Closing(style: Style, last: bool): Text {
    (if last then [] else [',' as int]) + Break(style)
  }

  /** Texts, each on a line with margin m, with commas between them and s at the end of each line. */
  function Joined(m: Text, s: Text, es: seq<Text>): Text {
    if es == [] then []
    else m + es[0] + (if |es| > 1 then [COMMA] else []) + s + Joined(m, s, es[1..])
  }

  /** From a line on: the end of the line before, the margin, the text, and what follows it. */
  function Onward(s: Text, m: Text, e: Text, last: bool, b: Text): Text {
    s + (m + (e + ((if last then [] else [COMMA]) + s + b)))
  }

  lemma {:induction false} JoinedAt(m: Text, s: Text, es: seq<Text>, i: nat) returns (a: Text, b: Text)
    requires i < |es|
    ensures s + Joined(m, s, es) == a + Onward(s, m, es[i], i + 1 == |es|, b)
    decreases |es|
  {
    var c: Text := if |es| > 1 then [COMMA] else [];
    var more := Joined(m, s, es[1..]);
    if i == 0 {
      a, b := [], more;
      FirstLine(s, m, es[0], c, more);
    } else {
      var a1;
      a1, b := JoinedAt(m, s, es[1..], i - 1);
      a := s + m + es[0] + c + a1;
      NextLine(s, m, es[0], c, more, a1, Onward(s, m, es[i], i + 1 == |es|, b));
    }
  }

  lemma FirstLine(s: Text, m: Text, e: Text, c: Text, more: Text)
    ensures s + (m + e + c + s + more) == [] + (s + (m + (e + (c + s + more))))
  {
  }

  lemma NextLine(s: Text, m: Text, e: Text, c: Text, more: Text, a: Text, t: Text)
    requires s + more == a + t
    ensures s + (m + e + c + s + more) == s + m + e + c + a + t
  {
    assert s + (m + e + c + s + more) == s + m + e + c + (s + more);
    assert s + m + e + c + (a + t) == s + m + e + c + a + t;
  }

  function ItemTexts(style: Style, depth: int, items: seq<Ordered>): (es: seq<Text>)
    ensures |es| == |items| && forall i :: 0 <= i < |es| ==> es[i] == ValueOut(style, depth, items[i])
  {
    seq(|items|, i requires 0 <= i < |items| => ValueOut(style, depth, items[i]))
  }

  function MemberText(style: Style, depth: int, e: Entry): Text {
    StringOut(style, depth, e.key) + [' ' as int, ':' as int, ' ' as int] + ValueOut(style, depth, e.value)
  }

  function MemberTexts(style: Style, depth: int, members: seq<Entry>): (es: seq<Text>)
    ensures |es| == |members| && forall i :: 0 <= i < |es| ==> es[i] == MemberText(style, depth, members[i])
  {
    seq(|members|, i requires 0 <= i < |members| => MemberText(style, depth, members[i]))
  }

  lemma {:induction false} ItemsAreJoined(style: Style, depth: int, items: seq<Ordered>)
    ensures ItemsOut(style, depth, items) == Joined(Margin(style, depth), Break(style), ItemTexts(style, depth, items))
  {
    hide ValueOut, Indent, Separator, Margin, Break;
    MarginIs(style, depth);
    if items != [] {
      ItemsAreJoined(style, depth, items[1..]);
      assert ItemTexts(style, depth, items)[1..] == ItemTexts(style, depth, items[1..]);
      assert Margin(style, depth) + [] == Margin(style, depth);
    }
  }

  lemma {:induction false} MembersAreJoined(style: Style, depth: int, members: seq<Entry>)
    ensures MembersOut(style, depth, members) == Joined(Margin(style, depth), Break(style), MemberTexts(style, depth, members))
  {
    hide ValueOut, StringOut, Indent, Separator, Margin, Break;
    MarginIs(style, depth);
    if members != [] {
      MembersAreJoined(style, depth, members[1..]);
      assert MemberTexts(style, depth, members)[1..] == MemberTexts(style, depth, members[1..]);
      var e := members[0];
      KeyFirst(Margin(style, depth), StringOut(style, depth, e.key), ValueOut(style, depth, e.value));
    }
  }

  lemma KeyFirst(m: Text, k: Text, v: Text)
    ensures m + (k + [SPACE, COLON, SPACE]) + v == m + (k + [' ' as int, ':' as int, ' ' as int] + v)
  {
  }

  /** The text of a container at one of its items. */
  lemma KidLine(style: Style, depth: int, o: Ordered, i: nat) returns (a: Text, b: Text)
    requires HasKid(o, i)
    ensures ValueOut(style, depth, o)
      == a + Onward(Break(style), Margin(style, depth + 1), Entered(style, depth + 1, o, i), IsLast(o, i), b)
  {
    hide ItemsOut, MembersOut, Indent, Separator, Margin, Break, StringOut, Onward;
    MarginIs(style, depth);
    var es := if o.OArr? then ItemTexts(style, depth + 1, o.items) else MemberTexts(style, depth + 1, o.members);
    var inner := Joined(Margin(style, depth + 1), Break(style), es);
    var open, close := if o.OArr? then LBRACKET else LBRACE, if o.OArr? then RBRACKET else RBRACE;
    if o.OArr? { ItemsAreJoined(style, depth + 1, o.items); } else { MembersAreJoined(style, depth + 1, o.members); }
    assert ValueOut(style, depth, o) == [open] + Break(style) + inner + Margin(style, depth) + [close];
    var a1, b1 := JoinedAt(Margin(style, depth + 1), Break(style), es, i);
    var e, end := es[i], Margin(style, depth) + [close];
    a, b := [open] + a1, b1 + end;
    Enclose(open, Break(style), inner, Margin(style, depth), close, a1, Margin(style, depth + 1), e, IsLast(o, i), b1);
    assert e == Entered(style, depth + 1, o, i) by { hide ValueOut; }
  }

  lemma Enclose(open: Byte, s: Text, inner: Text, m0: Text, close: Byte, a: Text, m: Text, e: Text, last: bool, b: Text)
    requires s + inner == a + Onward(s, m, e, last, b)
    ensures [open] + s + inner + m0 + [close] == [open] + a + Onward(s, m, e, last, b + (m0 + [close]))
  {
    assert [open] + s + inner + m0 + [close] == [open] + (s + inner) + (m0 + [close]);
    OnwardMore(s, m, e, last, b, m0 + [close]);
    hide Onward;
    assert [open] + (a + Onward(s, m, e, last, b)) + (m0 + [close]) == [open] + a + (Onward(s, m, e, last, b) + (m0 + [close]));
  }

  lemma OnwardMore(s: Text, m: Text, e: Text, last: bool, b: Text, c: Text)
    ensures Onward(s, m, e, last, b) + c == Onward(s, m, e, last, b + c)
  {
    var x: Text := if last then [] else [COMMA];
    assert x + s + b + c == x + s + (b + c);
  }

  lemma OnwardInside(s: Text, m: Text, k: Text, v: Text, last: bool, b: Text)
    ensures Onward(s, m, k + v, last, b) == s + m + k + (v + ((if last then [] else [COMMA]) + s + b))
  {
  }

  /** The name in front of a member. */
  function NameText(style: Style, depth: int, o: Ordered, i: nat): Text
    requires HasKid(o, i)
  {
    if o.OArr? then [] else StringOut(style, depth, o.members[i].key) + [' ' as int, ':' as int, ' ' as int]
  }

  lemma NameFirst(style: Style, depth: int, o: Ordered, i: nat)
    requires HasKid(o, i)
    ensures Entered(style, depth, o, i) == NameText(style, depth, o, i) + ValueOut(style, depth, Kid(o, i))
  {
    hide ValueOut, StringOut;
  }

  /** The text of a tree at the item that a path leads to. */
  lemma {:induction false} PathLine(style: Style, depth: int, o: Ordered, path: seq<nat>) returns (a: Text, b: Text)
    requires path != [] && HasPath(o, path)
    ensures HasKid(Parent(o, path), path[|path| - 1])
    ensures ValueOut(style, depth, o)
      == a + Onward(Break(style), Margin(style, depth + |path|), Entered(style, depth + |path|, Parent(o, path), path[|path| - 1]),
                    IsLast(Parent(o, path), path[|path| - 1]), b)
    decreases path
  {
    hide ValueOut, Entered, Onward, Margin, Break;
    ParentHasKid(o, path);
    var i := path[0];
    var a1, b1 := KidLine(style, depth, o, i);
    if |path| == 1 {
      a, b := a1, b1;
    } else {
      var k := Kid(o, i);
      var a2, b2 := PathLine(style, depth + 1, k, path[1..]);
      assert path[1..][|path| - 2] == path[|path| - 1];
      var s, m, n := Break(style), Margin(style, depth + 1), NameText(style, depth + 1, o, i);
      NameFirst(style, depth + 1, o, i);
      OnwardInside(s, m, n, ValueOut(style, depth + 1, k), IsLast(o, i), b1);
      var c := (if IsLast(o, i) then [] else [COMMA]) + s + b1;
      var e, last := Entered(style, depth + |path|, Parent(o, path), path[|path| - 1]), IsLast(Parent(o, path), path[|path| - 1]);
      var far := Margin(style, depth + |path|);
      a, b := a1 + (s + m + n) + a2, b2 + c;
      OnwardMore(s, far, e, last, b2, c);
      assert a1 + (s + m + n + (a2 + Onward(s, far, e, last, b2) + c)) == a + (Onward(s, far, e, last, b2) + c);
    }
  }

  /** What an item is written as begins with no blank. */
  predicate Inked(t: Text) {
    t != [] && t[0] != 9 && t[0] != 10 && t[0] != 13 && t[0] != 32
  }

  lemma EnteredIsInked(style: Style, depth: int, o: Ordered, i: nat)
    requires HasKid(o, i)
    requires Kid(o, i).Leaf? ==> ProperLeaves(Kid(o, i)) && (Kid(o, i).v.Double? ==> Inked(style.formatDouble(Kid(o, i).v.d)))
    ensures Inked(Entered(style, depth, o, i))
  {
    if o.OArr? {
      var k := Kid(o, i);
      if k.Leaf? { LeafIsInked(style, depth, k.v); }
    }
  }

  lemma LeafIsInked(style: Style, depth: int, v: JValue)
    requires !v.Arr? && !v.Obj? && (v.Double? ==> Inked(style.formatDouble(v.d)))
    ensures Inked(LeafOut(style, depth, v))
  {
    match v {
      case Int(i) => FirstDigit(Digits(if i < 0 then -i else i));
      case UInt(u) => FirstDigit(Digits(u));
      case _ =>
    }
  }

  lemma FirstDigit(ds: Text)
    requires ds != [] && AllDigits(ds)
    ensures Inked(ds)
  {
    assert IsDigit(ds[0]);
  }

  /** Main result on indentation: the text of the item that a path leads to follows the end of a line and exactly as many
      spaces, or tabs, as the style asks for at that depth; a comma follows it unless it is the last, and the line ends.
      The root has the margin of depth 0. */
  lemma LineOfItem(style: Style, o: Ordered, path: seq<nat>) returns (a: Text, x: Text, b: Text)
    requires HasPath(o, path)
    ensures path == [] ==> Written(style, o) == Margin(style, 0) + x + Break(style) && x == ValueOut(style, 0, o)
    ensures path != [] ==> HasKid(Parent(o, path), path[|path| - 1])
    ensures path != [] ==>
      var p, i := Parent(o, path), path[|path| - 1];
      && Written(style, o)
           == a + Break(style) + Margin(style, |path|) + x + (if IsLast(p, i) then [] else [',' as int]) + Break(style) + b
      && x == Entered(style, |path|, p, i)
  {
    hide ValueOut, Indent, Separator, Margin, Break, Entered, Parent;
    MarginIs(style, 0);
    var root := ValueOut(style, 0, o);
    assert Written(style, o) == Margin(style, 0) + root + Break(style) by { RootLine(Margin(style, 0), root, Break(style)); }
    if path == [] {
      a, x, b := [], root, [];
    } else {
      var a1, b1 := PathLine(style, 0, o, path);
      var p, i := Parent(o, path), path[|path| - 1];
      x := Entered(style, |path|, p, i);
      a, b := Margin(style, 0) + a1, b1 + Break(style);
      AllOfIt(Margin(style, 0), a1, Break(style), Margin(style, |path|), x, IsLast(p, i), b1);
    }
  }

  lemma RootLine(m: Text, v: Text, s: Text)
    ensures m + [] + v + [] + s == m + v + s
  {
  }

  lemma AllOfIt(m0: Text, a: Text, s: Text, m: Text, x: Text, last: bool, b: Text)
    ensures m0 + (a + Onward(s, m, x, last, b)) + s
      == m0 + a + s + m + x + (if last then [] else [',' as int]) + s + (b + s)
  {
  }

  /** How many characters the margin of depth n has. */
  function Width(style: Style, n: int): nat {
    var wanted := if style.tabIndent then n else style.indent + style.step * n;
    if wanted < 0 then 0 else wanted
  }

  /** The same, character by character, for a text in lines: behind the line feed stand exactly that many tabs or spaces,
      and then something that is no blank. */
  lemma IndentedExactly(style: Style, o: Ordered, path: seq<nat>) returns (k: nat)
    requires path != [] && HasPath(o, path) && ProperLeaves(o)
    requires style.styled && !style.noIndentation && !style.noLinefeeds
    requires forall d :: Inked(style.formatDouble(d))
    ensures var t, n := Written(style, o), Width(style, |path|);
      && k + 1 + n < |t| && t[k] == 10
      && (forall j :: k < j <= k + n ==> t[j] == if style.tabIndent then 9 else 32)
      && Inked(t[k + 1 + n..])
      && HasKid(Parent(o, path), path[|path| - 1])
      && Entered(style, |path|, Parent(o, path), path[|path| - 1]) <= t[k + 1 + n..]
  {
    hide Written, Entered, Inked, ProperLeaves, Parent, HasKid, IsLast, Kid;
    var a, x, b := LineOfItem(style, o, path);
    ParentHasKid(o, path);
    ProperAlong(o, path);
    LeafAlong(style, Parent(o, path), path[|path| - 1]);
    EnteredIsInked(style, |path|, Parent(o, path), path[|path| - 1]);
    k := |a|;
    var n, m := Width(style, |path|), Margin(style, |path|);
    var after := (if IsLast(Parent(o, path), path[|path| - 1]) then [] else [',' as int]) + Break(style) + b;
    var t := a + [LF] + m + x + after;
    assert Written(style, o) == t by {
      Regroup4(a + [LF] + m + x, if IsLast(Parent(o, path), path[|path| - 1]) then [] else [',' as int], Break(style), b);
    }
    assert |m| == n && t[k] == LF;
    assert t[k + 1 + n..] == x + after;
    forall j | k < j <= k + n ensures t[j] == if style.tabIndent then 9 else 32 { assert t[j] == m[j - k - 1]; }
    InkedFront(x, after);
  }

  lemma Regroup4(p: Text, c: Text, s: Text, b: Text)
    ensures p + c + s + b == p + (c + s + b)
  {
  }

  lemma InkedFront(x: Text, after: Text)
    requires Inked(x)
    ensures Inked(x + after) && |x| > 0
  {
  }

  lemma {:induction false} ProperAlong(o: Ordered, path: seq<nat>)
    requires path != [] && HasPath(o, path) && ProperLeaves(o)
    ensures ProperLeaves(Parent(o, path))
    decreases path
  {
    if |path| > 1 {
      assert ProperLeaves(Kid(o, path[0]));
      ProperAlong(Kid(o, path[0]), path[1..]);
    }
  }

  lemma LeafAlong(style: Style, p: Ordered, i: nat)
    requires HasKid(p, i) && ProperLeaves(p) && forall d :: Inked(style.formatDouble(d))
    ensures Kid(p, i).Leaf? ==> ProperLeaves(Kid(p, i)) && (Kid(p, i).v.Double? ==> Inked(style.formatDouble(Kid(p, i).v.d)))
  {
    hide Inked;
  }

  // ----- rows of strings and buffers

  /** The quotes closed at the end of a line, and opened again on the next, two levels deeper. */
  function Cut(style: Style, depth: int, quote: char): Text
    requires quote as int < 256
  {
    [quote as int, '\n' as int] + Margin(style, depth + 2) + [quote as int]
  }

  lemma CutIs(style: Style, depth: int)
    ensures Reopen(style, depth, QUOTE) == Cut(style, depth, '\"') && Reopen(style, depth, APOSTROPHE) == Cut(style, depth, '\'')
  {
    MarginIs(style, depth + 2);
    hide Indent, Margin;
  }

  /** A string is broken after each of its line feeds, if the style splits strings. */
  lemma {:induction false} SplitAtFeed(style: Style, depth: int, s: Text, t: Text)
    ensures StringBodyOut(style, depth, s + [LF] + t) == StringBodyOut(style, depth, s) + CharOut(style, LF)
      + (if style.styled && style.splitString then Cut(style, depth, '\"') else []) + StringBodyOut(style, depth, t)
    decreases |s|
  {
    hide *;
    BodyUnfolds(style, depth, s + [LF] + t);
    if s == [] {
      FirstOf([], t);
      NoBody(style, depth);
      FeedText(CharOut(style, LF), if style.styled && style.splitString then Cut(style, depth, '\"') else [],
               StringBodyOut(style, depth, t));
    } else {
      SplitAtFeed(style, depth, s[1..], t);
      BodyUnfolds(style, depth, s);
      FirstOf(s, t);
      FeedLater(CharOut(style, s[0]), if style.styled && style.splitString && s[0] == LF then Cut(style, depth, '\"') else [],
                StringBodyOut(style, depth, s[1..]), CharOut(style, LF),
                if style.styled && style.splitString then Cut(style, depth, '\"') else [], StringBodyOut(style, depth, t));
    }
  }

  lemma FirstOf(s: Text, t: Text)
    ensures var u := s + [LF] + t;
      if s == [] then u[0] == LF && u[1..] == t else u[0] == s[0] && u[1..] == s[1..] + [LF] + t
  {
  }

  lemma BodyUnfolds(style: Style, depth: int, s: Text)
    requires s != []
    ensures StringBodyOut(style, depth, s) == CharOut(style, s[0])
      + (if style.styled && style.splitString && s[0] == LF then Cut(style, depth, '\"') else [])
      + StringBodyOut(style, depth, s[1..])
  {
    CutIs(style, depth);
    hide CharOut, Reopen, Cut;
  }

  lemma NoBody(style: Style, depth: int)
    ensures StringBodyOut(style, depth, []) == []
  {
  }

  lemma FeedText(c: Text, x: Text, t: Text)
    ensures c + x + t == [] + c + x + t
  {
  }

  lemma FeedLater(c: Text, x: Text, a: Text, f: Text, cut: Text, t: Text)
    ensures c + x + (a + f + cut + t) == c + x + a + f + cut + t
  {
  }

  /** A string without line feeds is not broken: each of its characters is written, and nothing else. */
  lemma {:induction false} UnbrokenString(style: Style, depth: int, s: Text)
    requires s != [] && s[0] != LF
    ensures StringBodyOut(style, depth, s) == CharOut(style, s[0]) + StringBodyOut(style, depth, s[1..])
    ensures StringBodyOut(style, depth, []) == []
  {
    hide CharOut;
    assert CharOut(style, s[0]) + [] == CharOut(style, s[0]);
  }

  /** The digits of some bytes. */
  lemma {:induction false} NoCut(style: Style, depth: int, bs: Text, written: nat)
    requires if Splits(style) then written + |bs| < 24 else written < 20
    ensures HexOut(style, depth, bs, written) == HexText(bs)
    decreases |bs|
  {
    hide HexOut;
    if bs == [] {
      HexEnd(style, depth, written);
    } else {
      HexStep(style, depth, bs, written);
      var w := if Splits(style) then written + 1 else written;
      assert !(w >= ROW && |bs| >= MIN_REST);
      NoCut(style, depth, bs[1..], w);
      assert [HexChar(bs[0] / 16), HexChar(bs[0] % 16)] + [] == [HexChar(bs[0] / 16), HexChar(bs[0] % 16)];
    }
  }

  /** Where strings are split, a buffer of at least 24 bytes has a row of twenty, which is closed like the row of a
      string; what is left is written the same way. Fewer bytes, or another style, make one row. */
  lemma {:induction false} RowsOfTwenty(style: Style, depth: int, bs: Text, written: nat)
    requires written < 20 && Splits(style) && written + |bs| >= 24
    ensures HexOut(style, depth, bs, written) == HexText(bs[..20 - written])
      + Cut(style, depth, '\'') + HexOut(style, depth, bs[20 - written..], 0)
    decreases |bs|
  {
    CutIs(style, depth);
    hide HexOut, Cut, Reopen;
    HexStep(style, depth, bs, written);
    var first := [HexChar(bs[0] / 16), HexChar(bs[0] % 16)];
    var close := Cut(style, depth, '\'');
    assert HexText(bs[..20 - written]) == first + HexText(bs[1..20 - written]) by {
      assert bs[..20 - written][1..] == bs[1..20 - written];
    }
    if written + 1 < 20 {
      RowsOfTwenty(style, depth, bs[1..], written + 1);
      assert bs[1..][..19 - written] == bs[1..20 - written] && bs[1..][19 - written..] == bs[20 - written..];
      RowStep(first, HexText(bs[1..20 - written]), close, HexOut(style, depth, bs[20 - written..], 0));
    } else {
      assert bs[1..20 - written] == [] && HexText([]) == [];
      assert first + [] == first;
    }
  }

  lemma RowStep(a: Text, b: Text, c: Text, d: Text)
    ensures a + [] + (b + c + d) == a + b + c + d
  {
  }

  /** A string is written up to its first NUL. */
  lemma {:induction false} CutAtNul(s: Text, t: Text)
    requires 0 !in s
    ensures UpToNul(s + [0] + t) == s && UpToNul(s) == s
  {
    if s == [] {
      assert (s + [0] + t)[0] == 0;
    } else {
      assert (s + [0] + t)[1..] == s[1..] + [0] + t;
      CutAtNul(s[1..], t);
    }
  }

  // ----- characters of strings

  /** Which characters of a string are escaped, and how: quotes and backslashes always, slashes if the style says so, line
      feeds and tabs unless strings may stand on several lines, other controls always. */
  lemma EscapesExactly(style: Style, b: Byte)
    ensures Is(CharOut(style, '\"' as int), "\\\"") && Is(CharOut(style, '\\' as int), "\\\\")
    ensures Is(CharOut(style, '/' as int), if style.escapeSolidus then "\\/" else "/")
    ensures Is(CharOut(style, 10), if style.multilineString then "\n" else "\\n")
    ensures Is(CharOut(style, 9), if style.multilineString then "\t" else "\\t")
    ensures Is(CharOut(style, 8), "\\b") && Is(CharOut(style, 12), "\\f") && Is(CharOut(style, 13), "\\r")
    ensures b < 32 && b != 8 && b != 9 && b != 10 && b != 12 && b != 13 ==>
      |CharOut(style, b)| == 6 && Is(CharOut(style, b)[..4], "\\u00")
      && CharOut(style, b)[4] == "0123456789ABCDEF"[b / 16] as int && CharOut(style, b)[5] == "0123456789ABCDEF"[b % 16] as int
    ensures b >= 32 && b != '\"' as int && b != '\\' as int && b != '/' as int ==> CharOut(style, b) == [b]
  {
    if b < 32 {
      HexLetter(b / 16);
      HexLetter(b % 16);
    }
  }

  /** The two digits of a byte. */
  lemma HexLetter(d: int)
    requires 0 <= d < 16
    ensures HexChar(d) == "0123456789ABCDEF"[d] as int
  {
  }
}
