/** Whole documents: what Parse makes of every text of the grammar, and of the texts of RFC 8259 in particular. */
module Rfc8259 {
  import opened Bytes
  import opened Decimal
  import opened JsonValue
  import opened ReaderSpec
  import opened Grammar
  import opened Completeness

  /** Text that neither opens a container nor contains a slash. */
  predicate Prefix(s: Text) {
    forall i :: 0 <= i < |s| ==> s[i] != LBRACE && s[i] != LBRACKET && s[i] != SLASH
  }

  /** What may precede the document: any such text, and comments. */
  predicate LeadOk(g: Gap) {
    match g
    case Blanks(b) => Prefix(b)
    case Commented(b, c, rest) => Prefix(b) && CommentOk(c) && LeadOk(rest)
  }

  lemma {:induction false} StartText(st: St, b: Text, r: Text)
    requires Prefix(b) && st.rest == b + r
    ensures GetStart(0, st) == GetStart(0, st.(rest := r))
    decreases |b|
  {
    if b == [] {
      assert st.rest == r;
    } else {
      var t := b[1..] + r;
      assert st.rest == [b[0]] + t;
      StartByte(st, b[0], t);
      StartText(st.(rest := t), b[1..], r);
    }
  }

  /** One character, whether or not a carriage return is read together with its line feed. */
  lemma StartByte(st: St, b: Byte, t: Text)
    requires b != LBRACE && b != LBRACKET && b != SLASH && st.rest == [b] + t
    ensures GetStart(0, st) == GetStart(0, st.(rest := t))
  {
    var s := st.(rest := t);
    StartReads(st);
    StartReads(s);
    assert st.rest[1..] == t;
    if b != CR {
      NextPlain(b, t);
      StartIdle(b, s);
    } else if t != [] && t[0] == LF {
      assert st.rest[2..] == t[1..];
    } else {
      if t != [] { StartIdle(CR, s); }
    }
  }

  lemma StartReads(st: St)
    ensures GetStart(0, st) == GetStart(Next(st.rest).0, st.(rest := Next(st.rest).1))
  {
  }

  /** A character that starts nothing is passed over. */
  lemma StartIdle(ch: int, st: St)
    requires 0 <= ch < 256 && ch != LBRACE && ch != LBRACKET && ch != SLASH
    ensures GetStart(ch, st) == GetStart(0, st)
  {
    StartReads(st);
  }

  lemma StartComment(st: St, c: Comment, r: Text)
    requires CommentOk(c) && st.rest == CommentText(c) + r
    ensures |st.rest| > 1 && GetStart(0, st) == GetStart(0, Remarked(st.(rest := st.rest[1..]), r))
  {
    CommentSplit(c, r);
    var t := st.rest[1..];
    var s := st.(rest := t);
    var after := Remarked(s, r);
    assert st.rest == [SLASH] + t;
    NextPlain(SLASH, t);
    StartReads(st);
    StartSlash(s);
    hide GetStart, SkipComment, Next, CommentText;
    match c {
      case Block(body) =>
        BlockSkipped(s, body, r);
        StartReads(after);
      case ToLineEnd(body, crlf) =>
        LineSkipped(s, body, crlf, r);
        StartIdle(LF, after);
    }
  }

  lemma StartSlash(st: St)
    ensures GetStart(SLASH, st) == GetStart(SkipComment(st).0, SkipComment(st).1)
  {
    hide SkipComment;
  }

  lemma {:induction false} StartGap(st: St, g: Gap, r: Text) returns (s: St)
    requires LeadOk(g) && st.rest == GapText(g) + r && st.depth >= st.level
    ensures Reached(st, s, r, GapKinds(g), 0)
    ensures GetStart(0, st) == GetStart(0, s)
    decreases g
  {
    hide GetStart, Reached, CommentOk, CommentText, Prefix;
    match g {
      case Blanks(b) =>
        StartText(st, b, r);
        s := st.(rest := r);
        Unchanged(st, r);
      case Commented(b, c, rest) =>
        var t2 := GapText(rest) + r;
        var t1 := CommentText(c) + t2;
        GapSplit(b, c, rest, r);
        StartText(st, b, t1);
        var s1 := st.(rest := t1);
        StartComment(s1, c, t2);
        var s2 := Remarked(s1.(rest := t1[1..]), t2);
        Noted(st, t1[1..][1..], CommentFound, t2);
        Levels(st, s2, t2, [CommentFound], 0);
        s := StartGap(s2, rest, r);
        Follow(st, s2, s, t2, r, [CommentFound], GapKinds(rest), 0, 0);
    }
  }

  lemma StartOpens(st: St, c: Byte, r: Text)
    requires (c == LBRACE || c == LBRACKET) && st.rest == [c] + r
    ensures GetStart(0, st) == (c as int, st.(rest := r))
  {
    NextPlain(c, r);
    StartReads(st);
  }

  /** The text of a container after its opening character. */
  function InsideText(d: Doc, tail: Text): Text
    requires d.DArray? || d.DObject?
  {
    if d.DArray? then ItemsText(d.items) + [RBRACKET] + tail else MembersText(d.members) + [RBRACE] + tail
  }

  /** What the value v0 becomes when a document is read into it: an array is appended to an array, the members of an object
      are put over those of an object, and anything else is lost. */
  ghost function Onto(lib: Lib, v0: JValue, d: Doc): JValue
    requires (d.DArray? || d.DObject?) && DocOk(lib, d)
  {
    match d
    case DArray(_, items) => Arr((match v0 case Arr(xs) => xs case _ => []) + ItemValues(lib, items))
    case DObject(_, members) => Obj(MemberValues(lib, members, match v0 case Obj(m) => m case _ => map[]))
  }

  lemma OntoNothing(lib: Lib, v0: JValue, d: Doc)
    requires (d.DArray? || d.DObject?) && DocOk(lib, d) && !IsContainer(v0)
    ensures Onto(lib, v0, d) == DocValue(lib, d)
  {
    if d.DArray? { assert [] + ItemValues(lib, d.items) == ItemValues(lib, d.items); }
  }

  /** DoRead on the inside of a container, from the start of a parse. */
  lemma ReadRoot(lib: Lib, d: Doc, tail: Text, st: St, v0: JValue) returns (ch: int, s: St)
    requires (d.DArray? || d.DObject?) && DocOk(lib, d)
    requires st.rest == GapText(d.gap) + InsideText(d, tail) && st.level == 0 && st.depth == 0
    ensures DoRead(lib, if d.DArray? then ToArray(v0) else ToObject(v0), st) == Done(ch, s, Onto(lib, v0, d))
    ensures Kinds(s.log) == Kinds(st.log) + DocKinds(lib, d) && s.depth == Containers(d)
  {
    hide Loop, GapText, GapKinds, ItemsText, MembersText, ItemKinds, MemberKinds, ItemsOk, MembersOk;
    var p, inside := if d.DArray? then ToArray(v0) else ToObject(v0), InsideText(d, tail);
    var s1 := Enter(st);
    EnterLoop(lib, p, st);
    var s2 := SkipGap(lib, [], Invalid, p, s1, d.gap, inside);
    if d.DArray? {
      s := ReadItems(lib, p.items, s2, d.items, tail);
      ch := 0;
      Follow(s1, s2, s, inside, tail, GapKinds(d.gap), ItemKinds(lib, d.items), 0, ItemContainers(d.items));
    } else {
      s := ReadMembers(lib, p.members, s2, d.members, tail);
      Follow(s1, s2, s, inside, tail, GapKinds(d.gap), MemberKinds(lib, d.members), 0, MemberContainers(d.members));
      ch := Next(tail).0;
      s := s.(rest := Next(tail).1);
    }
  }

  lemma RootText(d: Doc, tail: Text)
    requires d.DArray? || d.DObject?
    ensures DocText(d) + tail == [if d.DArray? then LBRACKET else LBRACE] + (GapText(d.gap) + InsideText(d, tail))
  {
    hide GapText, ItemsText, MembersText;
    if d.DArray? { ArrayText(d, tail); } else { ObjectText(d, tail); }
  }

  /** Main result on reading: the document's value, its diagnostics and nothing else, whatever surrounds it.
      GetDepth returns the number of containers opened, not how deeply they are nested. */
  lemma ParseDocument(lib: Lib, before: Gap, d: Doc, tail: Text, v0: JValue) returns (ch: int, s: St)
    requires LeadOk(before) && (d.DArray? || d.DObject?) && DocOk(lib, d) && !IsContainer(v0)
    ensures Parse(lib, GapText(before) + DocText(d) + tail, v0) == Done(ch, s, DocValue(lib, d))
    ensures Kinds(s.log) == GapKinds(before) + DocKinds(lib, d)
    ensures s.depth == Containers(d)
  {
    hide *;
    ch, s := ParseOnto(lib, before, d, tail, v0);
    OntoNothing(lib, v0, d);
  }

  /** The same for a value that already holds something, which Parse does not empty. */
  lemma ParseOnto(lib: Lib, before: Gap, d: Doc, tail: Text, v0: JValue) returns (ch: int, s: St)
    requires LeadOk(before) && (d.DArray? || d.DObject?) && DocOk(lib, d)
    ensures Parse(lib, GapText(before) + DocText(d) + tail, v0) == Done(ch, s, Onto(lib, v0, d))
    ensures Kinds(s.log) == GapKinds(before) + DocKinds(lib, d)
    ensures s.depth == Containers(d)
  {
    hide DoRead, GetStart, DocOk, DocKinds, Containers, DocValue, DocText, GapText, GapKinds, InsideText, LeadOk, Onto;
    RootText(d, tail);
    var input, r := GapText(before) + DocText(d) + tail, GapText(d.gap) + InsideText(d, tail);
    var open := if d.DArray? then LBRACKET else LBRACE;
    Regroup(GapText(before), DocText(d), tail);
    var st := St(input, [], 0, 0);
    var s1 := StartGap(st, before, [open] + r);
    StartOpens(s1, open, r);
    assert Kinds([]) == [] && Kinds(s1.log) == [] + GapKinds(before) == GapKinds(before);
    ch, s := ReadRoot(lib, d, tail, s1.(rest := r), v0);
  }

  // ----- RFC 8259

  /** A number of section 6: sign, integer part, and possibly empty fraction and exponent. */
  datatype Numeral = Numeral(negative: bool, whole: Text, fraction: Text, exponent: Text)

  function NumeralText(n: Numeral): Text {
    (if n.negative then [MINUS] else []) + n.whole + n.fraction + n.exponent
  }

  const POINT: Byte := 46
  const LOWER_E: Byte := 101
  const UPPER_E: Byte := 69

  ghost predicate NumeralOk(n: Numeral) {
    && n.whole != [] && AllDigits(n.whole) && (n.whole[0] == 48 ==> |n.whole| == 1)
    && (n.fraction == [] || (|n.fraction| > 1 && n.fraction[0] == POINT && AllDigits(n.fraction[1..])))
    && (n.exponent == [] || ExponentOk(n.exponent))
  }

  ghost predicate ExponentOk(e: Text) {
    && |e| > 1 && (e[0] == LOWER_E || e[0] == UPPER_E)
    && (AllDigits(e[1..]) || (|e| > 2 && (e[1] == PLUS || e[1] == MINUS) && AllDigits(e[2..])))
  }

  ghost predicate IsRfcNumber(t: Text) {
    exists n :: NumeralOk(n) && t == NumeralText(n)
  }

  /** The library's conversion to double takes every number of the RFC. */
  ghost predicate ReadsNumbers(lib: Lib) {
    forall n :: NumeralOk(n) ==> lib.toDouble(NumeralText(n)).Some?
  }

  predicate IsInteger(n: Numeral) {
    n.fraction == [] && n.exponent == []
  }

  ghost function IntegerPart(n: Numeral): int
    requires NumeralOk(n)
  {
    if n.negative then -Value(n.whole) else Value(n.whole)
  }

  /** The number as it should be read: integers exactly when they fit 64 bits, everything else as a double. */
  ghost function Wanted(lib: Lib, n: Numeral): JValue
    requires NumeralOk(n) && ReadsNumbers(lib)
  {
    var v := IntegerPart(n);
    if IsInteger(n) && -TWO63 <= v < TWO63 then Int(v)
    else if IsInteger(n) && TWO63 <= v < TWO64 then UInt(v)
    else Double(lib.toDouble(NumeralText(n)).value)
  }

  /** The integers that the missing comparison of the last digit takes for one of 0 to 3. */
  ghost predicate Wraps(n: Numeral)
    requires NumeralOk(n)
  {
    IsInteger(n) && TWO64 <= Value(n.whole) < FIRST_REJECTED
  }

  lemma {:induction false} LeadingDigit(ds: Text)
    requires ds != [] && AllDigits(ds) && ds[0] != 48
    ensures Value(ds) >= Pow10(|ds| - 1)
  {
    var init := ds[..|ds| - 1];
    if init != [] {
      LeadingDigit(init);
    }
  }

  /** Without a leading zero the limit on the number of digits never bites. */
  lemma AcceptsByValue(ds: Text)
    requires ds != [] && AllDigits(ds) && (ds[0] == 48 ==> |ds| == 1) && Value(ds) < FIRST_REJECTED
    ensures |ds| <= 20
  {
    if |ds| > 20 {
      LeadingDigit(ds);
      Power10Table(19);
      assert Pow10(20) == 10 * Pow10(19);
      MorePower(20, |ds| - 1);
    }
  }

  lemma {:induction false} MorePower(a: nat, b: nat)
    requires a <= b
    ensures Pow10(a) <= Pow10(b)
  {
    if a < b {
      MorePower(a, b - 1);
    }
  }

  lemma NumeralShape(n: Numeral)
    requires NumeralOk(n)
    ensures var t := NumeralText(n);
      && t != [] && OneToken(t) && Sign(t) == (if n.negative then MINUS else SPACE_SIGN)
      && Unsigned(t) == n.whole + n.fraction + n.exponent
      && t[0] == (if n.negative then MINUS else n.whole[0])
  {
    var t, u := NumeralText(n), n.whole + n.fraction + n.exponent;
    assert t == (if n.negative then [MINUS] else []) + u;
    assert IsDigit(u[0]) && u[0] == n.whole[0];
    assert n.negative ==> t[1..] == u;
    assert OneToken(n.whole);
    assert OneToken(n.fraction) by {
      forall i | 0 <= i < |n.fraction| ensures !EndsToken(n.fraction[i]) {
        assert i > 0 ==> n.fraction[i] == n.fraction[1..][i - 1];
      }
    }
    assert OneToken(n.exponent) by {
      forall i | 0 <= i < |n.exponent| ensures !EndsToken(n.exponent[i]) {
        assert i > 0 ==> n.exponent[i] == n.exponent[1..][i - 1];
        assert i > 1 ==> n.exponent[i] == n.exponent[2..][i - 2];
      }
    }
  }

  lemma FractionIsRefused(n: Numeral)
    requires NumeralOk(n) && !IsInteger(n)
    ensures !AllDigits(n.whole + n.fraction + n.exponent)
  {
    var u := n.whole + n.fraction + n.exponent;
    assert u[|n.whole|] == if n.fraction != [] then n.fraction[0] else n.exponent[0];
  }

  lemma IntegersAreExact(n: Numeral)
    requires NumeralOk(n) && IsInteger(n)
    ensures var t, v := NumeralText(n), IntegerPart(n);
      if -TWO63 <= v < TWO63 then Signed(t) == Some(v)
      else if TWO63 <= v < TWO64 then Signed(t) == None && UnsignedResult(t) == Some(v)
      else if Wraps(n) then Signed(t).Some? else Signed(t) == None && UnsignedResult(t) == None
  {
    var t, v := NumeralText(n), Value(n.whole);
    NumeralShape(n);
    assert Unsigned(t) == n.whole;
    if v < FIRST_REJECTED {
      AcceptsByValue(n.whole);
      assert Accepts(t);
      assert v < TWO64 ==> v % TWO64 == v;
      assert v >= TWO64 ==> v % TWO64 == v - TWO64;
    }
  }

  /** Every number of the RFC is read as it should be, except exactly those that wrap around. */
  lemma NumbersAreExact(lib: Lib, n: Numeral)
    requires NumeralOk(n) && ReadsNumbers(lib)
    ensures NumberOk(lib, NumeralText(n))
    ensures var t := NumeralText(n);
      Number(lib, t[0], t) == Some(Wanted(lib, n)) <==> !Wraps(n)
  {
    hide Signed, UnsignedResult;
    var t := NumeralText(n);
    NumeralShape(n);
    assert lib.toDouble(t).Some?;
    if IsInteger(n) {
      IntegersAreExact(n);
    } else {
      DoublesAreRefused(n);
    }
  }

  lemma DoublesAreRefused(n: Numeral)
    requires NumeralOk(n) && !IsInteger(n)
    ensures Signed(NumeralText(n)) == None && UnsignedResult(NumeralText(n)) == None
  {
    NumeralShape(n);
    FractionIsRefused(n);
    assert !Accepts(NumeralText(n));
  }

  /** A string of section 7 whose escapes the library can encode: one piece, no raw control character. */
  predicate RfcString(lib: Lib, l: Literal) {
    l.Last? && LiteralOk(lib, l) && forall i :: 0 <= i < |l.chars| ==> l.chars[i].Raw? ==> l.chars[i].b >= SPACE
  }

  /** Blanks only. */
  predicate Plain(g: Gap) {
    g.Blanks? && Blank(g.blanks)
  }

  ghost predicate RfcDoc(lib: Lib, d: Doc) {
    match d
    case DWord(t) => t == NULL_TEXT || t == TRUE_TEXT || t == FALSE_TEXT
    case DNumber(t) => IsRfcNumber(t)
    case DString(l) => RfcString(lib, l)
    case DBuffer(_) => false
    case DArray(gap, items) => Plain(gap) && RfcItems(lib, items)
    case DObject(gap, members) => Plain(gap) && RfcMembers(lib, members)
  }

  ghost predicate RfcItems(lib: Lib, items: Items) {
    match items
    case NoItems => true
    case Item(pre, d, post, rest) => Plain(pre) && RfcDoc(lib, d) && Plain(post) && RfcItems(lib, rest)
  }

  ghost predicate RfcMembers(lib: Lib, members: Members) {
    match members
    case NoMembers => true
    case Member(pre, name, mid, gap, d, post, rest) =>
      && Plain(pre) && RfcString(lib, name) && Plain(mid) && Plain(gap) && RfcDoc(lib, d) && Plain(post)
      && RfcMembers(lib, rest)
  }

  /** Some object in the text has a member with an empty name. */
  ghost predicate HasEmptyName(lib: Lib, d: Doc) {
    match d
    case DArray(_, items) => EmptyNameInItems(lib, items)
    case DObject(_, members) => EmptyNameInMembers(lib, members)
    case _ => false
  }

  ghost predicate EmptyNameInItems(lib: Lib, items: Items) {
    items.Item? && (HasEmptyName(lib, items.doc) || EmptyNameInItems(lib, items.rest))
  }

  ghost predicate EmptyNameInMembers(lib: Lib, members: Members) {
    && members.Member?
    && (IsEmptyName(lib, members.name) || HasEmptyName(lib, members.doc) || EmptyNameInMembers(lib, members.rest))
  }

  lemma LowerWords()
    ensures Meant(NULL_TEXT) == Some(Null) && !HasCapital(NULL_TEXT)
    ensures Meant(TRUE_TEXT) == Some(Bool(true)) && !HasCapital(TRUE_TEXT)
    ensures Meant(FALSE_TEXT) == Some(Bool(false)) && !HasCapital(FALSE_TEXT)
  {
    assert !Spells(TRUE_TEXT, "null") by { assert TRUE_TEXT[0] == 116; }
    assert Spells(NULL_TEXT, "null") && Spells(TRUE_TEXT, "true") && Spells(FALSE_TEXT, "false");
  }

  lemma {:induction false} RfcIsOk(lib: Lib, d: Doc)
    requires RfcDoc(lib, d) && ReadsNumbers(lib)
    ensures DocOk(lib, d)
    ensures DocKinds(lib, d) == [] <==> !HasEmptyName(lib, d)
    decreases d, 0
  {
    match d {
      case DWord(t) => LowerWords();
      case DNumber(t) =>
        var n :| NumeralOk(n) && t == NumeralText(n);
        NumbersAreExact(lib, n);
      case DString(_) =>
      case DArray(_, items) => RfcItemsOk(lib, items);
      case DObject(_, members) => RfcMembersOk(lib, members);
    }
  }

  lemma {:induction false} RfcItemsOk(lib: Lib, items: Items)
    requires RfcItems(lib, items) && ReadsNumbers(lib)
    ensures ItemsOk(lib, items)
    ensures ItemKinds(lib, items) == [] <==> !EmptyNameInItems(lib, items)
    decreases items, 1
  {
    if items.Item? {
      RfcIsOk(lib, items.doc);
      RfcItemsOk(lib, items.rest);
    }
  }

  lemma {:induction false} RfcMembersOk(lib: Lib, members: Members)
    requires RfcMembers(lib, members) && ReadsNumbers(lib)
    ensures MembersOk(lib, members)
    ensures MemberKinds(lib, members) == [] <==> !EmptyNameInMembers(lib, members)
    decreases members, 1
  {
    if members.Member? {
      RfcIsOk(lib, members.doc);
      RfcMembersOk(lib, members.rest);
    }
  }

  /** Completeness: a text of RFC 8259 rooted in an array or object is read without any diagnostic exactly when
      none of its names is empty, and its value is the value of its syntax tree. */
  lemma RfcTextsParse(lib: Lib, before: Text, d: Doc, tail: Text, v0: JValue) returns (ch: int, s: St)
    requires RfcDoc(lib, d) && (d.DArray? || d.DObject?) && ReadsNumbers(lib) && Blank(before) && !IsContainer(v0)
    ensures DocOk(lib, d)
    ensures Parse(lib, before + DocText(d) + tail, v0) == Done(ch, s, DocValue(lib, d))
    ensures s.log == [] <==> !HasEmptyName(lib, d)
  {
    RfcIsOk(lib, d);
    ch, s := ParseDocument(lib, Blanks(before), d, tail, v0);
    assert [] + DocKinds(lib, d) == DocKinds(lib, d);
    assert |Kinds(s.log)| == |s.log|;
  }
}
