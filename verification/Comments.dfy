/** Comments (apps/jsonreader.cpp, SkipComment): a text with comments means what it means without them, and each is
    reported once. What becomes of a comment that is not closed, or not started properly, and of one whose line ends in a
    carriage return alone. */
module Comments {
  import opened Bytes
  import opened Decimal
  import opened JsonValue
  import opened ReaderSpec
  import opened Grammar
  import opened Completeness
  import opened Rfc8259
  import opened RfcValue

  // ----- a text without its comments

  function BlanksOf(g: Gap): Text {
    match g
    case Blanks(b) => b
    case Commented(b, _, rest) => b + BlanksOf(rest)
  }

  function BareGap(g: Gap): Gap {
    Blanks(BlanksOf(g))
  }

  function BareLiteral(l: Literal): Literal {
    match l
    case Last(_) => l
    case Split(cs, gap, rest) => Split(cs, BareGap(gap), BareLiteral(rest))
  }

  function BareHex(h: Hex): Hex {
    match h
    case LastHex(_) => h
    case SplitHex(bs, gap, rest) => SplitHex(bs, BareGap(gap), BareHex(rest))
  }

  /** The syntax tree with every comment taken out and every blank left in. */
  function Bare(d: Doc): Doc {
    match d
    case DString(l) => DString(BareLiteral(l))
    case DBuffer(h) => DBuffer(BareHex(h))
    case DArray(gap, items) => DArray(BareGap(gap), BareItems(items))
    case DObject(gap, members) => DObject(BareGap(gap), BareMembers(members))
    case _ => d
  }

  function BareItems(items: Items): Items {
    match items
    case NoItems => NoItems
    case Item(pre, d, post, rest) => Item(BareGap(pre), Bare(d), BareGap(post), BareItems(rest))
  }

  function BareMembers(members: Members): Members {
    match members
    case NoMembers => NoMembers
    case Member(pre, name, mid, gap, d, post, rest) =>
      Member(BareGap(pre), BareLiteral(name), BareGap(mid), BareGap(gap), Bare(d), BareGap(post), BareMembers(rest))
  }

  // ----- how many comments there are

  function InGap(g: Gap): nat {
    if g.Blanks? then 0 else 1 + InGap(g.rest)
  }

  function InLiteral(l: Literal): nat {
    if l.Last? then 0 else InGap(l.gap) + InLiteral(l.rest)
  }

  function InHex(h: Hex): nat {
    if h.LastHex? then 0 else InGap(h.gap) + InHex(h.rest)
  }

  function InDoc(d: Doc): nat {
    match d
    case DString(l) => InLiteral(l)
    case DBuffer(h) => InHex(h)
    case DArray(gap, items) => InGap(gap) + InItems(items)
    case DObject(gap, members) => InGap(gap) + InMembers(members)
    case _ => 0
  }

  function InItems(items: Items): nat {
    match items
    case NoItems => 0
    case Item(pre, d, post, rest) => InGap(pre) + InDoc(d) + InGap(post) + InItems(rest)
  }

  function InMembers(members: Members): nat {
    match members
    case NoMembers => 0
    case Member(pre, name, mid, gap, d, post, rest) =>
      InGap(pre) + InLiteral(name) + InGap(mid) + InGap(gap) + InDoc(d) + InGap(post) + InMembers(rest)
  }

  // ----- diagnostics without those of comments

  function Others(ks: seq<Kind>): seq<Kind> {
    if ks == [] then [] else (if ks[0] == CommentFound then [] else [ks[0]]) + Others(ks[1..])
  }

  /** ks holds n comments; without them it is os. */
  predicate Counts(ks: seq<Kind>, os: seq<Kind>, n: nat) {
    Others(ks) == os && |ks| == |os| + n
  }

  lemma {:induction false} OthersJoin(a: seq<Kind>, b: seq<Kind>)
    ensures Others(a + b) == Others(a) + Others(b)
  {
    if a == [] {
      assert a + b == b;
    } else {
      assert (a + b)[1..] == a[1..] + b;
      OthersJoin(a[1..], b);
    }
  }

  lemma CountsJoin(a: seq<Kind>, b: seq<Kind>, x: seq<Kind>, y: seq<Kind>, m: nat, n: nat)
    requires Counts(a, x, m) && Counts(b, y, n)
    ensures Counts(a + b, x + y, m + n)
  {
    OthersJoin(a, b);
  }

  lemma NoComment(ks: seq<Kind>)
    requires |ks| <= 1 && CommentFound !in ks
    ensures Counts(ks, ks, 0)
  {
    if ks != [] { assert ks == [ks[0]] && ks[1..] == []; }
  }

  lemma {:induction false} GapCounts(g: Gap)
    ensures Counts(GapKinds(g), [], InGap(g))
  {
    if g.Commented? {
      GapCounts(g.rest);
      assert GapKinds(g)[1..] == GapKinds(g.rest);
    }
  }

  lemma {:induction false} BareGapOk(g: Gap)
    requires GapOk(g)
    ensures GapOk(BareGap(g)) && Plain(BareGap(g))
  {
    if g.Commented? { BareGapOk(g.rest); }
  }

  // ----- the same value, the other diagnostics

  lemma {:induction false} LiteralBare(lib: Lib, l: Literal)
    requires LiteralOk(lib, l)
    ensures LiteralOk(lib, BareLiteral(l)) && LiteralBytes(lib, BareLiteral(l)) == LiteralBytes(lib, l)
    ensures Counts(LiteralKinds(l), LiteralKinds(BareLiteral(l)), InLiteral(l))
  {
    hide CharsBytes, CharsOk, Counts;
    match l {
      case Last(_) => NoComment([]);
      case Split(_, gap, rest) =>
        LiteralBare(lib, rest);
        BareGapOk(gap);
        GapCounts(gap);
        NoComment([MultilineString]);
        CountsJoin([MultilineString], LiteralKinds(rest), [MultilineString], LiteralKinds(BareLiteral(rest)), 0, InLiteral(rest));
        CountsJoin(GapKinds(gap), [MultilineString] + LiteralKinds(rest), [],
                   [MultilineString] + LiteralKinds(BareLiteral(rest)), InGap(gap), InLiteral(rest));
    }
  }

  lemma {:induction false} HexBare(h: Hex)
    requires HexOk(h)
    ensures HexOk(BareHex(h)) && HexBytes(BareHex(h)) == HexBytes(h)
    ensures Counts(HexKinds(h), HexKinds(BareHex(h)), InHex(h))
  {
    hide Counts;
    NoComment([BufferFound]);
    match h {
      case LastHex(_) =>
      case SplitHex(_, gap, rest) =>
        HexBare(rest);
        BareGapOk(gap);
        GapCounts(gap);
        CountsJoin(GapKinds(gap), HexKinds(rest), [], HexKinds(BareHex(rest)), InGap(gap), InHex(rest));
        CountsJoin([BufferFound], GapKinds(gap) + HexKinds(rest), [BufferFound], [] + HexKinds(BareHex(rest)), 0, InHex(h));
    }
  }

  lemma {:induction false} DocBare(lib: Lib, d: Doc)
    requires DocOk(lib, d)
    ensures DocOk(lib, Bare(d)) && DocValue(lib, Bare(d)) == DocValue(lib, d)
    ensures Counts(DocKinds(lib, d), DocKinds(lib, Bare(d)), InDoc(d))
    ensures OpenKinds(Bare(d)) == OpenKinds(d) && Containers(Bare(d)) == Containers(d)
    decreases d, 0
  {
    hide Counts, Meant, NumberOk, Number, HasCapital, CharsOk;
    match d {
      case DString(l) => LiteralBare(lib, l);
      case DBuffer(h) => HexBare(h);
      case DArray(gap, items) =>
        ItemsBare(lib, items);
        BareGapOk(gap);
        GapCounts(gap);
        CountsJoin(GapKinds(gap), ItemKinds(lib, items), [], ItemKinds(lib, BareItems(items)), InGap(gap), InItems(items));
      case DObject(gap, members) =>
        MembersBare(lib, members, map[]);
        BareGapOk(gap);
        GapCounts(gap);
        CountsJoin(GapKinds(gap), MemberKinds(lib, members), [], MemberKinds(lib, BareMembers(members)), InGap(gap),
                   InMembers(members));
      case DWord(t) => NoComment(DocKinds(lib, d));
      case DNumber(_) => NoComment([]);
    }
  }

  lemma {:induction false} ItemsBare(lib: Lib, items: Items)
    requires ItemsOk(lib, items)
    ensures ItemsOk(lib, BareItems(items)) && ItemValues(lib, BareItems(items)) == ItemValues(lib, items)
    ensures Counts(ItemKinds(lib, items), ItemKinds(lib, BareItems(items)), InItems(items))
    ensures ItemContainers(BareItems(items)) == ItemContainers(items)
    decreases items, 1
  {
    hide Counts, DocKinds, DocValue, DocOk, GapOk, GapKinds, InDoc;
    match items {
      case NoItems => NoComment([]);
      case Item(pre, d, post, rest) =>
        DocBare(lib, d);
        ItemsBare(lib, rest);
        BareGapOk(pre);
        BareGapOk(post);
        ItemCounts(pre, DocKinds(lib, d), DocKinds(lib, Bare(d)), InDoc(d), post, ItemKinds(lib, rest),
                   ItemKinds(lib, BareItems(rest)), InItems(rest));
        assert GapKinds(BareGap(pre)) == [] && GapKinds(BareGap(post)) == [] by { NoGapKinds(pre); NoGapKinds(post); }
        assert Separates(Bare(d), BareGap(post));
    }
  }

  lemma NoGapKinds(g: Gap)
    ensures GapKinds(BareGap(g)) == []
  {
  }

  /** Three things between two gaps, as the diagnostics of an item have them. */
  lemma ItemCounts(pre: Gap, a: seq<Kind>, x: seq<Kind>, m: nat, post: Gap, b: seq<Kind>, y: seq<Kind>, n: nat)
    requires Counts(a, x, m) && Counts(b, y, n)
    ensures Counts(GapKinds(pre) + a + GapKinds(post) + b, [] + x + [] + y, InGap(pre) + m + InGap(post) + n)
  {
    hide Counts;
    GapCounts(pre);
    GapCounts(post);
    CountsJoin(GapKinds(pre), a, [], x, InGap(pre), m);
    CountsJoin(GapKinds(pre) + a, GapKinds(post), [] + x, [], InGap(pre) + m, InGap(post));
    CountsJoin(GapKinds(pre) + a + GapKinds(post), b, [] + x + [], y, InGap(pre) + m + InGap(post), n);
  }

  lemma {:induction false} MembersBare(lib: Lib, members: Members, m: map<Text, JValue>)
    requires MembersOk(lib, members)
    ensures MembersOk(lib, BareMembers(members))
    ensures MemberValues(lib, BareMembers(members), m) == MemberValues(lib, members, m)
    ensures Counts(MemberKinds(lib, members), MemberKinds(lib, BareMembers(members)), InMembers(members))
    ensures MemberContainers(BareMembers(members)) == MemberContainers(members)
    decreases members, 1
  {
    hide Counts, DocKinds, DocValue, DocOk, GapOk, GapKinds, InDoc, LiteralOk, LiteralKinds, InLiteral;
    match members {
      case NoMembers => NoComment([]);
      case Member(pre, name, mid, gap, d, post, rest) =>
        DocBare(lib, d);
        LiteralBare(lib, name);
        BareGapOk(pre);
        BareGapOk(mid);
        BareGapOk(gap);
        BareGapOk(post);
        var k := LiteralBytes(lib, name);
        MembersBare(lib, rest, if k == [] then m else m[k := Cloned(DocValue(lib, d))]);
        MemberCounts(lib, members);
    }
  }

  lemma {:induction false} MemberCounts(lib: Lib, ms: Members)
    requires ms.Member? && LiteralOk(lib, ms.name) && LiteralOk(lib, BareLiteral(ms.name))
    requires LiteralBytes(lib, BareLiteral(ms.name)) == LiteralBytes(lib, ms.name) && OpenKinds(Bare(ms.doc)) == OpenKinds(ms.doc)
    requires Counts(LiteralKinds(ms.name), LiteralKinds(BareLiteral(ms.name)), InLiteral(ms.name))
    requires Counts(DocKinds(lib, ms.doc), DocKinds(lib, Bare(ms.doc)), InDoc(ms.doc))
    requires Counts(MemberKinds(lib, ms.rest), MemberKinds(lib, BareMembers(ms.rest)), InMembers(ms.rest))
    ensures Counts(MemberKinds(lib, ms), MemberKinds(lib, BareMembers(ms)), InMembers(ms))
  {
    hide Counts, DocKinds, GapKinds, LiteralKinds, InDoc, InLiteral, LiteralOk, LiteralBytes;
    var b := BareMembers(ms);
    var empty := IsEmptyName(lib, ms.name);
    var open, last := if empty then OpenKinds(ms.doc) else [], if empty then [KeyMissing] else [];
    NameCounts(ms.pre, ms.name, ms.mid, ms.gap);
    NoComment(open);
    NoComment(last);
    GapCounts(ms.post);
    NoGapKinds(ms.post);
    var n1, n2 := NameKinds(ms.pre, ms.name, ms.mid, ms.gap), NameKinds(b.pre, b.name, b.mid, b.gap);
    var d1, d2 := DocKinds(lib, ms.doc), DocKinds(lib, b.doc);
    var c0, c1, c2 := InGap(ms.pre) + InLiteral(ms.name) + InGap(ms.mid) + InGap(ms.gap), InDoc(ms.doc), InGap(ms.post);
    CountsJoin(open, d1, open, d2, 0, c1);
    CountsJoin(open + d1, GapKinds(ms.post), open + d2, [], c1, c2);
    CountsJoin(n1, open + d1 + GapKinds(ms.post), n2, open + d2 + [], c0, c1 + c2);
    CountsJoin(n1 + (open + d1 + GapKinds(ms.post)), last, n2 + (open + d2 + []), last, c0 + c1 + c2, 0);
    CountsJoin(n1 + (open + d1 + GapKinds(ms.post)) + last, MemberKinds(lib, ms.rest),
               n2 + (open + d2 + []) + last, MemberKinds(lib, b.rest), c0 + c1 + c2, InMembers(ms.rest));
  }

  lemma NameCounts(pre: Gap, name: Literal, mid: Gap, gap: Gap)
    requires Counts(LiteralKinds(name), LiteralKinds(BareLiteral(name)), InLiteral(name))
    ensures Counts(NameKinds(pre, name, mid, gap), NameKinds(BareGap(pre), BareLiteral(name), BareGap(mid), BareGap(gap)),
                   InGap(pre) + InLiteral(name) + InGap(mid) + InGap(gap))
  {
    hide Counts, GapKinds, LiteralKinds, InLiteral, InGap, BareGap;
    GapCounts(gap);
    NoGapKinds(gap);
    NoGapKinds(pre);
    NoGapKinds(mid);
    GapCounts(pre);
    GapCounts(mid);
    CountsJoin(GapKinds(pre), LiteralKinds(name), [], LiteralKinds(BareLiteral(name)), InGap(pre), InLiteral(name));
    CountsJoin(GapKinds(pre) + LiteralKinds(name), GapKinds(mid), [] + LiteralKinds(BareLiteral(name)), [],
               InGap(pre) + InLiteral(name), InGap(mid));
    CountsJoin(GapKinds(pre) + LiteralKinds(name) + GapKinds(mid), GapKinds(gap), [] + LiteralKinds(BareLiteral(name)) + [], [],
               InGap(pre) + InLiteral(name) + InGap(mid), InGap(gap));
  }

  /** Main result on comments: with its comments a text is read as the value it is read as without them, with the same
      depth and the same diagnostics, and one more for each comment. */
  lemma CommentsOnlyReport(lib: Lib, before: Gap, d: Doc, tail: Text, v0: JValue)
    returns (ch: int, s: St, bareCh: int, bare: St, v: JValue)
    requires LeadOk(before) && (d.DArray? || d.DObject?) && DocOk(lib, d) && !IsContainer(v0)
    ensures Parse(lib, GapText(before) + DocText(d) + tail, v0) == Done(ch, s, v)
    ensures Parse(lib, DocText(Bare(d)) + tail, v0) == Done(bareCh, bare, v)
    ensures Others(Kinds(s.log)) == Kinds(bare.log) && |s.log| == |bare.log| + InGap(before) + InDoc(d)
    ensures s.depth == bare.depth
  {
    DocBare(lib, d);
    BareRoot(d);
    GapCounts(before);
    CountsJoin(GapKinds(before), DocKinds(lib, d), [], DocKinds(lib, Bare(d)), InGap(before), InDoc(d));
    hide Parse, DocText, DocOk, DocKinds, DocValue, GapText, LeadOk, Containers, Others, GapKinds;
    ch, s := ParseDocument(lib, before, d, tail, v0);
    EmptyLead(Bare(d), tail);
    bareCh, bare := ParseDocument(lib, Blanks([]), Bare(d), tail, v0);
    v := DocValue(lib, d);
    assert |Kinds(s.log)| == |s.log| && |Kinds(bare.log)| == |bare.log|;
  }

  lemma BareRoot(d: Doc)
    requires d.DArray? || d.DObject?
    ensures Bare(d).DArray? || Bare(d).DObject?
  {
  }

  lemma EmptyLead(d: Doc, tail: Text)
    ensures LeadOk(Blanks([])) && GapKinds(Blanks([])) == [] && GapText(Blanks([])) + DocText(d) + tail == DocText(d) + tail
  {
    hide DocText;
    assert [] + DocText(d) == DocText(d);
  }

  /** A text of RFC 8259 with comments strewn in has the value that the standard gives it without them, and nothing but
      the comments is reported. */
  lemma CommentedRfcText(lib: Lib, before: Gap, d: Doc, tail: Text, v0: JValue) returns (ch: int, s: St)
    requires LeadOk(before) && (d.DArray? || d.DObject?) && DocOk(lib, d) && !IsContainer(v0)
    requires ReadsNumbers(lib) && RfcDoc(lib, Bare(d)) && !HasEmptyName(lib, Bare(d)) && !HasWrap(lib, Bare(d))
    ensures Parse(lib, GapText(before) + DocText(d) + tail, v0) == Done(ch, s, RfcValue.RfcValue(lib, Bare(d)))
    ensures Others(Kinds(s.log)) == [] && |s.log| == InGap(before) + InDoc(d)
  {
    BareRoot(d);
    hide Parse, DocText, DocOk, RfcDoc, HasWrap, HasEmptyName, GapText, LeadOk, Others;
    var bareCh, bare, v;
    ch, s, bareCh, bare, v := CommentsOnlyReport(lib, before, d, tail, v0);
    var c, t, w := RfcTextsMeanWhatTheySay(lib, [], Bare(d), tail, v0);
    assert [] + DocText(Bare(d)) == DocText(Bare(d));
    assert Kinds(bare.log) == [];
  }

  // ----- comments that do not end, and slashes that start none

  /** Behind the start of a comment, with nothing left to read. */
  function Exhausted(st: St): St
    requires st.rest != []
  {
    Remarked(st, [])
  }

  lemma {:induction false} BlockRunsOut(ch: Byte, t: Text)
    requires forall i :: 0 <= i < |t| ==> !Meets([ch] + t, i)
    ensures BlockComment(ch, t) == (-1, [])
    decreases |t|
  {
    if t != [] {
      assert !Meets([ch] + t, 0);
      if Next(t).0 >= 0 {
        var n := if t[0] == CR && |t| > 1 && t[1] == LF then 2 else 1;
        var c := if n == 2 then LF else t[0];
        forall i | 0 <= i < |t[n..]| ensures !Meets([c] + t[n..], i) { assert !Meets([ch] + t, i + n); }
        BlockRunsOut(c, t[n..]);
      }
    }
  }

  /** A comment of C in which no star meets a slash takes all that is left. */
  lemma OpenBlock(st: St, t: Text)
    requires st.rest == [STAR] + t && forall i :: 0 <= i < |t| ==> !Meets([STAR] + t, i)
    ensures SkipComment(st) == (-1, Exhausted(st))
  {
    NextPlain(STAR, t);
    BlockRunsOut(STAR, t);
    hide BlockComment, Next;
  }

  lemma {:induction false} LineRunsOut(ch: Byte, t: Text)
    requires LF !in t && CR !in t && ch != LF && ch != CR
    ensures LineComment(ch, t) == (-1, [])
    decreases |t|
  {
    if t != [] { LineRunsOut(t[0], t[1..]); }
  }

  lemma OpenLine(st: St, t: Text)
    requires st.rest == [SLASH] + t && LF !in t && CR !in t
    ensures SkipComment(st) == (-1, Exhausted(st))
  {
    NextPlain(SLASH, t);
    LineRunsOut(SLASH, t);
    hide LineComment, Next;
  }

  lemma {:induction false} LineToCr(ch: Byte, x: Text, r: Text)
    requires ch != LF && ch != CR && LF !in x && CR !in x && r != [] && r[0] != LF
    ensures LineComment(ch, x + [CR] + r) == (r[0] as int, r)
    decreases |x|
  {
    var t := x + [CR] + r;
    if x == [] {
      assert t == [CR] + r && t[1..] == r;
    } else {
      assert t == [x[0]] + (x[1..] + [CR] + r);
      NextPlain(x[0], x[1..] + [CR] + r);
      LineToCr(x[0], x[1..], r);
    }
  }

  /** A comment of C++ whose line ends in a carriage return alone: the character after it is handed back, but not read,
      so that it will be read once more. */
  lemma LoneCr(st: St, body: Text, r: Text)
    requires st.rest == [SLASH] + body + [CR] + r && LF !in body && CR !in body && r != [] && r[0] != LF
    ensures SkipComment(st) == (r[0] as int, Remarked(st, r))
  {
    var t := body + [CR] + r;
    assert st.rest == [SLASH] + t;
    NextPlain(SLASH, t);
    LineToCr(SLASH, body, r);
    hide LineComment, Next;
  }

  /** The state behind a slash that starts no comment, with r left. */
  function Stranger(st: St, r: Text): St
    requires st.rest != []
  {
    Note(st.(rest := st.rest[1..]), StrangeSlash).(rest := r)
  }

  lemma {:induction false} StrangeTo(x: Text, end: Text, r: Text)
    requires LF !in x && CR !in x && (end == [LF] || end == [STAR, SLASH])
    requires forall i :: 0 <= i < |x| ==> !Meets(x + end, i)
    ensures StrangeText(x + end + r) == (end[0] as int, end[1..] + r)
    decreases |x|
  {
    var t := x + end + r;
    assert t == (x + end) + r;
    if x == [] {
      assert t == [end[0]] + (end[1..] + r);
      NextPlain(end[0], end[1..] + r);
      assert end == [STAR, SLASH] ==> (end[1..] + r)[0] == SLASH;
    } else {
      var y := x[1..] + end + r;
      assert t == [x[0]] + y;
      NextPlain(x[0], y);
      assert !Meets(x + end, 0);
      assert y != [] && y[0] == (x + end)[1];
      forall i | 0 <= i < |x[1..]| ensures !Meets(x[1..] + end, i) { assert !Meets(x + end, i + 1); }
      StrangeTo(x[1..], end, r);
    }
  }

  /** A slash before anything else is an error, and what follows is skipped up to the end of the line, or to the star of
      an end of a comment, whose slash is handed back. */
  lemma StrangeSlashSkipped(st: St, b: Byte, x: Text, end: Text, r: Text)
    requires b != SLASH && b != STAR && b != CR && LF !in x && CR !in x && (end == [LF] || end == [STAR, SLASH])
    requires forall i :: 0 <= i < |x| ==> !Meets(x + end, i)
    requires st.rest == [b] + (x + end + r)
    ensures SkipComment(st) == if end == [LF] then (Next(r).0, Stranger(st, Next(r).1)) else (SLASH as int, Stranger(st, r))
  {
    NextPlain(b, x + end + r);
    StrangeTo(x, end, r);
    if end == [LF] { assert end[1..] + r == r; } else { NextPlain(SLASH, r); assert end[1..] == [SLASH]; }
    hide StrangeText, Next;
  }
}
