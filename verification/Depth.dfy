/** The depth that GetDepth reports (apps/jsonreader.cpp): the number of calls of DoRead, which is the depth of nesting for
    some texts only. */
module Depth {
  import opened Bytes
  import opened Decimal
  import opened JsonValue
  import opened ReaderSpec
  import opened Grammar
  import opened Rfc8259

  predicate IsNest(d: Doc) {
    d.DArray? || d.DObject?
  }

  /** How many of the items are arrays or objects themselves. */
  function NestsIn(items: Items): nat {
    match items
    case NoItems => 0
    case Item(_, d, _, rest) => (if IsNest(d) then 1 else 0) + NestsIn(rest)
  }

  function NestsAmong(members: Members): nat {
    match members
    case NoMembers => 0
    case Member(_, _, _, _, d, _, rest) => (if IsNest(d) then 1 else 0) + NestsAmong(rest)
  }

  /** No array and no object, at any level, holds more than one array or object. */
  predicate Linear(d: Doc) {
    match d
    case DArray(_, items) => NestsIn(items) <= 1 && LinearItems(items)
    case DObject(_, members) => NestsAmong(members) <= 1 && LinearMembers(members)
    case _ => true
  }

  predicate LinearItems(items: Items) {
    items.Item? ==> Linear(items.doc) && LinearItems(items.rest)
  }

  predicate LinearMembers(members: Members) {
    members.Member? ==> Linear(members.doc) && LinearMembers(members.rest)
  }

  lemma {:induction false} NestingIsNoMore(d: Doc)
    ensures Nesting(d) <= Containers(d)
    ensures Nesting(d) == Containers(d) <==> Linear(d)
    ensures Nesting(d) > 0 <==> IsNest(d)
    decreases d, 0
  {
    match d {
      case DArray(_, items) => NestingInItems(items);
      case DObject(_, members) => NestingInMembers(members);
      case _ =>
    }
  }

  /** The nesting of several items is the largest, the number of containers the sum. */
  lemma {:induction false} NestingInItems(items: Items)
    ensures ItemNesting(items) <= ItemContainers(items)
    ensures ItemNesting(items) == ItemContainers(items) <==> NestsIn(items) <= 1 && LinearItems(items)
    ensures ItemNesting(items) > 0 <==> NestsIn(items) > 0
    decreases items, 1
  {
    if items.Item? {
      NestingIsNoMore(items.doc);
      NestingInItems(items.rest);
      if NestsIn(items.rest) == 0 { FlatIsLinear(items.rest); }
    }
  }

  lemma {:induction false} FlatIsLinear(items: Items)
    requires NestsIn(items) == 0
    ensures LinearItems(items) && ItemContainers(items) == 0
  {
    if items.Item? { FlatIsLinear(items.rest); }
  }

  lemma {:induction false} NestingInMembers(members: Members)
    ensures MemberNesting(members) <= MemberContainers(members)
    ensures MemberNesting(members) == MemberContainers(members) <==> NestsAmong(members) <= 1 && LinearMembers(members)
    ensures MemberNesting(members) > 0 <==> NestsAmong(members) > 0
    decreases members, 1
  {
    if members.Member? {
      NestingIsNoMore(members.doc);
      NestingInMembers(members.rest);
      if NestsAmong(members.rest) == 0 { FlatMembers(members.rest); }
    }
  }

  lemma {:induction false} FlatMembers(members: Members)
    requires NestsAmong(members) == 0
    ensures LinearMembers(members) && MemberContainers(members) == 0
  {
    if members.Member? { FlatMembers(members.rest); }
  }

  /** What GetDepth returns is never less than the depth of nesting, and is that depth exactly for the texts in which no
      array or object holds more than one array or object. */
  lemma DepthIsNestingExactly(lib: Lib, before: Gap, d: Doc, tail: Text, v0: JValue) returns (ch: int, s: St)
    requires LeadOk(before) && IsNest(d) && DocOk(lib, d) && !IsContainer(v0)
    ensures Parse(lib, GapText(before) + DocText(d) + tail, v0) == Done(ch, s, DocValue(lib, d))
    ensures s.depth >= Nesting(d)
    ensures s.depth == Nesting(d) <==> Linear(d)
  {
    hide Parse, DocText, DocValue, DocOk, GapText, LeadOk;
    ch, s := ParseDocument(lib, before, d, tail, v0);
    NestingIsNoMore(d);
  }

  const NONE := Blanks([])

  /** An array of two empty arrays, as a syntax tree and as text. */
  const TWO_IN_ONE := DArray(NONE, Item(NONE, DArray(NONE, NoItems), NONE, Item(NONE, DArray(NONE, NoItems), NONE, NoItems)))
  const TWO_IN_ONE_TEXT: Text := [LBRACKET, LBRACKET, RBRACKET, COMMA, LBRACKET, RBRACKET, RBRACKET]

  lemma TwoInOneText()
    ensures DocText(TWO_IN_ONE) == TWO_IN_ONE_TEXT
  {
    var one := DArray(NONE, NoItems);
    assert GapText(NONE) == [];
    assert DocText(one) == [LBRACKET, RBRACKET];
    var last := Item(NONE, one, NONE, NoItems);
    assert ItemsText(last) == [LBRACKET, RBRACKET];
    assert ItemsText(Item(NONE, one, NONE, last)) == [LBRACKET, RBRACKET, COMMA, LBRACKET, RBRACKET];
  }

  lemma TwoInOneValue(lib: Lib)
    ensures DocOk(lib, TWO_IN_ONE) && DocValue(lib, TWO_IN_ONE) == Arr([Arr([]), Arr([])])
  {
    var one := DArray(NONE, NoItems);
    assert ItemsOk(lib, NoItems) && ItemValues(lib, NoItems) == [];
    assert DocOk(lib, one);
    assert DocValue(lib, one) == Arr(ItemValues(lib, NoItems));
    var last := Item(NONE, one, NONE, NoItems);
    OneItem(lib, last);
    OneItem(lib, Item(NONE, one, NONE, last));
    assert [Arr([])] + [] == [Arr([])] && [Arr([])] + [Arr([])] == [Arr([]), Arr([])];
  }

  lemma OneItem(lib: Lib, items: Items)
    requires items.Item? && items.pre == NONE && items.post == NONE && DocOk(lib, items.doc) && ItemsOk(lib, items.rest)
    ensures ItemsOk(lib, items)
    ensures ItemValues(lib, items) == [Cloned(DocValue(lib, items.doc))] + ItemValues(lib, items.rest)
  {
  }

  /** An array of two empty arrays is nested twice, and reported as three deep. */
  lemma TwoInOneIsThreeDeep(lib: Lib) returns (ch: int, s: St)
    ensures Parse(lib, TWO_IN_ONE_TEXT, Invalid) == Done(ch, s, Arr([Arr([]), Arr([])]))
    ensures s.depth == 3 && Nesting(TWO_IN_ONE) == 2 && DocText(TWO_IN_ONE) == TWO_IN_ONE_TEXT
  {
    TwoInOneText();
    TwoInOneValue(lib);
    CountsOfTwoInOne();
    hide Parse, DocText, DocValue, DocOk, Containers, Nesting;
    assert [] + TWO_IN_ONE_TEXT + [] == TWO_IN_ONE_TEXT;
    ch, s := ParseDocument(lib, NONE, TWO_IN_ONE, [], Invalid);
  }

  lemma CountsOfTwoInOne()
    ensures Containers(TWO_IN_ONE) == 3 && Nesting(TWO_IN_ONE) == 2
  {
    var last := Item(NONE, DArray(NONE, NoItems), NONE, NoItems);
    assert ItemContainers(last) == 1 && ItemNesting(last) == 1;
  }
}
