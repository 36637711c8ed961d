/** The round trip for JSON trees: every tree can be written, in some order of its members, and comes back. */
module Orders {
  import opened Bytes
  import opened Decimal
  import opened JsonValue
  import opened SameAs
  import opened ReaderSpec
  import opened Grammar
  import opened Completeness
  import opened Diagnostics
  import opened WriterSpec
  import opened Layout
  import opened RoundTrip

  /** The trees the round trip promises to keep. */
  ghost predicate Keepable(lib: Lib, style: Style, v: JValue) {
    match v
    case Arr(items) => forall i :: 0 <= i < |items| ==> Keepable(lib, style, items[i])
    case Obj(m) => forall k :: k in m ==> KeyFits(lib, k) && Keepable(lib, style, m[k])
    case _ => LeafFits(lib, style, v) && !v.Buff?
  }

  /** o is v with its members in some order, and fit to be written. */
  ghost predicate Orders(lib: Lib, style: Style, o: Ordered, v: JValue) {
    ValueOf(o) == v && Fits(lib, style, o) && NoBuff(o)
  }

  lemma {:induction false} OrderOf(lib: Lib, style: Style, v: JValue) returns (o: Ordered)
    requires Keepable(lib, style, v)
    ensures Orders(lib, style, o, v) && (v.Arr? || v.Obj? ==> !o.Leaf?)
    decreases v, 1
  {
    match v {
      case Arr(items) =>
        var os := OrderItems(lib, style, items, |items|);
        o := OArr(os);
        forall i | 0 <= i < |items| ensures ValueOf(os[i]) == items[i] && Fits(lib, style, os[i]) && NoBuff(os[i]) {
          assert Orders(lib, style, os[i], items[i]);
        }
        assert ValueOf(o).items == items;
      case Obj(m) =>
        var es := OrderMembers(lib, style, v, m.Keys, map[]);
        o := OObj(es);
        assert map[] + Part(m, m.Keys) == m;
      case _ => o := Leaf(v);
    }
  }

  lemma {:induction false} OrderItems(lib: Lib, style: Style, items: seq<JValue>, n: nat) returns (os: seq<Ordered>)
    requires n <= |items| && forall i :: 0 <= i < n ==> Keepable(lib, style, items[i])
    ensures |os| == n && forall i :: 0 <= i < n ==> Orders(lib, style, os[i], items[i])
    decreases items, n
  {
    os := [];
    if n > 0 {
      os := OrderItems(lib, style, items, n - 1);
      var o := OrderOf(lib, style, items[n - 1]);
      os := os + [o];
    }
  }

  ghost function Part(m: map<Text, JValue>, ks: set<Text>): map<Text, JValue>
    requires ks <= m.Keys
  {
    map k | k in ks :: m[k]
  }

  lemma {:induction false} OrderMembers(lib: Lib, style: Style, v: JValue, ks: set<Text>, acc: map<Text, JValue>) returns (es: seq<Entry>)
    requires v.Obj? && ks <= v.members.Keys && Keepable(lib, style, v)
    ensures AssembleMembers(es, AsIs(), acc) == acc + Part(v.members, ks)
    ensures forall i :: 0 <= i < |es| ==> KeyFits(lib, es[i].key) && Fits(lib, style, es[i].value) && NoBuff(es[i].value)
    decreases v, 0, |ks|
  {
    es := [];
    if ks == {} {
      assert acc + Part(v.members, ks) == acc;
    } else {
      hide Fits, NoBuff, Part, AssembleMembers, ValueOf, KeyFits, Keepable;
      var k :| k in ks;
      var x := v.members[k];
      MemberFits(lib, style, v, k);
      var o := OrderOf(lib, style, x);
      var rest := OrderMembers(lib, style, v, ks - {k}, acc[k := x]);
      es := [Entry(k, o)] + rest;
      InFront(Entry(k, o), rest, acc);
      OnePart(v.members, ks, k, acc);
      AllFit(lib, style, Entry(k, o), rest);
    }
  }

  lemma AllFit(lib: Lib, style: Style, e: Entry, rest: seq<Entry>)
    requires KeyFits(lib, e.key) && Fits(lib, style, e.value) && NoBuff(e.value)
    requires forall i :: 0 <= i < |rest| ==> KeyFits(lib, rest[i].key) && Fits(lib, style, rest[i].value) && NoBuff(rest[i].value)
    ensures var es := [e] + rest;
      forall i :: 0 <= i < |es| ==> KeyFits(lib, es[i].key) && Fits(lib, style, es[i].value) && NoBuff(es[i].value)
  {
    hide KeyFits, Fits, NoBuff;
    var es := [e] + rest;
    forall i | 0 <= i < |es| ensures es[i] == if i == 0 then e else rest[i - 1] {}
  }

  lemma MemberFits(lib: Lib, style: Style, v: JValue, k: Text)
    requires v.Obj? && k in v.members && Keepable(lib, style, v)
    ensures KeyFits(lib, k) && Keepable(lib, style, v.members[k])
  {
  }

  lemma InFront(e: Entry, rest: seq<Entry>, acc: map<Text, JValue>)
    ensures AssembleMembers([e] + rest, AsIs(), acc) == AssembleMembers(rest, AsIs(), acc[e.key := ValueOf(e.value)])
  {
    assert ([e] + rest)[1..] == rest;
  }

  lemma OnePart(m: map<Text, JValue>, ks: set<Text>, k: Text, acc: map<Text, JValue>)
    requires ks <= m.Keys && k in ks
    ensures acc[k := m[k]] + Part(m, ks - {k}) == acc + Part(m, ks)
  {
  }

  /** Main result on reading what was written: a tree of null, Booleans, 64-bit integers, texts without NUL, arrays and
      objects without empty names comes back the same, in the sense of IsSameAs, and identical if unsigned numbers are
      marked; nothing is reported but the extensions the style uses. */
  lemma TreesComeBack(lib: Lib, round: Rounding, style: Style, v: JValue, v0: JValue)
    returns (o: Ordered, ch: int, s: St, r: JValue)
    requires CutsAtLf(lib) && Keepable(lib, style, v) && (v.Arr? || v.Obj?) && !IsContainer(v0)
    ensures ValueOf(o) == v && Parse(lib, Written(style, o), v0) == Done(ch, s, r)
    ensures Same(round, r, v) && (style.recognizeUnsigned ==> r == v) && AllExpected(style, Kinds(s.log))
  {
    o := OrderOf(lib, style, v);
    ch, s, r := RoundTripIsSame(lib, round, style, o, v0);
  }
}
