/** What the operations of wxJSONValue mean for plain trees (apps/jsonval.cpp). The memory-level trees keep members that
    do not show (a stale word, an empty string); Meaning forgets them. */
module TreeOps {
  import opened Bytes
  import opened Decimal
  import opened JsonValue
  import opened Heap

  /** What the operations keep true of every value: only objects have names, one for each handle and no two the same;
      only arrays and objects have handles, only strings characters, only buffers a buffer. */
  ghost predicate WellFormed(t: Tree) {
    && Fits(t.head, |t.kids|)
    && forall i :: 0 <= i < |t.kids| ==> WellFormed(t.kids[i])
  }

  predicate Fits(head: Head, n: nat) {
    && (if head.typ == TObject then |head.keys| == n && Distinct(head.keys) else head.keys == [])
    && (head.typ != TArray && head.typ != TObject ==> n == 0)
    && (head.typ != TString ==> head.str == []) && (head.typ != TBuffer ==> head.buff == None)
  }

  predicate Distinct(keys: seq<Text>) {
    forall i, j :: 0 <= i < j < |keys| ==> keys[i] != keys[j]
  }

  // ----- the word of scalar values, as each type reads it

  function AsSigned(word: int): int {
    var m := word % TWO64;
    if m < TWO63 then m else m - TWO64
  }

  /** The JSON tree. `fp` is the platform's reading of 64 bits as a double. */
  function Meaning(fp: int -> real, t: Tree): JValue {
    match t.head.typ
    case TInvalid => Invalid
    case TNull => Null
    case TInt => Int(AsSigned(t.head.word))
    case TUInt => UInt(t.head.word % TWO64)
    case TDouble => Double(fp(t.head.word))
    case TString => Str(t.head.str)
    case TBool => Bool(t.head.word != 0)
    case TArray => Arr(Meanings(fp, t.kids))
    case TObject => Obj(Members(t.head.keys, Meanings(fp, t.kids)))
    case TBuffer => Buff(if t.head.buff.Some? then t.head.buff.value else [])
  }

  function Meanings(fp: int -> real, ts: seq<Tree>): (vs: seq<JValue>)
    ensures |vs| == |ts| && forall i :: 0 <= i < |ts| ==> vs[i] == Meaning(fp, ts[i])
  {
    seq(|ts|, i requires 0 <= i < |ts| => Meaning(fp, ts[i]))
  }

  function Members(keys: seq<Text>, vs: seq<JValue>): map<Text, JValue> {
    if |keys| != |vs| || keys == [] then map[]
    else Members(keys[..|keys| - 1], vs[..|vs| - 1])[keys[|keys| - 1] := vs[|vs| - 1]]
  }

  function IndexOf(keys: seq<Text>, k: Text): (i: nat)
    ensures i <= |keys| && (i < |keys| ==> keys[i] == k) && (k in keys ==> i < |keys|)
    ensures forall j :: 0 <= j < i ==> keys[j] != k
  {
    if keys == [] || keys[0] == k then 0 else 1 + IndexOf(keys[1..], k)
  }

  /** What a clone keeps of the data: everything but the bytes of a memory buffer (apps/jsonval.cpp:2914-2920). */
  function ClonedHead(h: Head): Head {
    h.(buff := if h.buff.Some? then Some([]) else None)
  }

  /** The value that a non-const operation finds once its data is exclusive. */
  function Exclusive(t: Tree, shared: bool): Tree {
    if shared then Tree(ClonedHead(t.head), t.kids) else t
  }

  /** SetType: the old content is cleared if it is a string, an array, an object or a buffer; the word stays. */
  function Retyped(t: Tree, typ: Type): Tree {
    if typ == t.head.typ then t
    else
      var h := t.head;
      Tree(Head(typ, h.word, if h.typ == TString then [] else h.str, if h.typ == TBuffer then None else h.buff,
                if h.typ == TObject then [] else h.keys),
           if h.typ == TArray || h.typ == TObject then [] else t.kids)
  }

  function Without<T>(s: seq<T>, i: nat): (r: seq<T>)
    requires i < |s|
    ensures |r| == |s| - 1 && forall j :: 0 <= j < |r| ==> r[j] == if j < i then s[j] else s[j + 1]
  {
    s[..i] + s[i + 1..]
  }

  // ----- the operations on trees; `shared` says whether another handle has the same data

  function Become(t: Tree, shared: bool, typ: Type): Tree {
    Retyped(Exclusive(t, shared), typ)
  }

  function WithWord(t: Tree, shared: bool, typ: Type, word: int): Tree {
    var e := Become(t, shared, typ);
    Tree(e.head.(word := word), e.kids)
  }

  function WithString(t: Tree, shared: bool, s: Text): Tree {
    var e := Become(t, shared, TString);
    Tree(e.head.(str := s), e.kids)
  }

  function Extended(t: Tree, shared: bool, s: Text): Tree {
    if t.head.typ != TString then t
    else
      var e := Exclusive(t, shared);
      Tree(e.head.(str := e.head.str + s), e.kids)
  }

  function Appended(t: Tree, shared: bool, v: Tree): Tree {
    var e := Become(t, shared, TArray);
    Tree(e.head, e.kids + [v])
  }

  /** After Item on an index. */
  function Grown(t: Tree, shared: bool, i: nat): Tree {
    var e := Become(t, shared, TArray);
    Tree(e.head, e.kids + Nulls(i + 1 - |e.kids|))
  }

  /** After Item on a name. */
  function Named(t: Tree, shared: bool, key: Text): Tree {
    var e := Become(t, shared, TObject);
    if key in e.head.keys then e else Tree(e.head.(keys := e.head.keys + [key]), e.kids + Nulls(1))
  }

  function Shortened(t: Tree, shared: bool, i: int): Tree {
    var e := Exclusive(t, shared);
    if HasItem(t, i) then Tree(e.head, Without(e.kids, i)) else e
  }

  /** The item that Remove on an index is asked for exists. */
  predicate HasItem(t: Tree, i: int) {
    t.head.typ == TArray && 0 <= i < |t.kids|
  }

  /** What Remove on an index returns. */
  predicate RemoveSays(t: Tree) {
    t.head.typ == TArray
  }

  /** Remove reports whether there was such an item exactly if the value is no array or the index is in range. */
  lemma RemoveSaysExactly(t: Tree, i: int)
    ensures (RemoveSays(t) <==> HasItem(t, i)) <==> t.head.typ != TArray || 0 <= i < |t.kids|
  {
  }

  function Deprived(t: Tree, shared: bool, key: Text): Tree {
    var e := Exclusive(t, shared);
    var i := IndexOf(e.head.keys, key);
    if t.head.typ == TObject && i < |e.head.keys| && i < |e.kids|
    then Tree(e.head.(keys := Without(e.head.keys, i)), Without(e.kids, i)) else e
  }

  const NULL := Head(TNull, 0, [], None, [])

  /** n null values, or none if n is negative. */
  function Nulls(n: int): (ts: seq<Tree>)
    ensures |ts| == if n < 0 then 0 else n
  {
    seq(if n < 0 then 0 else n, _ => Tree(NULL, []))
  }

  lemma IndexOfLast(keys: seq<Text>, k: Text)
    requires k !in keys
    ensures IndexOf(keys + [k], k) == |keys|
  {
    var i := IndexOf(keys + [k], k);
    assert (keys + [k])[|keys|] == k;
  }

  // ----- facts about members

  lemma {:induction false} MembersAt(keys: seq<Text>, vs: seq<JValue>)
    requires |keys| == |vs| && Distinct(keys)
    ensures Members(keys, vs).Keys == set k | k in keys
    ensures forall i :: 0 <= i < |keys| ==> keys[i] in Members(keys, vs) && Members(keys, vs)[keys[i]] == vs[i]
  {
    if keys != [] {
      var n := |keys| - 1;
      assert keys == keys[..n] + [keys[n]];
      MembersAt(keys[..n], vs[..n]);
    }
  }

  lemma MembersAdd(keys: seq<Text>, vs: seq<JValue>, k: Text, v: JValue)
    requires |keys| == |vs|
    ensures Members(keys + [k], vs + [v]) == Members(keys, vs)[k := v]
  {
    assert (keys + [k])[..|keys|] == keys && (vs + [v])[..|vs|] == vs;
  }

  lemma DistinctWithout(keys: seq<Text>, i: nat)
    requires Distinct(keys) && i < |keys|
    ensures Distinct(Without(keys, i)) && keys[i] !in Without(keys, i)
  {
  }

  /** A name other than the one left out has its value still. */
  lemma MembersOther(keys: seq<Text>, vs: seq<JValue>, i: nat, k: Text)
    requires |keys| == |vs| && i < |keys| && Distinct(keys) && Distinct(Without(keys, i)) && k in keys && k != keys[i]
    ensures var n := Members(Without(keys, i), Without(vs, i)); k in n && k in Members(keys, vs) && n[k] == Members(keys, vs)[k]
  {
    hide Members, Without, Distinct;
    var j :| 0 <= j < |keys| && keys[j] == k;
    var a := if j < i then j else j - 1;
    var ks, ws := Without(keys, i), Without(vs, i);
    OneWithout(keys, i, j);
    OneWithout(vs, i, j);
    MemberIs(keys, vs, j);
    MemberIs(ks, ws, a);
  }

  lemma OneWithout<T>(s: seq<T>, i: nat, j: nat)
    requires i < |s| && j < |s| && i != j
    ensures |Without(s, i)| == |s| - 1 && Without(s, i)[if j < i then j else j - 1] == s[j]
  {
  }

  lemma MemberIs(keys: seq<Text>, vs: seq<JValue>, j: nat)
    requires |keys| == |vs| && Distinct(keys) && j < |keys|
    ensures keys[j] in Members(keys, vs) && Members(keys, vs)[keys[j]] == vs[j]
  {
    MembersAt(keys, vs);
  }

  lemma MembersWithout(keys: seq<Text>, vs: seq<JValue>, i: nat)
    requires |keys| == |vs| && Distinct(keys) && i < |keys|
    ensures Distinct(Without(keys, i))
    ensures Members(Without(keys, i), Without(vs, i)) == Members(keys, vs) - {keys[i]}
  {
    hide Members, Distinct, Without;
    DistinctWithout(keys, i);
    MembersAt(keys, vs);
    MembersAt(Without(keys, i), Without(vs, i));
    OthersStay(keys, i);
    var m, n := Members(keys, vs), Members(Without(keys, i), Without(vs, i));
    forall k | k in m.Keys - {keys[i]} ensures k in n && n[k] == m[k] {
      MembersOther(keys, vs, i, k);
    }
    SameMap(m, n, keys[i]);
  }

  lemma OthersStay(keys: seq<Text>, i: nat)
    requires i < |keys| && Distinct(keys)
    ensures (set k | k in Without(keys, i)) == (set k | k in keys) - {keys[i]}
  {
    forall k | k in keys && k != keys[i] ensures k in Without(keys, i) {
      var j :| 0 <= j < |keys| && keys[j] == k;
      assert Without(keys, i)[if j < i then j else j - 1] == k;
    }
  }

  lemma SameMap(m: map<Text, JValue>, n: map<Text, JValue>, key: Text)
    requires n.Keys == m.Keys - {key} && forall k :: k in m.Keys - {key} ==> k in n && n[k] == m[k]
    ensures n == m - {key}
  {
  }

  lemma MembersPut(keys: seq<Text>, vs: seq<JValue>, i: nat, v: JValue)
    requires |keys| == |vs| && Distinct(keys) && i < |keys|
    ensures Members(keys, vs[i := v]) == Members(keys, vs)[keys[i] := v]
  {
    MembersAt(keys, vs);
    MembersAt(keys, vs[i := v]);
    var m, n := Members(keys, vs[i := v]), Members(keys, vs)[keys[i] := v];
    forall k | k in keys ensures m[k] == n[k] {
      var j :| 0 <= j < |keys| && keys[j] == k;
    }
  }

  // ----- the operations keep values well-formed, and what they mean

  lemma {:induction false} ExclusiveIsWell(t: Tree, shared: bool)
    requires WellFormed(t)
    ensures WellFormed(Exclusive(t, shared))
  {
  }

  lemma {:induction false} BecomeIsWell(t: Tree, shared: bool, typ: Type)
    requires WellFormed(t)
    ensures WellFormed(Become(t, shared, typ))
  {
  }
}
