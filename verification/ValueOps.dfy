/** The operations of wxJSONValue as functions on plain JSON trees, and the proof that the trees in memory follow them. */
module ValueOps {
  import opened Bytes
  import opened Decimal
  import opened JsonValue
  import opened Heap
  import opened TreeOps

  /** One operation on a value. The operand of Put (assignment) and Add (Append) is another value; Itself assigns a value
      to itself; Look does nothing, so that operator[] alone is left. */
  datatype Act =
    | Put
    | Add
    | Itself
    | Look
    | Word(typ: Type, word: int)
    | Chars(s: Text)
    | Concat(s: Text)
    | TakeAt(i: int)
    | TakeOf(key: Text)
    | Kind(typ: Type)
  {
    predicate Binary() {
      Put? || Add?
    }
  }

  /** An item or member, as operator[] names it. */
  datatype Step = At(i: nat) | In(key: Text)

  function Scalar(fp: int -> real, typ: Type, word: int): JValue {
    match typ
    case TInt => Int(AsSigned(word))
    case TUInt => UInt(word % TWO64)
    case TBool => Bool(word != 0)
    case _ => Double(fp(word))
  }

  /** SetType to a type that shows nothing of the stale word. */
  function Emptied(v: JValue, typ: Type): JValue {
    match typ
    case TArray => ToArray(v)
    case TObject => ToObject(v)
    case TString => if v.Str? then v else Str([])
    case TNull => Null
    case _ => Invalid
  }

  function ActOn(fp: int -> real, v: JValue, a: Act, operand: JValue): JValue {
    match a
    case Put => operand
    case Add => Arr(ToArray(v).items + [operand])
    case Word(typ, word) => Scalar(fp, typ, word)
    case Chars(s) => Str(s)
    case Concat(s) => if v.Str? then Str(v.s + s) else v
    case TakeAt(i) => if v.Arr? && 0 <= i < |v.items| then Arr(Without(v.items, i)) else v
    case TakeOf(key) => if v.Obj? then Obj(v.members - {key}) else v
    case Kind(typ) => Emptied(v, typ)
    case _ => v
  }

  /** Removal empties a buffer that is shared; SetType alone may show a stale word. */
  predicate Allowed(v: JValue, a: Act) {
    match a
    case Word(typ, _) => typ in {TInt, TUInt, TBool, TDouble}
    case TakeAt(_) => !v.Buff?
    case TakeOf(_) => !v.Buff?
    case Kind(typ) => typ in {TArray, TObject, TString, TNull, TInvalid}
    case _ => true
  }

  function Padded(items: seq<JValue>, n: nat): (r: seq<JValue>)
    ensures |r| == if |items| < n then n else |items|
  {
    if |items| < n then items + seq(n - |items|, _ => Null) else items
  }

  /** What operator[] finds, creating a null value where there is nothing. */
  function Child(v: JValue, s: Step): JValue {
    match s
    case At(i) => Padded(ToArray(v).items, i + 1)[i]
    case In(key) => var m := ToObject(v).members; if key in m then m[key] else Null
  }

  function With(v: JValue, s: Step, x: JValue): JValue {
    match s
    case At(i) => Arr(Padded(ToArray(v).items, i + 1)[i := x])
    case In(key) => Obj(ToObject(v).members[key := x])
  }

  /** The value after an operation on what a path of indices and names leads to. */
  function Update(fp: int -> real, v: JValue, path: seq<Step>, a: Act, operand: JValue): JValue
    decreases path
  {
    if path == [] then ActOn(fp, v, a, operand)
    else With(v, path[0], Update(fp, Child(v, path[0]), path[1..], a, operand))
  }

  predicate MayUpdate(v: JValue, path: seq<Step>, a: Act)
    decreases path
  {
    if path == [] then Allowed(v, a) else MayUpdate(Child(v, path[0]), path[1..], a)
  }

  /** What operator[] leads to along a path. */
  function ChildAt(v: JValue, path: seq<Step>): JValue
    decreases path
  {
    if path == [] then v else ChildAt(Child(v, path[0]), path[1..])
  }

  /** What ItemAt finds: an invalid value where there is nothing. */
  function Item(v: JValue, s: Step): JValue {
    match s
    case At(i) => if v.Arr? && i < |v.items| then v.items[i] else Invalid
    case In(key) => if v.Obj? && key in v.members then v.members[key] else Invalid
  }

  function ItemAt(v: JValue, path: seq<Step>): JValue
    decreases path
  {
    if path == [] then v else ItemAt(Item(v, path[0]), path[1..])
  }

  lemma {:induction false} NothingInside(path: seq<Step>)
    ensures ItemAt(Invalid, path) == Invalid
    decreases path
  {
    if path != [] { NothingInside(path[1..]); }
  }

  /** After operator[] along a path, ItemAt finds there what operator[] led to. */
  lemma {:induction false} LookThenItem(fp: int -> real, v: JValue, path: seq<Step>)
    ensures ItemAt(Update(fp, v, path, Look, Null), path) == ChildAt(v, path)
    decreases path
  {
    if path != [] { LookThenItem(fp, Child(v, path[0]), path[1..]); }
  }

  // ----- trees in memory follow

  lemma BecomeMeans(fp: int -> real, t: Tree, shared: bool, typ: Type)
    requires WellFormed(t) && typ in {TArray, TObject, TString, TNull, TInvalid}
    ensures WellFormed(Become(t, shared, typ)) && Become(t, shared, typ).head.typ == typ
    ensures Meaning(fp, Become(t, shared, typ)) == Emptied(Meaning(fp, t), typ)
  {
  }

  lemma WithWordMeans(fp: int -> real, t: Tree, shared: bool, typ: Type, word: int)
    requires WellFormed(t) && typ in {TInt, TUInt, TBool, TDouble}
    ensures WellFormed(WithWord(t, shared, typ, word)) && Meaning(fp, WithWord(t, shared, typ, word)) == Scalar(fp, typ, word)
  {
  }

  lemma WithStringMeans(fp: int -> real, t: Tree, shared: bool, s: Text)
    requires WellFormed(t)
    ensures WellFormed(WithString(t, shared, s)) && Meaning(fp, WithString(t, shared, s)) == Str(s)
  {
  }

  lemma ExtendedMeans(fp: int -> real, t: Tree, shared: bool, s: Text)
    requires WellFormed(t)
    ensures WellFormed(Extended(t, shared, s))
    ensures Meaning(fp, Extended(t, shared, s)) == ActOn(fp, Meaning(fp, t), Concat(s), Null)
  {
  }

  lemma AppendedMeans(fp: int -> real, t: Tree, shared: bool, v: Tree)
    requires WellFormed(t) && WellFormed(v)
    ensures WellFormed(Appended(t, shared, v))
    ensures Meaning(fp, Appended(t, shared, v)) == ActOn(fp, Meaning(fp, t), Add, Meaning(fp, v))
  {
    BecomeMeans(fp, t, shared, TArray);
    var e := Become(t, shared, TArray);
    assert Meanings(fp, e.kids + [v]) == Meanings(fp, e.kids) + [Meaning(fp, v)];
  }

  /** What is found at an index, and what is there once it has been replaced. */
  lemma GrownMeans(fp: int -> real, t: Tree, shared: bool, i: nat, x: Tree)
    requires WellFormed(t) && WellFormed(x)
    ensures var g := Grown(t, shared, i);
      && WellFormed(g) && i < |g.kids| && Meaning(fp, g.kids[i]) == Child(Meaning(fp, t), At(i))
      && WellFormed(Tree(g.head, g.kids[i := x]))
      && Meaning(fp, Tree(g.head, g.kids[i := x])) == With(Meaning(fp, t), At(i), Meaning(fp, x))
  {
    BecomeMeans(fp, t, shared, TArray);
    GrownIsWell(t, shared, i, x);
    NullMeans(fp);
    var e, g := Become(t, shared, TArray), Grown(t, shared, i);
    ArrayMeans(fp, e);
    ArrayMeans(fp, Tree(g.head, g.kids[i := x]));
    hide Meaning, WellFormed, Become;
    assert Meanings(fp, g.kids) == Padded(Meanings(fp, e.kids), i + 1);
    assert Meanings(fp, g.kids[i := x]) == Meanings(fp, g.kids)[i := Meaning(fp, x)];
  }

  lemma ArrayMeans(fp: int -> real, t: Tree)
    requires t.head.typ == TArray
    ensures Meaning(fp, t) == Arr(Meanings(fp, t.kids))
  {
  }

  lemma GrownIsWell(t: Tree, shared: bool, i: nat, x: Tree)
    requires WellFormed(t) && WellFormed(x)
    ensures var g := Grown(t, shared, i);
      && WellFormed(g) && i < |g.kids| && g.head.typ == TArray && WellFormed(Tree(g.head, g.kids[i := x]))
  {
    BecomeIsWell(t, shared, TArray);
    assert WellFormed(Tree(NULL, []));
  }

  lemma ObjectMeans(fp: int -> real, t: Tree)
    requires t.head.typ == TObject
    ensures Meaning(fp, t) == Obj(Members(t.head.keys, Meanings(fp, t.kids)))
  {
  }

  lemma NamedMembers(fp: int -> real, t: Tree, shared: bool, key: Text)
    requires WellFormed(t)
    ensures var g, m := Named(t, shared, key), ToObject(Meaning(fp, t)).members;
      && g.head.typ == TObject
      && Members(g.head.keys, Meanings(fp, g.kids)) == if key in m then m else m[key := Null]
  {
    BecomeMeans(fp, t, shared, TObject);
    var e := Become(t, shared, TObject);
    assert Distinct(e.head.keys) && |e.head.keys| == |e.kids|;
    hide WellFormed, Members, Become, ToObject, Meaning, Distinct;
    ObjectMeans(fp, e);
    NamedEntry(fp, e, key);
  }

  lemma NamedEntry(fp: int -> real, e: Tree, key: Text)
    requires Distinct(e.head.keys) && |e.head.keys| == |e.kids|
    ensures var m := Members(e.head.keys, Meanings(fp, e.kids));
      && (key in m <==> key in e.head.keys)
      && (key !in m ==> Members(e.head.keys + [key], Meanings(fp, e.kids + Nulls(1))) == m[key := Null])
  {
    hide Members, Meaning, Distinct;
    MembersAt(e.head.keys, Meanings(fp, e.kids));
    OneMoreNull(fp, e.kids);
    MembersAdd(e.head.keys, Meanings(fp, e.kids), key, Null);
  }

  lemma OneMoreNull(fp: int -> real, ts: seq<Tree>)
    ensures Meanings(fp, ts + Nulls(1)) == Meanings(fp, ts) + [Null]
  {
    NullMeans(fp);
    hide Meaning;
  }

  lemma NullMeans(fp: int -> real)
    ensures Meaning(fp, Tree(NULL, [])) == Null
  {
  }

  lemma NamedMeans(fp: int -> real, t: Tree, shared: bool, key: Text, x: Tree)
    requires WellFormed(t) && WellFormed(x)
    ensures var g := Named(t, shared, key);
      var i := IndexOf(g.head.keys, key);
      && WellFormed(g) && i < |g.kids| && Meaning(fp, g.kids[i]) == Child(Meaning(fp, t), In(key))
      && WellFormed(Tree(g.head, g.kids[i := x]))
      && Meaning(fp, Tree(g.head, g.kids[i := x])) == With(Meaning(fp, t), In(key), Meaning(fp, x))
  {
    hide WellFormed, Members, Named, ToObject, Meaning, Distinct;
    NamedIsWell(t, shared, key);
    NamedMembers(fp, t, shared, key);
    var g := Named(t, shared, key);
    var keys, ws := g.head.keys, Meanings(fp, g.kids);
    var i := IndexOf(keys, key);
    ReplacedIsWell(g, i, x);
    MembersAt(keys, ws);
    MembersPut(keys, ws, i, Meaning(fp, x));
    assert Meanings(fp, g.kids[i := x]) == ws[i := Meaning(fp, x)];
    ObjectMeans(fp, Tree(g.head, g.kids[i := x]));
  }

  lemma ReplacedIsWell(t: Tree, i: nat, x: Tree)
    requires WellFormed(t) && WellFormed(x) && i < |t.kids|
    ensures WellFormed(Tree(t.head, t.kids[i := x])) && (t.head.typ == TObject ==> Distinct(t.head.keys))
  {
  }

  lemma NamedIsWell(t: Tree, shared: bool, key: Text)
    requires WellFormed(t)
    ensures var g := Named(t, shared, key);
      WellFormed(g) && g.head.typ == TObject && key in g.head.keys && |g.head.keys| == |g.kids|
  {
    BecomeIsWell(t, shared, TObject);
    assert (Become(t, shared, TObject).head.keys + [key])[|Become(t, shared, TObject).head.keys|] == key;
  }

  lemma ShortenedMeans(fp: int -> real, t: Tree, shared: bool, i: int)
    requires WellFormed(t) && Allowed(Meaning(fp, t), TakeAt(i))
    ensures WellFormed(Shortened(t, shared, i))
    ensures Meaning(fp, Shortened(t, shared, i)) == ActOn(fp, Meaning(fp, t), TakeAt(i), Null)
  {
    if HasItem(t, i) {
      MeaningsWithout(fp, t.kids, i);
    } else {
      ExclusiveMeans(fp, t, shared);
    }
  }

  lemma DeprivedMeans(fp: int -> real, t: Tree, shared: bool, key: Text)
    requires WellFormed(t) && Allowed(Meaning(fp, t), TakeOf(key))
    ensures WellFormed(Deprived(t, shared, key))
    ensures Meaning(fp, Deprived(t, shared, key)) == ActOn(fp, Meaning(fp, t), TakeOf(key), Null)
  {
    if t.head.typ == TObject {
      DeprivedIsWell(t, shared, key);
      DeprivedMembers(fp, t, shared, key);
      hide WellFormed, Deprived, Members, Meaning;
      ObjectMeans(fp, t);
      ObjectMeans(fp, Deprived(t, shared, key));
    } else {
      ExclusiveMeans(fp, t, shared);
    }
  }

  /** Only a buffer is not what it was once its data has been cloned. */
  lemma ExclusiveMeans(fp: int -> real, t: Tree, shared: bool)
    requires WellFormed(t)
    ensures WellFormed(Exclusive(t, shared))
    ensures Meaning(fp, Exclusive(t, shared)) == if shared then Cloned(Meaning(fp, t)) else Meaning(fp, t)
  {
  }

  /** A clone has the meaning of the original exactly if that is not a buffer with bytes in it. */
  lemma CloneKeepsExactly(fp: int -> real, t: Tree)
    requires WellFormed(t)
    ensures Meaning(fp, Exclusive(t, true)) == Meaning(fp, t) <==>
      !(Meaning(fp, t).Buff? && Meaning(fp, t).bytes != [])
  {
    ExclusiveMeans(fp, t, true);
  }

  /** A buffer of one byte is cloned to an empty one. */
  lemma OneByteIsLost(fp: int -> real)
    ensures var t := Tree(Head(TBuffer, 0, [], Some([1]), []), []);
      WellFormed(t) && Meaning(fp, t) == Buff([1]) && Meaning(fp, Exclusive(t, true)) == Buff([])
  {
  }

  lemma DeprivedMembers(fp: int -> real, t: Tree, shared: bool, key: Text)
    requires WellFormed(t) && t.head.typ == TObject
    ensures var d := Deprived(t, shared, key);
      && d.head.typ == TObject
      && Members(d.head.keys, Meanings(fp, d.kids)) == Members(t.head.keys, Meanings(fp, t.kids)) - {key}
  {
    var keys, vs := t.head.keys, Meanings(fp, t.kids);
    assert Distinct(keys) && |keys| == |vs|;
    hide WellFormed, Distinct, Members, Without, Meaning;
    var i := IndexOf(keys, key);
    if i < |keys| {
      MembersWithout(keys, vs, i);
      MeaningsWithout(fp, t.kids, i);
    } else {
      MembersAt(keys, vs);
      NothingTaken(Members(keys, vs), key);
    }
  }

  lemma NothingTaken(m: map<Text, JValue>, key: Text)
    requires key !in m
    ensures m - {key} == m
  {
  }

  lemma MeaningsWithout(fp: int -> real, ts: seq<Tree>, i: nat)
    requires i < |ts|
    ensures Meanings(fp, Without(ts, i)) == Without(Meanings(fp, ts), i)
  {
    hide *;
    WithoutSize(ts, i);
    MeaningsSize(fp, ts);
    WithoutSize(Meanings(fp, ts), i);
    MeaningsSize(fp, Without(ts, i));
    var l, r := Meanings(fp, Without(ts, i)), Without(Meanings(fp, ts), i);
    forall j | 0 <= j < |l| ensures l[j] == r[j] { MeaningWithoutAt(fp, ts, i, j); }
    SameItems(l, r);
  }

  lemma SameItems<T>(a: seq<T>, b: seq<T>)
    requires |a| == |b| && forall j :: 0 <= j < |a| ==> a[j] == b[j]
    ensures a == b
  {
  }

  lemma MeaningWithoutAt(fp: int -> real, ts: seq<Tree>, i: nat, j: nat)
    requires i < |ts| && j < |ts| - 1
    ensures j < |Meanings(fp, Without(ts, i))| && i < |Meanings(fp, ts)| && j < |Without(Meanings(fp, ts), i)|
    ensures Meanings(fp, Without(ts, i))[j] == Without(Meanings(fp, ts), i)[j]
  {
    hide *;
    WithoutSize(ts, i);
    MeaningsSize(fp, ts);
    WithoutSize(Meanings(fp, ts), i);
    var from := if j < i then j else j + 1;
    OneWithout(ts, i, from);
    OneWithout(Meanings(fp, ts), i, from);
    MeaningAt(fp, ts, from);
    MeaningAt(fp, Without(ts, i), j);
  }

  lemma WithoutSize<T>(s: seq<T>, i: nat)
    requires i < |s|
    ensures |Without(s, i)| == |s| - 1
  {
  }

  lemma MeaningsSize(fp: int -> real, ts: seq<Tree>)
    ensures |Meanings(fp, ts)| == |ts|
  {
  }

  lemma MeaningAt(fp: int -> real, ts: seq<Tree>, j: nat)
    requires j < |ts|
    ensures j < |Meanings(fp, ts)| && Meanings(fp, ts)[j] == Meaning(fp, ts[j])
  {
  }

  lemma DeprivedIsWell(t: Tree, shared: bool, key: Text)
    requires WellFormed(t) && t.head.typ == TObject
    ensures WellFormed(Deprived(t, shared, key))
  {
    var i := IndexOf(t.head.keys, key);
    if i < |t.head.keys| {
      DistinctWithout(t.head.keys, i);
    }
  }
}
