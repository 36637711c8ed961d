/** What the operations on plain values do, item by item: the value found where an operation was applied, and what is found
    everywhere else. */
module ValueLaws {
  import opened Bytes
  import opened Decimal
  import opened JsonValue
  import opened Heap
  import opened TreeOps
  import opened ValueOps
  import opened Scalars
  import opened Program

  // ----- one step of operator[]

  /** The items an index leads among; anything but an array counts as an empty one. */
  function ItemsOf(v: JValue): seq<JValue> {
    match v
    case Arr(items) => items
    case _ => []
  }

  function MembersOf(v: JValue): map<Text, JValue> {
    match v
    case Obj(m) => m
    case _ => map[]
  }

  /** operator[] finds the item, or a null value where there is none; ItemAt finds the item, or an invalid value. */
  lemma StepFinds(v: JValue, i: nat, key: Text)
    ensures Child(v, At(i)) == if i < |ItemsOf(v)| then ItemsOf(v)[i] else Null
    ensures Child(v, In(key)) == if key in MembersOf(v) then MembersOf(v)[key] else Null
    ensures Item(v, At(i)) == if i < |ItemsOf(v)| then ItemsOf(v)[i] else Invalid
    ensures Item(v, In(key)) == if key in MembersOf(v) then MembersOf(v)[key] else Invalid
  {
  }

  /** Changed at an index, a value is an array that is long enough, holds the new item there, the old items elsewhere, and
      nulls where there were none. */
  lemma StepPuts(v: JValue, i: nat, key: Text, x: JValue)
    ensures var w, before := With(v, At(i), x), ItemsOf(v);
      && w.Arr? && |w.items| == (if i < |before| then |before| else i + 1) && w.items[i] == x
      && forall j :: 0 <= j < |w.items| && j != i ==> w.items[j] == if j < |before| then before[j] else Null
    ensures With(v, In(key), x) == Obj(MembersOf(v)[key := x])
  {
  }

  /** What stands beside a place that was changed. */
  function Beside(v: JValue, s: Step, t: Step): JValue {
    match (s, t)
    case (At(i), At(j)) => if j < |ItemsOf(v)| then ItemsOf(v)[j] else if j < i then Null else Invalid
    case (In(_), In(key)) => if key in MembersOf(v) then MembersOf(v)[key] else Invalid
    case _ => Invalid
  }

  lemma StepBeside(v: JValue, s: Step, t: Step, x: JValue)
    requires s != t
    ensures Item(With(v, s, x), t) == Beside(v, s, t)
    ensures Item(With(v, s, x), s) == x
  {
    match (s, t) {
      case (At(i), At(j)) => StepPuts(v, i, [], x);
      case (In(k), _) => StepPuts(v, 0, k, x);
      case (At(i), _) => StepPuts(v, i, [], x);
    }
  }

  // ----- along a path

  /** Where an operation was applied, ItemAt finds its result. */
  lemma {:induction false} UpdateThere(fp: int -> real, v: JValue, path: seq<Step>, a: Act, x: JValue)
    ensures ItemAt(Update(fp, v, path, a, x), path) == ActOn(fp, ChildAt(v, path), a, x)
    decreases path
  {
    hide With, Child, Item, ActOn;
    if path != [] {
      var c := Update(fp, Child(v, path[0]), path[1..], a, x);
      UpdateThere(fp, Child(v, path[0]), path[1..], a, x);
      ItemIsThere(v, path[0], c);
    }
  }

  lemma ItemIsThere(v: JValue, s: Step, x: JValue)
    ensures Item(With(v, s, x), s) == x
  {
    match s {
      case At(i) => StepPuts(v, i, [], x);
      case In(k) => StepPuts(v, 0, k, x);
    }
  }

  /** Everywhere else it finds what was there: the paths part after p, one goes on with s, the other with t. */
  lemma {:induction false} UpdateElsewhere(fp: int -> real, v: JValue, p: seq<Step>, s: Step, r: seq<Step>, t: Step,
      q: seq<Step>, a: Act, x: JValue)
    requires s != t
    ensures ItemAt(Update(fp, v, p + [s] + r, a, x), p + [t] + q) == ItemAt(Beside(ChildAt(v, p), s, t), q)
    decreases p
  {
    hide With, Child, Item, ActOn, Beside;
    var path, other := p + [s] + r, p + [t] + q;
    var c := Update(fp, Child(v, path[0]), path[1..], a, x);
    if p == [] {
      assert path[0] == s && other[0] == t && other[1..] == q;
      StepBeside(v, s, t, c);
    } else {
      assert path[0] == p[0] == other[0] && path[1..] == p[1..] + [s] + r && other[1..] == p[1..] + [t] + q;
      ItemIsThere(v, p[0], c);
      UpdateElsewhere(fp, Child(v, p[0]), p[1..], s, r, t, q, a, x);
    }
  }

  // ----- the operations themselves

  /** Each operation on a value, said of what the value holds. */
  lemma ActsExactly(fp: int -> real, v: JValue, x: JValue, s: Text, i: int, key: Text)
    ensures ActOn(fp, v, Put, x) == x && ActOn(fp, v, Itself, x) == v && ActOn(fp, v, Look, x) == v
    ensures ActOn(fp, v, Chars(s), x) == Str(s)
    ensures ActOn(fp, v, Concat(s), x) == match v case Str(t) => Str(t + s) case _ => v
    ensures ActOn(fp, v, TakeOf(key), x) == match v case Obj(m) => Obj(map k | k in m && k != key :: m[k]) case _ => v
    ensures var w := ActOn(fp, v, Add, x);
      w.Arr? && |w.items| == |ItemsOf(v)| + 1 && w.items[..|ItemsOf(v)|] == ItemsOf(v) && w.items[|ItemsOf(v)|] == x
    ensures var w := ActOn(fp, v, TakeAt(i), x);
      if v.Arr? && 0 <= i < |v.items| then w.Arr? && v.items == w.items[..i] + [v.items[i]] + w.items[i..] else w == v
  {
    if v.Obj? {
      assert v.members - {key} == map k | k in v.members && k != key :: v.members[k];
    }
    if v.Arr? && 0 <= i < |v.items| {
      var w := Without(v.items, i);
      assert w[..i] == v.items[..i] && w[i..] == v.items[i + 1..];
    }
  }

  /** Assigned numbers and Booleans are found again. */
  lemma NumbersAreKept(fp: int -> real, v: JValue, i: int, u: int, b: bool, word: int, x: JValue)
    requires -TWO63 <= i < TWO63 && 0 <= u < TWO64
    ensures ActOn(fp, v, Word(TInt, i), x) == Int(i) && ActOn(fp, v, Word(TUInt, u), x) == UInt(u)
    ensures ActOn(fp, v, Word(TBool, if b then 1 else 0), x) == Bool(b) && ActOn(fp, v, Word(TDouble, word), x) == Double(fp(word))
  {
    SignedExactly(i, i);
  }

  /** SetType keeps a value of that type, and empties any other. */
  lemma SetTypeKeeps(fp: int -> real, v: JValue, x: JValue)
    ensures ActOn(fp, v, Kind(TArray), x) == if v.Arr? then v else Arr([])
    ensures ActOn(fp, v, Kind(TObject), x) == if v.Obj? then v else Obj(map[])
    ensures ActOn(fp, v, Kind(TString), x) == if v.Str? then v else Str([])
    ensures ActOn(fp, v, Kind(TNull), x) == Null && ActOn(fp, v, Kind(TInvalid), x) == Invalid
  {
  }

  /** The same below the surface: to its own type a value stays as it is; to another it keeps its word, and loses whatever
      its old type held. */
  lemma RetypedExactly(t: Tree, typ: Type)
    requires WellFormed(t)
    ensures Retyped(t, typ) == if typ == t.head.typ then t else Tree(Head(typ, t.head.word, [], None, []), [])
  {
  }

  /** A clone keeps everything but the bytes of a buffer. */
  lemma ClonedExactly(h: Head)
    ensures ClonedHead(h).buff == match h.buff case Some(_) => Some([]) case None => None
    ensures ClonedHead(h).(buff := h.buff) == h
  {
  }

  // ----- commands

  /** A command changes no variable but its own and, where operator[] fills up an operand, that of its operand. */
  lemma CommandsExactly(fp: int -> real, env: seq<JValue>, c: Cmd)
    requires MayExec(env, c)
    ensures var out := Exec(fp, env, c);
      && (c.New? ==> |out| == |env| + 1 && out[|env|] == Null)
      && (c.Dup? ==> |out| == |env| + 1 && out[|env|] == ItemAt(env[c.x], c.path))
      && (c.Leave? ==> |out| == |env| - 1)
      && (c.On? ==> |out| == |env|)
      && (forall k :: 0 <= k < |env| && k < |out| && (c.On? ==> k != c.x && (c.a.Binary() ==> k != c.y)) ==> out[k] == env[k])
  {
    hide Update, ChildAt, ItemAt, MayUpdate;
  }

  /** After x[path] = y[from] for two variables, ItemAt finds at x's place what operator[] leads to in y, and in y, too. */
  lemma AssignmentArrives(fp: int -> real, env: seq<JValue>, x: nat, path: seq<Step>, y: nat, from: seq<Step>)
    requires x < |env| && y < |env| && x != y && MayExec(env, On(x, path, Put, y, from))
    ensures var out := Exec(fp, env, On(x, path, Put, y, from));
      |out| == |env| && ItemAt(out[x], path) == ChildAt(env[y], from) == ItemAt(out[y], from)
  {
    UpdateThere(fp, env[x], path, Put, ChildAt(env[y], from));
    LookThenItem(fp, env[y], from);
    hide Update, ChildAt, ItemAt, MayUpdate;
  }

  /** After x[path] = i for a 64-bit integer, ItemAt finds i there. */
  lemma IntegerArrives(fp: int -> real, env: seq<JValue>, x: nat, path: seq<Step>, i: int, y: nat, from: seq<Step>)
    requires x < |env| && MayExec(env, On(x, path, Word(TInt, i), y, from)) && -TWO63 <= i < TWO63
    ensures var out := Exec(fp, env, On(x, path, Word(TInt, i), y, from)); |out| == |env| && ItemAt(out[x], path) == Int(i)
  {
    UpdateThere(fp, env[x], path, Word(TInt, i), Null);
    NumbersAreKept(fp, ChildAt(env[x], path), i, 0, false, 0, Null);
    hide Update, ChildAt, ItemAt, MayUpdate;
  }
}
