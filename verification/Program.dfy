/** Whole programs over JSON values: copies, assignments and changes at any depth, run on the reference-counted store,
    give every variable the tree that plain immutable values would give it. */
module Program {
  import opened Bytes
  import opened Decimal
  import opened JsonValue
  import opened Heap
  import opened HeapSteps
  import opened Isolation
  import opened Changes
  import opened CopyOnWrite
  import opened Rewriting
  import opened Placement
  import opened Operations
  import opened Paths
  import opened TreeOps
  import opened ValueOps
  import opened Store
  import opened Scalars

  /** An operand and the target do not hold each other (NoSelf gives this for values in different variables). */
  ghost predicate Operand(w: World, h: Handle, a: Act, y: Handle)
    requires Shape(w)
  {
    && y in w.handles && y in w.owner && w.handles[y] in w.tag
    && (a.Binary() ==> y != h && h in w.handles && !Holds(w, y, h) && !Holds(w, h, y) && WellFormed(w.tag[w.handles[y]]))
  }

  ghost function OperandValue(fp: int -> real, w: World, a: Act, y: Handle): JValue
    requires y in w.handles && w.handles[y] in w.tag
  {
    if a.Binary() then Meaning(fp, w.tag[w.handles[y]]) else Null
  }

  lemma RootIsNotHeld(w: World, h: Handle, y: Handle)
    requires Shape(w) && h in w.handles && Roots(w, y)
    ensures !Holds(w, h, y)
  {
  }

  /** One operation on a value. */
  method Apply(s: ValueStore, h: Handle, a: Act, y: Handle, ghost fp: int -> real)
    requires s.Valid() && h in s.handles && s.handles[h] in s.cells && WellFormed(s.View(h))
    requires Operand(s.W(), h, a, y) && Allowed(Meaning(fp, s.View(h)), a)
    modifies s
    ensures s.Valid() && Done(old(s.W()), s.W(), h) && h in s.handles && WellFormed(s.View(h))
    ensures Meaning(fp, s.View(h)) == ActOn(fp, old(Meaning(fp, s.View(h))), a, old(OperandValue(fp, s.W(), a, y)))
  {
    hide Closed, Labelled, Owned, Counted, Reach, Done, Holds, WellFormed, Meaning, Become, Extended, Shortened, Deprived;
    ghost var t, shared := s.View(h), s.Shared(h);
    TypeShows(fp, s.W(), h);
    DoneHere();
    match a
    case Put =>
      s.Assign(h, y);
    case Itself =>
      s.Assign(h, h);
    case Look =>
      NothingDone(s.W(), h);
    case Add =>
      AppendedMeans(fp, t, shared, s.View(y));
      var k := s.Append(h, y);
    case Word(typ, word) =>
      WithWordMeans(fp, t, shared, typ, word);
      s.SetScalar(h, typ, word);
    case Chars(text) =>
      WithStringMeans(fp, t, shared, text);
      s.SetString(h, text);
    case Concat(text) =>
      ExtendedMeans(fp, t, shared, text);
      var r := s.Cat(h, text);
    case TakeAt(i) =>
      ShortenedMeans(fp, t, shared, i);
      var r := s.Remove(h, i);
    case TakeOf(key) =>
      DeprivedMeans(fp, t, shared, key);
      var r := s.RemoveOf(h, key);
    case Kind(typ) =>
      BecomeMeans(fp, t, shared, typ);
      s.SetType(h, typ);
  }

  /** The type and the number of items can be read off the JSON tree. */
  lemma TypeShows(fp: int -> real, w: World, h: Handle)
    requires Inv(w) && h in w.handles
    ensures w.handles[h] in w.cells && w.handles[h] in w.tag
    ensures w.cells[w.handles[h]].head.typ == TArray <==> Meaning(fp, w.tag[w.handles[h]]).Arr?
    ensures w.cells[w.handles[h]].head.typ == TArray ==>
      |Meaning(fp, w.tag[w.handles[h]]).items| == |w.cells[w.handles[h]].kids|
  {
    Shown(w, h);
  }

  /** One operation on what a path leads to: operator[] along the path, then the operation. */
  method Perform(s: ValueStore, h: Handle, path: seq<Step>, a: Act, y: Handle, ghost fp: int -> real)
    requires s.Valid() && h in s.handles && WellFormed(s.View(h))
    requires Operand(s.W(), h, a, y) && MayUpdate(Meaning(fp, s.View(h)), path, a)
    modifies s
    ensures s.Valid() && Local(old(s.W()), s.W(), h) && h in s.handles && WellFormed(s.View(h))
    ensures Meaning(fp, s.View(h)) == Update(fp, old(Meaning(fp, s.View(h))), path, a, old(OperandValue(fp, s.W(), a, y)))
    decreases |path|
  {
    hide Closed, Labelled, Owned, Counted, Reach, Done, Holds, WellFormed, Meaning;
    hide Changed, Stack, Local, Operand, Open, Inside;
    ghost var w0 := s.W();
    PointsToData(w0, h);
    if path == [] {
      Apply(s, h, a, y, fp);
      DoneIsLocal(w0, s.W(), h);
    } else {
      ghost var t, shared := s.View(h), s.Shared(h);
      OperandIsThere(w0, h, a, y);
      UpdateStep(fp, Meaning(fp, t), path, a, OperandValue(fp, w0, a, y));
      hide Update, MayUpdate;
      var k;
      ghost var i;
      k, i := Locate(s, h, path[0], fp);
      ghost var u := s.W();
      OperandStays(fp, w0, u, h, i, k, a, y);
      Perform(s, k, path[1..], a, if a.Binary() then y else k, fp);
      LocalIn(w0, u, s.W(), h, i, k);
      ItemChanged(fp, t, shared, path[0], i, s.View(k));
    }
  }

  lemma OperandIsThere(w: World, h: Handle, a: Act, y: Handle)
    requires Shape(w) && Operand(w, h, a, y)
    ensures y in w.handles && w.handles[y] in w.tag
  {
    hide Shape, Holds;
  }

  /** operator[] for one step of a path: item i, that is k, of data that is now exclusive. */
  method Locate(s: ValueStore, h: Handle, step: Step, ghost fp: int -> real) returns (k: Handle, ghost i: nat)
    requires s.Valid() && h in s.handles && s.handles[h] in s.cells && WellFormed(s.View(h))
    modifies s
    ensures s.Valid() && StepIn(old(s.W()), s.W(), h, i, k) && h in s.handles && k in s.handles && s.handles[k] in s.cells
    ensures s.View(h) == Reached(old(s.View(h)), old(s.Shared(h)), step) && i == Place(s.View(h), step)
    ensures i < |s.View(h).kids| && WellFormed(s.View(k))
    ensures Meaning(fp, s.View(k)) == Child(old(Meaning(fp, s.View(h))), step)
  {
    hide Closed, Labelled, Owned, Counted, Reach, Done, WellFormed, Meaning;
    hide Changed, Stack, Open, Inside, Grown, Named, Child;
    ghost var w0 := s.W();
    ghost var shared := s.Shared(h);
    Shown(w0, h);
    match step {
      case At(n) => k := s.Item(h, n);
      case In(key) => k := s.ItemOf(h, key);
    }
    ghost var u := s.W();
    HereIn(w0, u, h);
    Shown(u, h);
    i := Place(u.tag[u.handles[h]], step);
    ItemFound(fp, w0, u, h, step, i, k, shared);
  }

  lemma UpdateStep(fp: int -> real, v: JValue, path: seq<Step>, a: Act, operand: JValue)
    requires path != []
    ensures Update(fp, v, path, a, operand) == With(v, path[0], Update(fp, Child(v, path[0]), path[1..], a, operand))
    ensures MayUpdate(v, path, a) <==> MayUpdate(Child(v, path[0]), path[1..], a)
  {
  }

  /** What operator[] does to a tree, and where the item is. */
  ghost function Reached(t: Tree, shared: bool, s: Step): Tree {
    match s
    case At(i) => Grown(t, shared, i)
    case In(key) => Named(t, shared, key)
  }

  ghost function Place(t: Tree, s: Step): nat {
    match s
    case At(i) => i
    case In(key) => IndexOf(t.head.keys, key)
  }

  lemma ItemFound(fp: int -> real, w: World, u: World, h: Handle, s: Step, i: nat, k: Handle, shared: bool)
    requires Inv(w) && Inv(u) && h in w.handles && h in u.handles && w.handles[h] in w.tag && u.handles[h] in u.tag
    requires Open(w, u, h, {}) && Inside(w, u, h) && WellFormed(w.tag[w.handles[h]])
    requires u.tag[u.handles[h]] == Reached(w.tag[w.handles[h]], shared, s) && i == Place(u.tag[u.handles[h]], s)
    requires u.handles[h] in u.cells && i < |u.cells[u.handles[h]].kids| && k == u.cells[u.handles[h]].kids[i]
    ensures StepIn(w, u, h, i, k) && k in u.handles && u.handles[k] in u.tag && u.handles[k] in u.cells
    ensures WellFormed(u.tag[u.handles[k]])
    ensures Meaning(fp, u.tag[u.handles[k]]) == Child(Meaning(fp, w.tag[w.handles[h]]), s)
  {
    hide Closed, Labelled, Owned, Counted, Reach, Meaning, Changed, Stack, Open, Inside, Grown, Named, Child;
    KidTag(u, u.handles[h], i);
    KidOwner(u, u.handles[h], i);
    Shown(u, k);
    WellKid(u.tag[u.handles[h]]);
    match s
    case At(n) => GrownMeans(fp, w.tag[w.handles[h]], shared, n, w.tag[w.handles[h]]);
    case In(key) => NamedMeans(fp, w.tag[w.handles[h]], shared, key, w.tag[w.handles[h]]);
  }

  lemma WellKid(t: Tree)
    ensures WellFormed(t) ==> forall i :: 0 <= i < |t.kids| ==> WellFormed(t.kids[i])
  {
  }

  lemma ItemChanged(fp: int -> real, t: Tree, shared: bool, s: Step, i: nat, x: Tree)
    requires WellFormed(t) && WellFormed(x) && i == Place(Reached(t, shared, s), s) && i < |Reached(t, shared, s).kids|
    ensures var g := Reached(t, shared, s);
      && WellFormed(Tree(g.head, g.kids[i := x]))
      && Meaning(fp, Tree(g.head, g.kids[i := x])) == With(Meaning(fp, t), s, Meaning(fp, x))
  {
    hide Meaning, Grown, Named, With, WellFormed;
    match s
    case At(n) => GrownMeans(fp, t, shared, n, x);
    case In(key) => NamedMeans(fp, t, shared, key, x);
  }

  /** The operand is still an operand for the item. */
  lemma OperandStays(fp: int -> real, w: World, u: World, h: Handle, i: nat, k: Handle, a: Act, y: Handle)
    requires Inv(w) && Inv(u) && StepIn(w, u, h, i, k) && h in w.handles && Operand(w, h, a, y)
    ensures k in u.handles && var z := if a.Binary() then y else k;
      Operand(u, k, a, z) && OperandValue(fp, u, a, z) == OperandValue(fp, w, a, y)
  {
    hide Closed, Labelled, Owned, Counted, Reach, Meaning, Changed, Stack, StepIn, WellFormed, Holds;
    StepParts(w, u, h, i, k);
    if a.Binary() {
      OutsideItem(w, u, h, i, k, y);
      Shown(u, y);
    } else {
      Shown(u, k);
      OwnerIsData(u, k);
    }
  }

  /** operator[] along a path. The item is as far from x, a handle outside h, as h is. */
  method Fetch(s: ValueStore, h: Handle, path: seq<Step>, ghost x: Option<Handle>, ghost fp: int -> real)
    returns (k: Handle)
    requires s.Valid() && h in s.handles && WellFormed(s.View(h)) && Beside(s.W(), h, x)
    modifies s
    ensures s.Valid() && Local(old(s.W()), s.W(), h) && h in s.handles && WellFormed(s.View(h))
    ensures Meaning(fp, s.View(h)) == Update(fp, old(Meaning(fp, s.View(h))), path, Look, Null)
    ensures k in s.handles && WellFormed(s.View(k)) && Beside(s.W(), k, x)
    ensures Meaning(fp, s.View(k)) == ChildAt(old(Meaning(fp, s.View(h))), path)
    ensures if path == [] then k == h else k in s.owner && s.owner[k].Some?
    decreases |path|
  {
    hide Closed, Labelled, Owned, Counted, Reach, Done, Holds, WellFormed, Meaning;
    hide Changed, Stack, Local, Open, Inside, Beside;
    ghost var w0 := s.W();
    PointsToData(w0, h);
    if path == [] {
      NothingDone(w0, h);
      DoneIsLocal(w0, w0, h);
      k := h;
    } else {
      ghost var t, shared := s.View(h), s.Shared(h);
      UpdateStep(fp, Meaning(fp, t), path, Look, Null);
      ChildStep(Meaning(fp, t), path);
      hide Update, ChildAt;
      var c;
      ghost var i;
      c, i := Locate(s, h, path[0], fp);
      ghost var u := s.W();
      StaysBeside(w0, u, h, i, c, x);
      k := Fetch(s, c, path[1..], x, fp);
      LocalIn(w0, u, s.W(), h, i, c);
      ItemChanged(fp, t, shared, path[0], i, s.View(c));
      StepParts(w0, u, h, i, c);
      StillOwned(u, s.W(), c);
    }
  }

  lemma StillOwned(u: World, v: World, c: Handle)
    requires Shape(u) && Shape(v) && Local(u, v, c)
    ensures c in u.owner && c in v.owner && v.owner[c] == u.owner[c]
  {
    hide Labelled, Closed;
  }

  /** Neither of two handles holds the other. */
  ghost predicate Apart(w: World, h: Handle, x: Handle)
    requires Shape(w) && h in w.handles && x in w.handles
  {
    x != h && !Holds(w, x, h) && !Holds(w, h, x)
  }

  ghost predicate Beside(w: World, h: Handle, x: Option<Handle>)
    requires Shape(w) && h in w.handles
  {
    x.Some? ==> x.value in w.handles && Apart(w, h, x.value)
  }

  lemma StaysBeside(w: World, u: World, h: Handle, i: nat, k: Handle, x: Option<Handle>)
    requires Inv(w) && Inv(u) && StepIn(w, u, h, i, k) && h in w.handles && Beside(w, h, x)
    ensures k in u.handles && Beside(u, k, x)
  {
    hide Closed, Labelled, Owned, Counted, Reach, StepIn, Holds;
    StepParts(w, u, h, i, k);
    if x.Some? {
      OutsideItem(w, u, h, i, k, x.value);
    }
  }

  lemma ChildStep(v: JValue, path: seq<Step>)
    requires path != []
    ensures ChildAt(v, path) == ChildAt(Child(v, path[0]), path[1..])
  {
  }

  /** ItemAt along a path: the handle found, if there is one. Nothing is changed, not even a count. */
  method Seek(s: ValueStore, h: Handle, path: seq<Step>, ghost fp: int -> real) returns (found: bool, k: Handle)
    requires s.Valid() && h in s.handles && WellFormed(s.View(h))
    ensures k in s.handles && WellFormed(s.View(k))
    ensures ItemAt(Meaning(fp, s.View(h)), path) == if found then Meaning(fp, s.View(k)) else Invalid
  {
    hide Closed, Labelled, Owned, Counted, Reach, WellFormed, Meaning, Item;
    found, k := true, h;
    var i := 0;
    assert path[0..] == path;
    while i < |path|
      invariant 0 <= i <= |path| && k in s.handles && WellFormed(s.View(k))
      invariant ItemAt(Meaning(fp, s.View(h)), path) == ItemAt(Meaning(fp, s.View(k)), path[i..])
    {
      ItemStep(Meaning(fp, s.View(k)), path[i..]);
      assert path[i..][0] == path[i] && path[i..][1..] == path[i + 1..];
      Shown(s.W(), k);
      SlotShows(fp, s.W(), k, path[i]);
      var cell := s.cells[s.handles[k]];
      var j := Slot(cell, path[i]);
      if j >= |cell.kids| {
        NothingInside(path[i + 1..]);
        found := false;
        return;
      }
      KidOwner(s.W(), s.handles[k], j);
      k := cell.kids[j];
      i := i + 1;
    }
  }

  lemma ItemStep(v: JValue, path: seq<Step>)
    requires path != []
    ensures ItemAt(v, path) == ItemAt(Item(v, path[0]), path[1..])
  {
  }

  /** Where the item lies, or beyond the items if there is none. */
  function Slot(cell: Cell, step: Step): nat {
    match step
    case At(i) => if cell.head.typ == TArray then i else |cell.kids|
    case In(key) =>
      if cell.head.typ == TObject && IndexOf(cell.head.keys, key) < |cell.head.keys| then IndexOf(cell.head.keys, key)
      else |cell.kids|
  }

  lemma SlotShows(fp: int -> real, w: World, h: Handle, step: Step)
    requires Inv(w) && h in w.handles && w.handles[h] in w.cells && w.handles[h] in w.tag && WellFormed(w.tag[w.handles[h]])
    ensures var cell, v := w.cells[w.handles[h]], Meaning(fp, w.tag[w.handles[h]]);
      var j := Slot(cell, step);
      if j < |cell.kids| then
        && cell.kids[j] in w.handles && w.handles[cell.kids[j]] in w.tag && WellFormed(w.tag[w.handles[cell.kids[j]]])
        && Item(v, step) == Meaning(fp, w.tag[w.handles[cell.kids[j]]])
      else Item(v, step) == Invalid
  {
    Shown(w, h);
    hide Closed, Labelled, Owned, Counted, Reach;
    var t, cell := w.tag[w.handles[h]], w.cells[w.handles[h]];
    WellKid(t);
    ItemOfTree(fp, t, step, Slot(cell, step));
  }

  lemma ItemOfTree(fp: int -> real, t: Tree, step: Step, j: nat)
    requires WellFormed(t) && j == Slot(Cell(0, t.head, seq(|t.kids|, i => i)), step)
    ensures Item(Meaning(fp, t), step) == if j < |t.kids| then Meaning(fp, t.kids[j]) else Invalid
  {
    hide WellFormed, Meaning, Members, Meanings;
    MeaningsSize(fp, t.kids);
    match step
    case At(i) =>
      if t.head.typ == TArray {
        ArrayMeans(fp, t);
        if i < |t.kids| { MeaningAt(fp, t.kids, i); }
      } else {
        NoContainer(fp, t);
      }
    case In(key) =>
      if t.head.typ == TObject {
        ObjectMeans(fp, t);
        KeysFit(t);
        MembersAt(t.head.keys, Meanings(fp, t.kids));
        if j < |t.kids| { MeaningAt(fp, t.kids, j); }
      } else {
        NoContainer(fp, t);
      }
  }

  lemma KeysFit(t: Tree)
    requires WellFormed(t) && t.head.typ == TObject
    ensures |t.head.keys| == |t.kids| && Distinct(t.head.keys)
  {
  }

  lemma NoContainer(fp: int -> real, t: Tree)
    ensures t.head.typ != TArray ==> !Meaning(fp, t).Arr?
    ensures t.head.typ != TObject ==> !Meaning(fp, t).Obj?
  {
  }

  // ----- programs

  /** Variables have numbers. On changes something in variable x; if there is an operand, it is an item of variable y,
      to which operator[] leads. Dup makes the next variable a copy of an item that ItemAt finds in variable x, or of x
      itself. New makes the next variable null; Leave ends the last one. */
  datatype Cmd =
    | On(x: nat, path: seq<Step>, a: Act, y: nat, from: seq<Step>)
    | Dup(x: nat, path: seq<Step>)
    | New
    | Leave

  /** What plain values would do. */
  function Exec(fp: int -> real, env: seq<JValue>, c: Cmd): seq<JValue>
    requires MayExec(env, c)
  {
    match c
    case On(x, path, a, y, from) =>
      if a.Binary() then
        var looked := env[y := Update(fp, env[y], from, Look, Null)];
        looked[x := Update(fp, looked[x], path, a, ChildAt(env[y], from))]
      else env[x := Update(fp, env[x], path, a, Null)]
    case Dup(x, path) => env + [ItemAt(env[x], path)]
    case New => env + [Null]
    case Leave => env[..|env| - 1]
  }

  /** A value is not put into one of its own items. An item of its own may be appended to an array; otherwise it is
      put into the value through a copy (Dup). Allowed says the rest. */
  predicate MayExec(env: seq<JValue>, c: Cmd) {
    match c
    case On(x, path, a, y, from) =>
      && x < |env| && (a.Binary() ==> y < |env| && (x != y || AppendsOwn(path, a, from)))
      && MayUpdate(env[x], path, a)
    case Dup(x, _) => x < |env|
    case New => true
    case Leave => env != []
  }

  predicate AppendsOwn(path: seq<Step>, a: Act, from: seq<Step>) {
    a.Add? && path == [] && from != [] && from[0].At?
  }

  predicate MayRun(fp: int -> real, env: seq<JValue>, cs: seq<Cmd>)
    decreases cs
  {
    cs != [] ==> MayExec(env, cs[0]) && MayRun(fp, Exec(fp, env, cs[0]), cs[1..])
  }

  function ExecAll(fp: int -> real, env: seq<JValue>, cs: seq<Cmd>): seq<JValue>
    requires MayRun(fp, env, cs)
    decreases cs
  {
    if cs == [] then env else ExecAll(fp, Exec(fp, env, cs[0]), cs[1..])
  }

  /** The variables are the handles on the stack, and each stands for its value. */
  ghost predicate Bound(fp: int -> real, w: World, vars: seq<Handle>, env: seq<JValue>)
    requires Shape(w)
  {
    && |vars| == |env| && Stack(w) == Elements(vars)
    && (forall i, j :: 0 <= i < j < |vars| ==> vars[i] != vars[j])
    && (forall i :: 0 <= i < |vars| ==> Bind(fp, w, vars[i], env[i]))
  }

  ghost predicate Bind(fp: int -> real, w: World, h: Handle, v: JValue) {
    h in w.handles && w.handles[h] in w.tag && WellFormed(w.tag[w.handles[h]]) && Meaning(fp, w.tag[w.handles[h]]) == v
  }

  lemma Variable(fp: int -> real, w: World, vars: seq<Handle>, env: seq<JValue>, x: nat)
    requires Shape(w) && Bound(fp, w, vars, env) && x < |vars|
    ensures vars[x] in w.handles && w.handles[vars[x]] in w.cells && Roots(w, vars[x]) && Bind(fp, w, vars[x], env[x])
  {
    assert vars[x] in Stack(w);
  }

  /** Two variables do not hold each other. */
  lemma NoSelf(fp: int -> real, w: World, vars: seq<Handle>, env: seq<JValue>, x: nat, y: nat)
    requires Shape(w) && Bound(fp, w, vars, env) && x < |vars| && y < |vars| && x != y
    ensures vars[x] in w.handles && vars[y] in w.handles && Apart(w, vars[y], vars[x])
  {
    Variable(fp, w, vars, env, x);
    Variable(fp, w, vars, env, y);
    hide Closed, Labelled, Stack;
    assert vars[x] != vars[y];
    RootIsNotHeld(w, vars[x], vars[y]);
    RootIsNotHeld(w, vars[y], vars[x]);
  }

  lemma BoundOn(fp: int -> real, w: World, v: World, vars: seq<Handle>, env: seq<JValue>, x: nat, val: JValue)
    requires Inv(w) && Inv(v) && Bound(fp, w, vars, env) && x < |vars| && Local(w, v, vars[x]) && Bind(fp, v, vars[x], val)
    ensures Bound(fp, v, vars, env[x := val])
  {
    hide Closed, Labelled, Owned, Counted, Stack, Holds, WellFormed, Meaning;
    Variable(fp, w, vars, env, x);
    forall i | 0 <= i < |vars| && i != x ensures Bind(fp, v, vars[i], env[i]) {
      Variable(fp, w, vars, env, i);
      assert vars[i] != vars[x];
      RootIsNotHeld(w, vars[x], vars[i]);
      RootIsNotHeld(w, vars[i], vars[x]);
      assert Elsewhere(w, v, vars[x], vars[i]);
      PointsToData(v, vars[i]);
      Tagged(v, v.handles[vars[i]]);
    }
  }

  lemma BoundMore(fp: int -> real, w: World, v: World, vars: seq<Handle>, env: seq<JValue>, h: Handle, t: Tree)
    requires Inv(w) && Inv(v) && Bound(fp, w, vars, env) && h !in w.handles && WellFormed(t)
    requires Env(v) == Env(w)[h := t]
    ensures Bound(fp, v, vars + [h], env + [Meaning(fp, t)])
  {
    hide Inv, Shape, Stack, WellFormed, Meaning, Env, Bind;
    EnvIsTags(w);
    EnvIsTags(v);
    forall i | 0 <= i < |vars| ensures Bind(fp, v, vars[i], env[i]) && vars[i] != h {
      assert vars[i] in Elements(vars);
      SameBind(fp, w, v, vars[i], env[i]);
    }
    NewBind(fp, v, h, t);
    assert Elements(vars + [h]) == Elements(vars) + {h};
  }

  lemma SameBind(fp: int -> real, w: World, v: World, h: Handle, val: JValue)
    requires Bind(fp, w, h, val) && h in v.handles && v.handles[h] in v.tag && w.handles[h] in w.tag
    requires v.tag[v.handles[h]] == w.tag[w.handles[h]]
    ensures Bind(fp, v, h, val)
  {
  }

  lemma NewBind(fp: int -> real, v: World, h: Handle, t: Tree)
    requires h in v.handles && v.handles[h] in v.tag && v.tag[v.handles[h]] == t && WellFormed(t)
    ensures Bind(fp, v, h, Meaning(fp, t))
  {
  }

  lemma BoundLess(fp: int -> real, w: World, v: World, vars: seq<Handle>, env: seq<JValue>)
    requires Inv(w) && Inv(v) && Bound(fp, w, vars, env) && vars != [] && Shrunk(w, v)
    requires Stack(v) == Stack(w) - {vars[|vars| - 1]}
    ensures Bound(fp, v, vars[..|vars| - 1], env[..|env| - 1])
  {
    hide Inv, Shape, Stack, WellFormed, Meaning, Env, Bind;
    var n := |vars| - 1;
    EnvIsTags(w);
    EnvIsTags(v);
    assert vars == vars[..n] + [vars[n]];
    assert Elements(vars) == Elements(vars[..n]) + {vars[n]};
    assert vars[n] !in vars[..n];
    forall i | 0 <= i < n ensures Bind(fp, v, vars[i], env[i]) {
      assert vars[i] in Elements(vars[..n]);
      SameBind(fp, w, v, vars[i], env[i]);
    }
  }

  /** An operation on an item of x. */
  method DoOn(s: ValueStore, vars: seq<Handle>, x: nat, path: seq<Step>, a: Act, y: nat, from: seq<Step>,
      ghost fp: int -> real, ghost env: seq<JValue>)
    requires s.Valid() && Bound(fp, s.W(), vars, env) && MayExec(env, On(x, path, a, y, from))
    modifies s
    ensures s.Valid() && Bound(fp, s.W(), vars, Exec(fp, env, On(x, path, a, y, from)))
  {
    hide Closed, Labelled, Owned, Counted, Reach, Stack, WellFormed, Meaning, Local, Operand, Env, Apart, Bound, Bind;
    ghost var w0 := s.W();
    Sizes(fp, w0, vars, env);
    Variable(fp, w0, vars, env, x);
    BindMeans(fp, w0, vars[x], env[x]);
    if a.Binary() && x == y {
      var k := Fetch(s, vars[x], from, None, fp);
      ghost var w1 := s.W();
      ghost var env1 := env[x := Update(fp, env[x], from, Look, Null)];
      NowBound(fp, w0, w1, vars, env, x, env1[x]);
      RootAfter(w0, w1, vars[x]);
      LookedIsArray(fp, env[x], from);
      AppendOwn(s, vars[x], k, fp);
      NowBound(fp, w1, s.W(), vars, env1, x, Arr(env1[x].items + [ChildAt(env[x], from)]));
    } else if a.Binary() {
      Variable(fp, w0, vars, env, y);
      BindMeans(fp, w0, vars[y], env[y]);
      NoSelf(fp, w0, vars, env, x, y);
      var k := Fetch(s, vars[y], from, Some(vars[x]), fp);
      ghost var w1 := s.W();
      ghost var env1 := env[y := Update(fp, env[y], from, Look, Null)];
      NowBound(fp, w0, w1, vars, env, y, env1[y]);
      Variable(fp, w1, vars, env1, x);
      BindMeans(fp, w1, vars[x], env[x]);
      Shown(w1, k);
      MayOperate(fp, w1, vars[x], a, k);
      Perform(s, vars[x], path, a, k, fp);
      NowBound(fp, w1, s.W(), vars, env1, x, Update(fp, env[x], path, a, ChildAt(env[y], from)));
    } else {
      NoOperand(fp, w0, vars[x], a);
      Perform(s, vars[x], path, a, vars[x], fp);
      NowBound(fp, w0, s.W(), vars, env, x, Update(fp, env[x], path, a, Null));
    }
  }

  /** Append of an item to the array it lies in. */
  method AppendOwn(s: ValueStore, h: Handle, k: Handle, ghost fp: int -> real)
    requires s.Valid() && Roots(s.W(), h) && WellFormed(s.View(h)) && Meaning(fp, s.View(h)).Arr?
    requires k in s.handles && k != h && WellFormed(s.View(k))
    modifies s
    ensures s.Valid() && Local(old(s.W()), s.W(), h) && h in s.handles && WellFormed(s.View(h))
    ensures Meaning(fp, s.View(h)) == old(Arr(Meaning(fp, s.View(h)).items + [Meaning(fp, s.View(k))]))
  {
    hide Closed, Labelled, Owned, Counted, Reach, Done, WellFormed, Meaning, Local, Holds;
    ghost var w0 := s.W();
    TypeShows(fp, w0, h);
    RootIsNotHeld(w0, k, h);
    AppendedMeans(fp, s.View(h), s.Shared(h), s.View(k));
    var last := s.Append(h, k);
    DoneHere();
    DoneIsLocal(w0, s.W(), h);
  }

  lemma LookedIsArray(fp: int -> real, v: JValue, from: seq<Step>)
    requires from != [] && from[0].At?
    ensures Update(fp, v, from, Look, Null).Arr?
  {
  }

  lemma RootAfter(w: World, v: World, h: Handle)
    requires Shape(w) && Shape(v) && Local(w, v, h) && Roots(w, h)
    ensures Roots(v, h)
  {
    hide Closed, Labelled;
  }

  lemma Sizes(fp: int -> real, w: World, vars: seq<Handle>, env: seq<JValue>)
    requires Shape(w) && Bound(fp, w, vars, env)
    ensures |vars| == |env|
  {
  }

  lemma BindMeans(fp: int -> real, w: World, h: Handle, v: JValue)
    requires Bind(fp, w, h, v)
    ensures h in w.handles && w.handles[h] in w.tag && WellFormed(w.tag[w.handles[h]])
    ensures Meaning(fp, w.tag[w.handles[h]]) == v
  {
  }

  lemma MayOperate(fp: int -> real, w: World, h: Handle, a: Act, k: Handle)
    requires Inv(w) && h in w.handles && k in w.handles && Apart(w, k, h)
    requires w.handles[k] in w.tag && WellFormed(w.tag[w.handles[k]]) && a.Binary()
    ensures Operand(w, h, a, k) && OperandValue(fp, w, a, k) == Meaning(fp, w.tag[w.handles[k]])
  {
    hide Labelled, Owned, Counted, WellFormed, Meaning, Holds;
    OwnerIsData(w, k);
  }

  lemma NoOperand(fp: int -> real, w: World, h: Handle, a: Act)
    requires Inv(w) && h in w.handles && w.handles[h] in w.tag && !a.Binary()
    ensures Operand(w, h, a, h) && OperandValue(fp, w, a, h) == Null
  {
    hide Labelled, Owned, Counted, WellFormed, Meaning, Holds;
    OwnerIsData(w, h);
  }

  /** The variable x has its new value, the others have theirs. */
  lemma NowBound(fp: int -> real, w: World, v: World, vars: seq<Handle>, env: seq<JValue>, x: nat, val: JValue)
    requires Inv(w) && Inv(v) && Bound(fp, w, vars, env) && x < |vars| && Local(w, v, vars[x])
    requires vars[x] in v.handles && (v.handles[vars[x]] in v.tag ==> WellFormed(v.tag[v.handles[vars[x]]]))
    requires v.handles[vars[x]] in v.tag ==> Meaning(fp, v.tag[v.handles[vars[x]]]) == val
    ensures x < |env| && Bound(fp, v, vars, env[x := val])
  {
    hide Labelled, Owned, Counted, Stack, WellFormed, Meaning, Local;
    PointsToData(v, vars[x]);
    Tagged(v, v.handles[vars[x]]);
    BoundOn(fp, w, v, vars, env, x, val);
  }

  /** A copy of an item of x, or of an invalid value if there is no such item. */
  method DoDup(s: ValueStore, vars: seq<Handle>, x: nat, path: seq<Step>, ghost fp: int -> real, ghost env: seq<JValue>)
    returns (h: Handle)
    requires s.Valid() && Bound(fp, s.W(), vars, env) && x < |env|
    modifies s
    ensures s.Valid() && Bound(fp, s.W(), vars + [h], env + [ItemAt(env[x], path)])
  {
    hide Closed, Labelled, Owned, Counted, Reach, Stack, WellFormed, Meaning, Env, Bound, Bind;
    ghost var w0 := s.W();
    Sizes(fp, w0, vars, env);
    Variable(fp, w0, vars, env, x);
    BindMeans(fp, w0, vars[x], env[x]);
    var found, k := Seek(s, vars[x], path, fp);
    if found {
      Shown(w0, k);
      h := s.Copy(k);
      BoundMore(fp, w0, s.W(), vars, env, h, w0.tag[w0.handles[k]]);
    } else {
      h := s.NewValue(EMPTY);
      EmptyMeans(fp);
      BoundMore(fp, w0, s.W(), vars, env, h, Tree(EMPTY, []));
    }
  }

  lemma EmptyMeans(fp: int -> real)
    ensures WellFormed(Tree(EMPTY, [])) && Meaning(fp, Tree(EMPTY, [])) == Invalid
  {
  }

  method Do(s: ValueStore, vars: seq<Handle>, c: Cmd, ghost fp: int -> real, ghost env: seq<JValue>)
    returns (after: seq<Handle>)
    requires s.Valid() && Bound(fp, s.W(), vars, env) && MayExec(env, c)
    modifies s
    ensures s.Valid() && Bound(fp, s.W(), after, Exec(fp, env, c))
  {
    hide Closed, Labelled, Owned, Counted, Reach, Stack, WellFormed, Meaning, Local, Operand, Env;
    ghost var w0 := s.W();
    after := vars;
    match c
    case On(x, path, a, y, from) =>
      DoOn(s, vars, x, path, a, y, from, fp, env);
    case Dup(x, path) =>
      var h := DoDup(s, vars, x, path, fp, env);
      after := vars + [h];
    case New =>
      var h := s.NewValue(NULL);
      NullMeans(fp);
      BoundMore(fp, w0, s.W(), vars, env, h, Tree(NULL, []));
      after := vars + [h];
    case Leave =>
      Variable(fp, w0, vars, env, |vars| - 1);
      s.Release(vars[|vars| - 1]);
      BoundLess(fp, w0, s.W(), vars, env);
      after := vars[..|vars| - 1];
  }

  lemma NullMeans(fp: int -> real)
    ensures WellFormed(Tree(NULL, [])) && Meaning(fp, Tree(NULL, [])) == Null
  {
  }

  /** Any program: what the variables stand for in the end is what plain values would be, the memory satisfies its
      invariant (counts are exact, nothing is in a cycle), and if no variable is left nothing is. */
  method Run(cs: seq<Cmd>, ghost fp: int -> real) returns (s: ValueStore, vars: seq<Handle>)
    requires MayRun(fp, [], cs)
    ensures s.Valid() && Bound(fp, s.W(), vars, ExecAll(fp, [], cs))
    ensures vars == [] ==> s.cells == map[]
    ensures forall k :: 0 <= k < |vars| ==> In64Bits(ExecAll(fp, [], cs)[k])
  {
    hide In64Bits;
    s := new ValueStore();
    vars := [];
    ghost var env: seq<JValue> := [];
    NoVariables(fp, s.W());
    var i := 0;
    assert cs[0..] == cs;
    while i < |cs|
      invariant 0 <= i <= |cs|
      invariant s.Valid() && Bound(fp, s.W(), vars, env) && fresh(s)
      invariant MayRun(fp, env, cs[i..]) && ExecAll(fp, env, cs[i..]) == ExecAll(fp, [], cs)
    {
      assert cs[i..][0] == cs[i] && cs[i..][1..] == cs[i + 1..];
      vars := Do(s, vars, cs[i], fp, env);
      env := Exec(fp, env, cs[i]);
      i := i + 1;
    }
    BoundIn64(fp, s.W(), vars, env);
    if vars == [] {
      NothingLeft(s.W());
    }
  }

  /** Every number that a variable holds, at whatever depth, fits 64 bits. */
  lemma BoundIn64(fp: int -> real, w: World, vars: seq<Handle>, env: seq<JValue>)
    requires Inv(w) && Bound(fp, w, vars, env)
    ensures |env| == |vars| && forall k :: 0 <= k < |vars| ==> In64Bits(env[k])
  {
    hide Meaning, WellFormed, Inv, Shape, In64Bits, Stack;
    forall k | 0 <= k < |env| ensures In64Bits(env[k]) {
      assert Bind(fp, w, vars[k], env[k]);
      MeaningIn64(fp, w.tag[w.handles[vars[k]]]);
    }
  }

  lemma NoVariables(fp: int -> real, w: World)
    requires Inv(w) && Env(w) == map[]
    ensures Bound(fp, w, [], [])
  {
    EnvIsTags(w);
  }

  lemma {:induction false} Largest(w: World, ps: set<Ptr>) returns (m: Ptr)
    requires ps != {} && ps <= w.tag.Keys
    ensures m in ps && forall p :: p in ps ==> Size(w.tag[p]) <= Size(w.tag[m])
  {
    m :| m in ps;
    if ps != {m} {
      var n := Largest(w, ps - {m});
      if Size(w.tag[m]) < Size(w.tag[n]) {
        m := n;
      }
    }
  }

  /** What a handle in data points at is smaller than the data. */
  lemma Enclosed(w: World, p: Ptr) returns (q: Ptr)
    requires Inv(w) && Stack(w) == {} && p in w.cells
    ensures p in w.tag && q in w.tag && q in w.cells && Size(w.tag[p]) < Size(w.tag[q])
  {
    assert Sharers(w, p) != {};
    var h :| h in Sharers(w, p);
    assert h !in Stack(w);
    var j := SlotOf(w, h);
    q := w.owner[h].value;
    KidTag(w, q, j);
    SizeOfKid(w.tag[q].kids, j);
  }

  /** Without variables there is no data: the largest tree would have to lie in a larger one. */
  lemma NothingLeft(w: World)
    requires Inv(w) && Stack(w) == {}
    ensures w.cells == map[]
  {
    hide Labelled, Owned, Counted, Stack;
    if w.cells.Keys != {} {
      var m := Largest(w, w.cells.Keys);
      var q := Enclosed(w, m);
    }
    assert w.cells.Keys == {};
  }
}
