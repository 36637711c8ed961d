/** Clear (apps/jsonval.cpp), which calls UnRef and then SetType on the handle that UnRef leaves behind. Between the two
    the reference counts may be wrong, so the steps are functions of the bare memory. */
module Clearing {
  import opened Bytes
  import opened Decimal
  import opened JsonValue
  import opened Heap
  import opened HeapSteps
  import opened Isolation
  import opened Changes
  import opened CopyOnWrite
  import opened Rewriting
  import opened Placement
  import opened TreeOps
  import opened Operations

  /** Pointers and data, as the source has them. A handle whose pointer is null has no entry. */
  datatype Memory = Memory(handles: map<Handle, Ptr>, cells: map<Ptr, Cell>, next: nat)

  ghost function Mem(w: World): Memory {
    Memory(w.handles, w.cells, w.next)
  }

  predicate Live(m: Memory, h: Handle) {
    h in m.handles && m.handles[h] in m.cells
  }

  function Pointers(m: Memory, p: Ptr): set<Handle> {
    set h | h in m.handles && m.handles[h] == p
  }

  predicate Counts(m: Memory) {
    forall p :: p in m.cells ==> m.cells[p].refCount == |Pointers(m, p)|
  }

  function Recount(m: Memory, p: Ptr, d: int): Memory {
    if p in m.cells then m.(cells := m.cells[p := m.cells[p].(refCount := m.cells[p].refCount + d)]) else m
  }

  // ----- the steps

  /** The destructor of one handle, up to the items of the data that goes with it. */
  function EndOne(m: Memory, h: Handle): (r: Memory)
    requires Live(m, h)
    ensures r.handles == m.handles - {h}
  {
    var p := m.handles[h];
    if m.cells[p].refCount > 1 then Recount(m, p, -1).(handles := m.handles - {h})
    else m.(handles := m.handles - {h}, cells := m.cells - {p})
  }

  /** The items that end with h. */
  function Falling(m: Memory, h: Handle): seq<Handle>
    requires Live(m, h)
  {
    var cell := m.cells[m.handles[h]];
    if cell.refCount > 1 then [] else cell.kids
  }

  /** The destructors of several handles, each followed by those of the items that end with it. */
  function EndAll(m: Memory, hs: seq<Handle>): (r: Memory)
    ensures r.handles.Keys <= m.handles.Keys
    decreases |m.handles|
  {
    if hs == [] || !Live(m, hs[0]) then m
    else
      FewerHandles(m.handles, hs[0]);
      EndAll(EndOne(m, hs[0]), Falling(m, hs[0]) + hs[1..])
  }

  lemma FewerHandles(m: map<Handle, Ptr>, h: Handle)
    requires h in m
    ensures |m - {h}| < |m|
  {
    assert (m - {h}).Keys == m.Keys - {h};
    assert |m - {h}| == |(m - {h}).Keys| && |m| == |m.Keys|;
  }

  /** UnRef: the count goes down, and the last reference takes the data with it and becomes null. The pointer to data
      that stays is kept. */
  function UnRef(m: Memory, h: Handle): Memory
    requires Live(m, h)
  {
    var p := m.handles[h];
    if m.cells[p].refCount > 1 then Recount(m, p, -1)
    else EndAll(m.(handles := m.handles - {h}, cells := m.cells - {p}), m.cells[p].kids)
  }

  function ShareOne(m: Memory, k: Handle): Memory {
    if k in m.handles then
      Recount(m.(handles := m.handles[m.next := m.handles[k]], next := m.next + 1), m.handles[k], 1)
    else m
  }

  function ShareAll(m: Memory, ks: seq<Handle>): Memory {
    if ks == [] then m else ShareOne(ShareAll(m, ks[..|ks| - 1]), ks[|ks| - 1])
  }

  /** CloneRefData for h, whose data was `cell`. */
  function Clone(m: Memory, h: Handle, cell: Cell): Memory {
    var s := ShareAll(m, cell.kids);
    var n := s.next;
    Memory(s.handles[h := n], s.cells[n := Cell(1, ClonedHead(cell.head), From(m.next, |cell.kids|))], n + 1)
  }

  /** COW: AllocExclusive decides by the count it finds. */
  function Cow(m: Memory, h: Handle): Memory {
    if !Live(m, h) then
      Memory(m.handles[h := m.next], m.cells[m.next := Cell(1, EMPTY, [])], m.next + 1)
    else if m.cells[m.handles[h]].refCount > 1 then
      Clone(UnRef(m, h), h, m.cells[m.handles[h]])
    else m
  }

  function TypeOf(m: Memory, h: Handle): Type {
    if Live(m, h) then m.cells[m.handles[h]].head.typ else TInvalid
  }

  /** What the new type leaves of the items, and which of them end. */
  function Kept(cell: Cell): seq<Handle> {
    if cell.head.typ == TArray || cell.head.typ == TObject then [] else cell.kids
  }

  function Lost(cell: Cell): seq<Handle> {
    if cell.head.typ == TArray || cell.head.typ == TObject then cell.kids else []
  }

  function RetypedHead(head: Head, typ: Type): Head {
    Retyped(Tree(head, []), typ).head
  }

  /** The tail of SetType: the data p takes the type, and its old content ends. */
  function Retype(m: Memory, p: Ptr, typ: Type): Memory
    requires p in m.cells
  {
    var cell := m.cells[p];
    EndAll(m.(cells := m.cells[p := Cell(cell.refCount, RetypedHead(cell.head, typ), Kept(cell))]), Lost(cell))
  }

  function SetType(m: Memory, h: Handle, typ: Type): Memory {
    var c := Cow(m, h);
    if typ == TypeOf(m, h) || !Live(c, h) then c else Retype(c, c.handles[h], typ)
  }

  function Clear(m: Memory, h: Handle): Memory
    requires Live(m, h)
  {
    SetType(UnRef(m, h), h, TInvalid)
  }

  // ----- the destructors leave alone what they do not reach

  /** All that does not concern the data s. */
  ghost function Far(m: Memory, s: Ptr): (map<Handle, Ptr>, map<Ptr, Cell>) {
    (map h | h in m.handles && m.handles[h] != s :: m.handles[h], m.cells - {s})
  }

  /** m and r agree about s. */
  ghost predicate Near(m: Memory, r: Memory, s: Ptr) {
    && Pointers(m, s) == Pointers(r, s) && m.next == r.next
    && (s in m.cells <==> s in r.cells) && (s in m.cells ==> m.cells[s] == r.cells[s])
  }

  lemma FarMeans(m: Memory, b: Memory, s: Ptr, h: Handle)
    requires Far(m, s) == Far(b, s) && Live(m, h) && m.handles[h] != s
    ensures Live(b, h) && b.handles[h] == m.handles[h] && b.cells[b.handles[h]] == m.cells[m.handles[h]]
  {
    assert h in Far(m, s).0 && m.handles[h] in Far(m, s).1;
  }

  lemma EndOneAside(m: Memory, b: Memory, s: Ptr, h: Handle)
    requires Far(m, s) == Far(b, s) && Live(m, h) && Live(b, h) && m.handles[h] == b.handles[h] != s
    requires m.cells[m.handles[h]] == b.cells[b.handles[h]]
    ensures Far(EndOne(m, h), s) == Far(EndOne(b, h), s) && Near(b, EndOne(b, h), s)
  {
    FarAfter(m, s, h);
    FarAfter(b, s, h);
    NearAfter(b, s, h);
  }

  lemma FarAfter(m: Memory, s: Ptr, h: Handle)
    requires Live(m, h) && m.handles[h] != s
    ensures var p := m.handles[h];
      Far(EndOne(m, h), s) == (Far(m, s).0 - {h},
        if m.cells[p].refCount > 1 then Far(m, s).1[p := m.cells[p].(refCount := m.cells[p].refCount - 1)]
        else Far(m, s).1 - {p})
  {
    var p, e := m.handles[h], EndOne(m, h);
    assert Far(e, s).0 == Far(m, s).0 - {h};
    if m.cells[p].refCount > 1 {
      assert e.cells - {s} == (m.cells - {s})[p := m.cells[p].(refCount := m.cells[p].refCount - 1)];
    } else {
      assert e.cells - {s} == m.cells - {s} - {p};
    }
  }

  lemma NearAfter(m: Memory, s: Ptr, h: Handle)
    requires Live(m, h) && m.handles[h] != s
    ensures Near(m, EndOne(m, h), s)
  {
    assert Pointers(m, s) == Pointers(EndOne(m, h), s);
  }

  lemma FarAndNear(m: Memory, b: Memory, s: Ptr)
    requires Far(m, s) == Far(b, s) && Near(m, b, s)
    ensures m == b
  {
    assert m.handles == b.handles by {
      forall h | h in m.handles ensures h in b.handles && b.handles[h] == m.handles[h] {
        if m.handles[h] == s { assert h in Pointers(m, s); } else { assert h in Far(m, s).0; }
      }
      forall h | h in b.handles ensures h in m.handles {
        if b.handles[h] == s { assert h in Pointers(b, s); } else { assert h in Far(b, s).0; }
      }
    }
    assert m.cells == b.cells by {
      forall q | q in m.cells && q != s ensures q in b.cells && b.cells[q] == m.cells[q] {
        assert q in Far(m, s).1;
      }
      forall q | q in b.cells && q != s ensures q in m.cells { assert q in Far(b, s).1; }
    }
  }

  /** h is on the stack and does not reach s. */
  ghost predicate MayEnd(u: World, h: Handle, s: Ptr)
    requires Shape(u)
  {
    Roots(u, h) && !Reach(u, u.handles[h], s)
  }

  /** Handles that are about to end. */
  ghost predicate Ending(u: World, hs: seq<Handle>, s: Ptr)
    requires Shape(u)
  {
    && (forall i :: 0 <= i < |hs| ==> MayEnd(u, hs[i], s))
    && (forall i, j :: 0 <= i < j < |hs| ==> hs[i] != hs[j])
  }

  lemma EndOneIsDrop(u: World, h: Handle)
    requires Inv(u) && Roots(u, h)
    ensures Live(Mem(u), h) && Mem(DropW(u, h)) == EndOne(Mem(u), h)
  {
    DropDomain(u, h);
    DropParts(u, h);
    hide Closed, Labelled, Owned, Counted, DropW, Roots;
  }

  lemma EndingStep(u: World, hs: seq<Handle>, s: Ptr)
    requires Inv(u) && hs != [] && Ending(u, hs, s) && Live(Mem(u), hs[0]) && Inv(DropW(u, hs[0]))
    ensures Ending(DropW(u, hs[0]), Falling(Mem(u), hs[0]) + hs[1..], s)
  {
    hide *;
    LiveHere(u, hs[0]);
    ShapeOf(u);
    ShapeOf(DropW(u, hs[0]));
    FallingEnd(u, hs, s);
    RestEnds(u, hs, s);
    FallingParts(u, hs[0]);
    RestParts(u, hs, s);
    AllEnd(u, DropW(u, hs[0]), Falling(Mem(u), hs[0]), hs[1..], s);
  }

  lemma LiveHere(w: World, h: Handle)
    requires Live(Mem(w), h)
    ensures h in w.handles && w.handles[h] in w.cells
  {
  }

  lemma FallingEnd(u: World, hs: seq<Handle>, s: Ptr)
    requires Inv(u) && hs != [] && Ending(u, hs, s) && Live(Mem(u), hs[0]) && Inv(DropW(u, hs[0]))
    ensures Shape(DropW(u, hs[0]))
    ensures forall i :: 0 <= i < |Falling(Mem(u), hs[0])| ==> MayEnd(DropW(u, hs[0]), Falling(Mem(u), hs[0])[i], s)
  {
    hide MayEnd, Ending, DropW, Falling;
    forall i | 0 <= i < |Falling(Mem(u), hs[0])| ensures MayEnd(DropW(u, hs[0]), Falling(Mem(u), hs[0])[i], s) {
      KidEnds(u, hs, s, i);
    }
  }

  lemma RestEnds(u: World, hs: seq<Handle>, s: Ptr)
    requires Inv(u) && hs != [] && Ending(u, hs, s) && Live(Mem(u), hs[0]) && Inv(DropW(u, hs[0]))
    ensures Shape(DropW(u, hs[0]))
    ensures forall i :: 0 <= i < |hs[1..]| ==> MayEnd(DropW(u, hs[0]), hs[1..][i], s)
  {
    hide MayEnd, Ending, DropW;
    forall i | 0 <= i < |hs[1..]| ensures MayEnd(DropW(u, hs[0]), hs[1..][i], s) { OtherEnds(u, hs, s, i + 1); }
  }

  lemma RestParts(u: World, hs: seq<Handle>, s: Ptr)
    requires Shape(u) && hs != [] && Ending(u, hs, s)
    ensures forall i :: 0 <= i < |hs[1..]| ==> Roots(u, hs[1..][i])
    ensures forall i, j :: 0 <= i < j < |hs[1..]| ==> hs[1..][i] != hs[1..][j]
  {
    EndingParts(u, hs, s);
    hide Shape, Ending, Roots;
  }

  lemma EndingParts(u: World, hs: seq<Handle>, s: Ptr)
    requires Shape(u) && Ending(u, hs, s)
    ensures forall i :: 0 <= i < |hs| ==> Roots(u, hs[i])
    ensures forall i, j :: 0 <= i < j < |hs| ==> hs[i] != hs[j]
  {
    hide Reach, Shape;
    forall i | 0 <= i < |hs| ensures Roots(u, hs[i]) { assert MayEnd(u, hs[i], s); }
  }

  lemma FallingParts(u: World, x: Handle)
    requires Inv(u) && Live(Mem(u), x)
    ensures var more := Falling(Mem(u), x);
      (forall i :: 0 <= i < |more| ==> !Roots(u, more[i])) && forall i, j :: 0 <= i < j < |more| ==> more[i] != more[j]
  {
    KidsOff(u, x);
  }

  /** Items that fall, and handles that were on the stack before. */
  lemma AllEnd(u: World, v: World, a: seq<Handle>, b: seq<Handle>, s: Ptr)
    requires Shape(v) && (forall i :: 0 <= i < |a| ==> MayEnd(v, a[i], s)) && forall i :: 0 <= i < |b| ==> MayEnd(v, b[i], s)
    requires forall i, j :: 0 <= i < j < |a| ==> a[i] != a[j]
    requires forall i, j :: 0 <= i < j < |b| ==> b[i] != b[j]
    requires (forall i :: 0 <= i < |a| ==> !Roots(u, a[i])) && forall i :: 0 <= i < |b| ==> Roots(u, b[i])
    ensures Ending(v, a + b, s)
  {
    hide Shape, MayEnd, Roots;
    var all := a + b;
    forall i | 0 <= i < |all| ensures MayEnd(v, all[i], s) { assert all[i] == if i < |a| then a[i] else b[i - |a|]; }
    forall i, j | 0 <= i < j < |all| ensures all[i] != all[j] {
      if j < |a| {
        assert all[i] == a[i] && all[j] == a[j];
      } else if i < |a| {
        assert all[i] == a[i] && all[j] == b[j - |a|];
      } else {
        assert all[i] == b[i - |a|] && all[j] == b[j - |a|];
      }
    }
  }

  lemma KidsOff(u: World, x: Handle)
    requires Inv(u) && x in u.handles && u.handles[x] in u.cells
    ensures var kids := u.cells[u.handles[x]].kids;
      (forall i :: 0 <= i < |kids| ==> !Roots(u, kids[i])) && forall i, j :: 0 <= i < j < |kids| ==> kids[i] != kids[j]
  {
    DistinctKids(u, x);
  }

  lemma KidEnds(u: World, hs: seq<Handle>, s: Ptr, i: nat)
    requires Inv(u) && hs != [] && Ending(u, hs, s) && Live(Mem(u), hs[0]) && Inv(DropW(u, hs[0]))
    requires i < |Falling(Mem(u), hs[0])|
    ensures MayEnd(DropW(u, hs[0]), Falling(Mem(u), hs[0])[i], s)
  {
    var x := hs[0];
    var v, p, k := DropW(u, x), u.handles[x], Falling(Mem(u), x)[i];
    assert MayEnd(u, x, s);
    DropShrinks(u, x);
    CountedOne(u, p);
    KidOwner(u, p, i);
    KidFalls(u, x, i);
    hide Labelled, Counted, Reach, Owned, DropW;
    if Reach(u, u.handles[k], s) { StepAndReach(u, p, i, s); }
    NoNewReach(u, v, k, s);
  }

  lemma OtherEnds(u: World, hs: seq<Handle>, s: Ptr, i: nat)
    requires Inv(u) && hs != [] && Ending(u, hs, s) && Live(Mem(u), hs[0]) && Inv(DropW(u, hs[0])) && 0 < i < |hs|
    ensures MayEnd(DropW(u, hs[0]), hs[i], s)
  {
    assert MayEnd(u, hs[0], s) && MayEnd(u, hs[i], s) && hs[0] != hs[i];
    DropShrinks(u, hs[0]);
    RootRemains(u, hs[0], hs[i]);
    PointsToData(u, hs[i]);
    hide Labelled, Counted, Reach, Owned, DropW;
    NoNewReach(u, DropW(u, hs[0]), hs[i], s);
  }

  lemma KidFalls(u: World, x: Handle, i: nat)
    requires Inv(u) && Roots(u, x) && u.handles[x] in u.cells && u.cells[u.handles[x]].refCount == 1
    requires i < |u.cells[u.handles[x]].kids|
    ensures Roots(DropW(u, x), u.cells[u.handles[x]].kids[i])
  {
    hide Labelled, Counted;
    KidOwner(u, u.handles[x], i);
  }

  lemma RootRemains(u: World, x: Handle, y: Handle)
    requires Inv(u) && Roots(u, x) && Roots(u, y) && x != y
    ensures Roots(DropW(u, x), y)
  {
    hide Labelled, Counted, Owned;
  }

  lemma NoNewReach(u: World, v: World, y: Handle, s: Ptr)
    requires Inv(u) && Inv(v) && Shrunk(u, v) && y in u.handles && y in v.handles && u.handles[y] in u.cells
    requires !Reach(u, u.handles[y], s)
    ensures v.handles[y] in v.cells && !Reach(v, v.handles[y], s)
  {
    hide Labelled, Owned, Counted, Reach;
    PointsToData(v, y);
    if Reach(v, v.handles[y], s) { ReachGrows(u, v, v.handles[y], s); }
  }

  /** What the destructors of hs do to u they do to m, which differs about s only, and to s they do nothing. */
  ghost predicate Ended(u: World, v: World, hs: seq<Handle>, m: Memory, s: Ptr) {
    && Mem(v) == EndAll(Mem(u), hs) && Far(Mem(v), s) == Far(EndAll(m, hs), s)
    && Near(Mem(u), Mem(v), s) && Near(m, EndAll(m, hs), s)
    && Shrunk(u, v) && Stack(v) == Stack(u) - Elements(hs)
  }

  lemma {:induction false} EndedWorld(u: World, hs: seq<Handle>, m: Memory, s: Ptr) returns (v: World)
    requires Inv(u) && Ending(u, hs, s) && Far(Mem(u), s) == Far(m, s)
    ensures Inv(v) && Ended(u, v, hs, m, s)
    decreases |u.handles|
  {
    hide *;
    if hs == [] {
      v := u;
      NoneEnded(u, m, s);
    } else {
      ShapeOf(u);
      EndFirst(u, hs, m, s);
      v := EndedWorld(DropW(u, hs[0]), Falling(Mem(u), hs[0]) + hs[1..], EndOne(m, hs[0]), s);
      EndedStep(u, v, hs, m, s);
    }
  }

  lemma NoneEnded(u: World, m: Memory, s: Ptr)
    requires Inv(u) && Far(Mem(u), s) == Far(m, s)
    ensures Ended(u, u, [], m, s)
  {
    hide Far, Labelled, Owned, Counted, Reach;
    assert Elements([]) == {};
    NothingShrinks(u);
  }

  lemma EndedStep(u: World, v: World, hs: seq<Handle>, m: Memory, s: Ptr)
    requires hs != [] && Live(Mem(u), hs[0]) && Live(m, hs[0]) && Falling(m, hs[0]) == Falling(Mem(u), hs[0])
    requires hs[0] in u.handles && u.handles[hs[0]] in u.cells && Shrunk(u, DropW(u, hs[0]))
    requires Mem(DropW(u, hs[0])) == EndOne(Mem(u), hs[0])
    requires Stack(DropW(u, hs[0])) == Stack(u) - {hs[0]} + Elements(Falling(Mem(u), hs[0]))
    requires Near(Mem(u), EndOne(Mem(u), hs[0]), s) && Near(m, EndOne(m, hs[0]), s)
    requires forall i :: 0 <= i < |Falling(Mem(u), hs[0])| ==> !Roots(u, Falling(Mem(u), hs[0])[i])
    requires Ended(DropW(u, hs[0]), v, Falling(Mem(u), hs[0]) + hs[1..], EndOne(m, hs[0]), s)
    ensures Ended(u, v, hs, m, s)
  {
    hide Far, Near, EndOne, Falling, DropW, Shrunk, Stack, Live, Roots, EndAll, Elements;
    var x, more := hs[0], Falling(Mem(u), hs[0]);
    EndAllUnfolds(Mem(u), hs);
    EndAllUnfolds(m, hs);
    NearTrans(Mem(u), EndOne(Mem(u), x), Mem(v), s);
    NearTrans(m, EndOne(m, x), EndAll(m, hs), s);
    ShrunkTrans(u, DropW(u, x), v);
    EndsOnStack(u, hs, more, Stack(DropW(u, x)));
  }

  /** The destructors do the same in a memory that differs about s only, and nothing to s; what they do in a memory with
      right counts keeps them right. */
  lemma EndAllAside(u: World, hs: seq<Handle>, m: Memory, s: Ptr) returns (v: World)
    requires Inv(u) && Ending(u, hs, s) && Far(Mem(u), s) == Far(m, s)
    ensures Inv(v) && Mem(v) == EndAll(Mem(u), hs) && Far(Mem(v), s) == Far(EndAll(m, hs), s)
    ensures Near(Mem(u), Mem(v), s) && Near(m, EndAll(m, hs), s)
    ensures Shrunk(u, v) && Stack(v) == Stack(u) - Elements(hs)
  {
    hide Inv, Ending, Far, Near, EndAll, Shrunk, Stack, Elements;
    v := EndedWorld(u, hs, m, s);
  }

  lemma EndAllUnfolds(m: Memory, hs: seq<Handle>)
    requires hs != [] && Live(m, hs[0])
    ensures EndAll(m, hs) == EndAll(EndOne(m, hs[0]), Falling(m, hs[0]) + hs[1..])
  {
  }

  lemma EndFirst(u: World, hs: seq<Handle>, m: Memory, s: Ptr)
    requires Inv(u) && hs != [] && Ending(u, hs, s) && Far(Mem(u), s) == Far(m, s)
    ensures Live(Mem(u), hs[0]) && Live(m, hs[0]) && Falling(m, hs[0]) == Falling(Mem(u), hs[0])
    ensures hs[0] in u.handles && u.handles[hs[0]] in u.cells
    ensures var v := DropW(u, hs[0]);
      && Inv(v) && Mem(v) == EndOne(Mem(u), hs[0]) && |v.handles| < |u.handles| && Shrunk(u, v)
      && Ending(v, Falling(Mem(u), hs[0]) + hs[1..], s) && Far(Mem(v), s) == Far(EndOne(m, hs[0]), s)
      && Stack(v) == Stack(u) - {hs[0]} + Elements(Falling(Mem(u), hs[0]))
    ensures Near(Mem(u), EndOne(Mem(u), hs[0]), s) && Near(m, EndOne(m, hs[0]), s)
    ensures forall i :: 0 <= i < |Falling(Mem(u), hs[0])| ==> !Roots(u, Falling(Mem(u), hs[0])[i])
  {
    var x := hs[0];
    FirstEnds(u, hs, s);
    hide Closed, Labelled, Owned, Counted, Reach, Ending, DropW, Far, Near, EndOne, Shrunk, Stack;
    EndOneIsDrop(u, x);
    FarMeans(Mem(u), m, s, x);
    EndOneAside(m, Mem(u), s, x);
    EndOneAside(Mem(u), m, s, x);
    FewerHandles(u.handles, x);
    DropInv(u, x);
    EndingStep(u, hs, s);
    DropShrinks(u, x);
    DropStack(u, x);
    CountedOne(u, u.handles[x]);
    KidsOff(u, x);
    assert Elements([]) == {};
  }

  lemma FirstEnds(u: World, hs: seq<Handle>, s: Ptr)
    requires Inv(u) && hs != [] && Ending(u, hs, s)
    ensures Roots(u, hs[0]) && u.handles[hs[0]] in u.cells && u.handles[hs[0]] != s
  {
    hide Labelled, Counted, Owned;
    assert MayEnd(u, hs[0], s);
    PointsToData(u, hs[0]);
  }

  lemma NothingShrinks(u: World)
    requires Closed(u)
    ensures Shrunk(u, u)
  {
  }

  lemma NearTrans(a: Memory, b: Memory, c: Memory, s: Ptr)
    requires Near(a, b, s) && Near(b, c, s)
    ensures Near(a, c, s)
  {
  }

  lemma EndsOnStack(u: World, hs: seq<Handle>, more: seq<Handle>, after: set<Handle>)
    requires hs != [] && (forall i :: 0 <= i < |more| ==> !Roots(u, more[i]))
    requires after == Stack(u) - {hs[0]} + Elements(more)
    ensures after - Elements(more + hs[1..]) == Stack(u) - Elements(hs)
  {
    assert hs == [hs[0]] + hs[1..];
    forall k | k in more ensures k !in Stack(u) {
      var i :| 0 <= i < |more| && more[i] == k;
    }
  }

  // ----- with right counts, COW and SetType are the steps of the invariant

  lemma {:induction false} SharedWorld(w: World, kids: seq<Handle>, h: Handle) returns (u: World)
    requires Inv(w) && forall i :: 0 <= i < |kids| ==> kids[i] in w.handles
    ensures Inv(u) && Mem(u) == ShareAll(Mem(w), kids) && Copies(w, u, kids) && Changed(w, u, h)
    ensures Stack(u) == Stack(w) + Elements(From(w.next, |kids|))
    decreases |kids|
  {
    hide Closed, Labelled, Owned, Counted, Copies, Changed, Stack, ShareW;
    if kids == [] {
      u := w;
      NoCopies(w);
      ChangedSelf(w, h);
    } else {
      var n := |kids| - 1;
      var z := SharedWorld(w, kids[..n], h);
      CopyStep(w, w, z, kids[..n], kids[n], h);
      assert kids == kids[..n] + [kids[n]];
      u := ShareW(z, z.handles[kids[n]]);
      ShareInv(z, z.handles[kids[n]]);
      ShareIsOne(z, kids[n]);
    }
  }

  lemma ShareIsOne(z: World, k: Handle)
    requires Closed(z) && k in z.handles && z.handles[k] in z.cells
    ensures Mem(ShareW(z, z.handles[k])) == ShareOne(Mem(z), k)
  {
  }

  lemma {:induction false} ShareAllRecount(m: Memory, ks: seq<Handle>, p: Ptr, d: int)
    requires p in m.cells && forall k :: k in ks ==> k in m.handles && k < m.next && m.handles[k] in m.cells
    ensures ShareAll(Recount(m, p, d), ks) == Recount(ShareAll(m, ks), p, d)
    ensures ShareAll(m, ks).cells.Keys == m.cells.Keys && ShareAll(m, ks).next == m.next + |ks|
    ensures forall x :: x in m.handles && x < m.next ==>
      x in ShareAll(m, ks).handles && ShareAll(m, ks).handles[x] == m.handles[x]
    decreases |ks|
  {
    if ks != [] {
      var n := |ks| - 1;
      assert ks[n] in ks && forall k :: k in ks[..n] ==> k in ks;
      ShareAllRecount(m, ks[..n], p, d);
      ShareOneRecount(ShareAll(m, ks[..n]), ks[n], p, d);
    }
  }

  lemma ShareOneRecount(m: Memory, k: Handle, p: Ptr, d: int)
    requires p in m.cells && k in m.handles && m.handles[k] in m.cells
    ensures ShareOne(Recount(m, p, d), k) == Recount(ShareOne(m, k), p, d)
    ensures ShareOne(m, k).cells.Keys == m.cells.Keys
  {
    var q := m.handles[k];
    assert ShareOne(Recount(m, p, d), k).cells == Recount(ShareOne(m, k), p, d).cells;
  }

  /** The items of h's data, as the lemmas on memory need them. */
  lemma ItemsLive(w: World, h: Handle)
    requires Inv(w) && h in w.handles
    ensures Live(Mem(w), h) && w.handles[h] < w.next && h < w.next
    ensures forall k :: k in w.cells[w.handles[h]].kids ==> k in w.handles && k < w.next && w.handles[k] in w.cells
  {
    hide Labelled, Owned, Counted;
    PointsToData(w, h);
    forall k | k in w.cells[w.handles[h]].kids ensures k in w.handles && k < w.next && w.handles[k] in w.cells {
      var i :| 0 <= i < |w.cells[w.handles[h]].kids| && w.cells[w.handles[h]].kids[i] == k;
    }
  }

  /** A clone with one reference fewer to p is the clone made where p has one reference fewer. */
  lemma CloneRecount(m: Memory, h: Handle, cell: Cell, p: Ptr, d: int)
    requires p in m.cells && p < m.next
    requires forall k :: k in cell.kids ==> k in m.handles && k < m.next && m.handles[k] in m.cells
    ensures Clone(Recount(m, p, d), h, cell) == Recount(Clone(m, h, cell), p, d)
  {
    hide *;
    ShareAllRecount(m, cell.kids, p, d);
    var s, n := ShareAll(m, cell.kids), m.next + |cell.kids|;
    CloneFrom(m, s, h, cell);
    CloneFrom(Recount(m, p, d), Recount(s, p, d), h, cell);
    RecountMeans(m, p, d);
    RecountMeans(s, p, d);
    RecountMeans(Clone(m, h, cell), p, d);
    var fewer := s.cells[p].(refCount := s.cells[p].refCount + d);
    Swapped(s.cells, p, n, fewer, Cell(1, ClonedHead(cell.head), From(m.next, |cell.kids|)));
  }

  /** What COW does to shared data. */
  lemma CowWorld(w: World, h: Handle) returns (z: World)
    requires Inv(w) && h in w.handles && w.handles[h] in w.cells && w.cells[w.handles[h]].refCount > 1
    ensures Inv(z) && Opened(w, z, h) && Mem(z) == Cow(Mem(w), h)
    ensures h in z.handles && z.handles[h] in z.tag && w.handles[h] in w.tag
    ensures z.tag[z.handles[h]] == Exclusive(w.tag[w.handles[h]], true)
  {
    hide Closed, Labelled, Owned, Counted, Reach, Retag, Copies, Changed, Stack, FreshW, EditW, MayAdopt, ClonedTo,
      MayPoint, PointW, DropW, Opened, Cow, Roots;
    KidsAreHandles(w, h);
    Shown(w, h);
    var cell := w.cells[w.handles[h]];
    var u := SharedWorld(w, cell.kids, h);
    var g, ks := u.next, From(w.next, |cell.kids|);
    FreshInv(u, EMPTY);
    CloneAdopts(w, u, h);
    CloneIsDone(w, u, h);
    NewHandle(u);
    FreshParts(u, EMPTY);
    var f := FreshW(u, EMPTY);
    EditInv(f, g, ClonedHead(cell.head), ks);
    EditParts(f, g, ClonedHead(cell.head), ks);
    var c := EditW(f, g, ClonedHead(cell.head), ks);
    ClonePoints(w, c, h, g);
    PointInv(c, h, g);
    CloneDrops(w, c, h, g);
    DropInv(PointW(c, h, g), g);
    CloneOpens(w, c, h, g);
    DropDomain(PointW(c, h, g), g);
    z := DropW(PointW(c, h, g), g);
    Shown(z, h);
    ShapeOf(c);
    CowOfWorld(w, u, h);
    Unused(u);
    CowMemory(w, u, c, h);
  }

  lemma FreshParts(u: World, head: Head)
    requires Closed(u)
    ensures var z, n := FreshW(u, head), u.next;
      && z.handles == u.handles[n := n] && z.cells == u.cells[n := Cell(1, head, [])] && n !in u.handles && n !in u.cells
  {
  }

  lemma PointedCopy(c: World, h: Handle, g: Handle)
    requires Inv(c) && g in c.handles && c.handles[g] == g && MayPoint(c, h, g) && c.cells[g].refCount == 1
    requires Shape(PointW(c, h, g)) && Roots(PointW(c, h, g), g) && h in c.handles && c.handles[h] in c.cells
    ensures g in PointW(c, h, g).handles && PointW(c, h, g).handles[g] in PointW(c, h, g).cells
    ensures var z, p := DropW(PointW(c, h, g), g), c.handles[h];
      && z.handles == c.handles[h := g] - {g} && z.next == c.next && z.owner == c.owner - {g}
      && z.cells == c.cells[p := c.cells[p].(refCount := c.cells[p].refCount - 1)]
  {
    hide Shape, Owned, Counted, PointW, MayPoint, Roots, DropW;
    PointDomain(c, h, g);
    PointParts(c, h, g);
    var v := PointW(c, h, g);
    assert v.handles[g] == g && v.cells[g] == c.cells[g].(refCount := 2);
    DropDomain(v, g);
    CopyDropped(v, g);
    assert v.cells[g].(refCount := 1) == c.cells[g];
  }

  lemma CopyDropped(v: World, g: Handle)
    requires g in v.handles && v.handles[g] in v.cells && v.cells[v.handles[g]].refCount == 2
    ensures var z := DropW(v, g);
      && z.handles == v.handles - {g} && z.next == v.next && z.owner == v.owner - {g}
      && z.cells == v.cells[v.handles[g] := v.cells[v.handles[g]].(refCount := 1)]
  {
  }

  lemma CowMemory(w: World, u: World, c: World, h: Handle)
    requires Inv(w) && Inv(c) && Shape(c) && h in w.handles && w.handles[h] in w.cells && w.handles[h] != u.next
    requires h in c.handles
    requires w.cells[w.handles[h]].refCount > 1 && Mem(u) == ShareAll(Mem(w), w.cells[w.handles[h]].kids)
    requires u.next in c.handles && c.handles[u.next] == u.next && c.handles[h] == w.handles[h]
    requires w.handles[h] in u.cells && MayPoint(c, h, u.next) && c.cells[u.next].refCount == 1 && c.next == u.next + 1
    requires Shape(PointW(c, h, u.next)) && Roots(PointW(c, h, u.next), u.next)
    requires u.next in PointW(c, h, u.next).handles
    requires PointW(c, h, u.next).handles[u.next] in PointW(c, h, u.next).cells
    requires c.handles == u.handles[u.next := u.next] && u.next !in u.handles && u.next !in u.cells
    requires c.cells
      == u.cells[u.next := Cell(1, ClonedHead(w.cells[w.handles[h]].head), From(w.next, |w.cells[w.handles[h]].kids|))]
    ensures Mem(DropW(PointW(c, h, u.next), u.next)) == Cow(Mem(w), h)
  {
    hide *;
    var p, g, cell := w.handles[h], u.next, w.cells[w.handles[h]];
    PointedCopy(c, h, g);
    CowOfWorld(w, u, h);
    MemIs(DropW(PointW(c, h, g), g));
    var new_ := Cell(1, ClonedHead(cell.head), From(w.next, |cell.kids|));
    Swapped(u.cells, p, g, u.cells[p].(refCount := u.cells[p].refCount - 1), new_);
    HandleMoved(u.handles, h, g);
  }

  lemma CowOfWorld(w: World, u: World, h: Handle)
    requires Inv(w) && h in w.handles && w.handles[h] in w.cells && w.cells[w.handles[h]].refCount > 1
    requires Mem(u) == ShareAll(Mem(w), w.cells[w.handles[h]].kids)
    ensures w.handles[h] in u.cells
    ensures var p, cell := w.handles[h], w.cells[w.handles[h]];
      Cow(Mem(w), h) == Memory(u.handles[h := u.next],
        u.cells[p := u.cells[p].(refCount := u.cells[p].refCount - 1)]
               [u.next := Cell(1, ClonedHead(cell.head), From(w.next, |cell.kids|))], u.next + 1)
  {
    ItemsLive(w, h);
    CowIs(Mem(w), Mem(u), h);
  }

  lemma ShapeOf(w: World)
    requires Inv(w)
    ensures Shape(w)
  {
  }

  lemma MemIs(w: World)
    ensures Mem(w) == Memory(w.handles, w.cells, w.next)
  {
  }

  lemma CowIs(m: Memory, u: Memory, h: Handle)
    requires Live(m, h) && m.handles[h] < m.next && m.cells[m.handles[h]].refCount > 1
    requires u == ShareAll(m, m.cells[m.handles[h]].kids)
    requires forall k :: k in m.cells[m.handles[h]].kids ==> k in m.handles && k < m.next && m.handles[k] in m.cells
    ensures m.handles[h] in u.cells
    ensures var p, cell := m.handles[h], m.cells[m.handles[h]];
      Cow(m, h) == Memory(u.handles[h := u.next],
        u.cells[p := u.cells[p].(refCount := u.cells[p].refCount - 1)]
               [u.next := Cell(1, ClonedHead(cell.head), From(m.next, |cell.kids|))], u.next + 1)
  {
    hide *;
    LiveMeans(m, h);
    var p, cell := m.handles[h], m.cells[m.handles[h]];
    CowShared(m, h);
    ShareAllRecount(m, cell.kids, p, -1);
    CloneFrom(Recount(m, p, -1), Recount(u, p, -1), h, cell);
    RecountMeans(u, p, -1);
    RecountMeans(m, p, -1);
  }

  lemma CowShared(m: Memory, h: Handle)
    requires Live(m, h) && m.cells[m.handles[h]].refCount > 1
    ensures Cow(m, h) == Clone(Recount(m, m.handles[h], -1), h, m.cells[m.handles[h]])
  {
    hide Clone, Recount, EndAll;
  }

  lemma LiveMeans(m: Memory, h: Handle)
    requires Live(m, h)
    ensures h in m.handles && m.handles[h] in m.cells
  {
  }

  lemma CloneFrom(m: Memory, s: Memory, h: Handle, cell: Cell)
    requires s == ShareAll(m, cell.kids)
    ensures Clone(m, h, cell) == Memory(s.handles[h := s.next],
      s.cells[s.next := Cell(1, ClonedHead(cell.head), From(m.next, |cell.kids|))], s.next + 1)
  {
    hide ShareAll, From, ClonedHead;
  }

  lemma RecountMeans(m: Memory, p: Ptr, d: int)
    requires p in m.cells
    ensures Recount(m, p, d) == Memory(m.handles, m.cells[p := m.cells[p].(refCount := m.cells[p].refCount + d)], m.next)
  {
  }

  lemma Swapped(cells: map<Ptr, Cell>, p: Ptr, g: Ptr, a: Cell, b: Cell)
    requires p != g
    ensures cells[g := b][p := a] == cells[p := a][g := b]
  {
  }

  lemma HandleMoved(handles: map<Handle, Ptr>, h: Handle, g: Handle)
    requires g !in handles && h in handles
    ensures handles[g := g][h := g] - {g} == handles[h := g]
  {
  }

  // ----- SetType on data in place, where the count of s may be wrong

  /** Where u has the edges of w, or none, nothing new is reached. */
  lemma {:induction false} ReachFewer(w: World, u: World, q: Ptr, c: Ptr)
    requires Shape(w) && Shape(u) && q in w.cells && q in u.cells && u.handles == w.handles
    requires forall x :: x in u.cells ==> x in w.cells && (u.cells[x].kids == w.cells[x].kids || u.cells[x].kids == [])
    requires Reach(u, q, c)
    ensures Reach(w, q, c)
    decreases u.tag[q]
  {
    if q != c {
      hide Labelled;
      var i :| 0 <= i < |u.cells[q].kids| && KidReach(u, q, i, c);
      var y := u.cells[q].kids[i];
      KidTag(u, q, i);
      ReachFewer(w, u, u.handles[y], c);
      StepAndReach(w, q, i, c);
    }
  }

  ghost predicate ItemsAvoid(z: World, n: Ptr, s: Ptr)
    requires Shape(z) && n in z.cells
  {
    forall i :: 0 <= i < |z.cells[n].kids| ==> !Reach(z, z.handles[z.cells[n].kids[i]], s)
  }

  lemma ItemsAvoidOwn(z: World, n: Ptr)
    requires Inv(z) && n in z.cells
    ensures ItemsAvoid(z, n, n)
  {
    hide Labelled, Owned, Counted, Reach;
    forall i | 0 <= i < |z.cells[n].kids| ensures !Reach(z, z.handles[z.cells[n].kids[i]], n) { NoCycle(z, n, i); }
  }

  /** The data n with its new head and the items it keeps; the others are on the stack. */
  ghost predicate Rehead(z: World, u: World, h: Handle, typ: Type)
    requires h in z.handles && z.handles[h] in z.cells
  {
    var n, cell := z.handles[h], z.cells[z.handles[h]];
    && u.handles == z.handles && u.next == z.next
    && u.cells == z.cells[n := Cell(cell.refCount, RetypedHead(cell.head, typ), Kept(cell))]
    && Stack(u) == Stack(z) + Elements(Lost(cell)) && Elements(Lost(cell)) !! Stack(z)
  }

  lemma NewHead(z: World, h: Handle, typ: Type) returns (u: World)
    requires Inv(z) && h in z.handles && z.handles[h] in z.cells && typ != z.cells[z.handles[h]].head.typ
    ensures Inv(u) && Rehead(z, u, h, typ)
    ensures z.handles[h] in z.tag && z.handles[h] in u.tag
    ensures u.tag[z.handles[h]] == Retyped(z.tag[z.handles[h]], typ)
    ensures u.tag.Keys == z.cells.Keys
    ensures forall q :: q in u.tag ==> u.tag[q] == Retag(z, z.handles[h], Retyped(z.tag[z.handles[h]], typ), q)
    ensures forall w :: Changed(w, z, h) && z.handles[h] !in w.cells ==> Changed(w, u, h)
  {
    hide Closed, Labelled, Owned, Counted, Reach, Retag, Changed, Stack, MayAdopt, EditW, Private, Loses;
    var n, cell := z.handles[h], z.cells[z.handles[h]];
    var head, keep := RetypedHead(cell.head, typ), Kept(cell);
    DistinctKids(z, h);
    Shown(z, h);
    KeepOwn(z, h, keep, Lost(cell));
    EditInv(z, n, head, keep);
    EditParts(z, n, head, keep);
    EditStack(z, n, head, keep);
    KidsNotOnStack(z, n);
    u := EditW(z, n, head, keep);
    EditTags(z, n, head, keep);
    forall w | Changed(w, z, h) && n !in w.cells ensures Changed(w, u, h) { EditKeeps(w, z, n, head, keep, h); }
  }

  lemma EditTags(z: World, n: Ptr, head: Head, keep: seq<Handle>)
    requires Shape(z) && MayAdopt(z, n, keep)
    ensures var u, t := EditW(z, n, head, keep), Tree(head, KidLabels(z, keep));
      n in z.cells && u.tag.Keys == z.cells.Keys && forall q :: q in u.tag ==> u.tag[q] == Retag(z, n, t, q)
  {
    hide Reach, Retag;
  }

  lemma LostMayEnd(z: World, u: World, h: Handle, typ: Type, s: Ptr)
    requires Inv(z) && Inv(u) && h in z.handles && z.handles[h] in z.cells && Rehead(z, u, h, typ)
    requires ItemsAvoid(z, z.handles[h], s)
    ensures Ending(u, Lost(z.cells[z.handles[h]]), s)
  {
    hide Labelled, Owned, Counted, Reach;
    var n, lost := z.handles[h], Lost(z.cells[z.handles[h]]);
    DistinctKids(z, h);
    forall i | 0 <= i < |lost| ensures MayEnd(u, lost[i], s) {
      assert lost[i] in Elements(lost);
      assert lost[i] in Stack(u);
      KidOwner(z, n, i);
      if Reach(u, u.handles[lost[i]], s) {
        ReachFewer(z, u, u.handles[lost[i]], s);
      }
    }
  }

  lemma FarOfRecount(m: Memory, s: Ptr, d: int)
    ensures Far(Recount(m, s, d), s) == Far(m, s)
  {
    assert Recount(m, s, d).cells - {s} == m.cells - {s};
  }

  lemma NearOfRecount(a: Memory, b: Memory, s: Ptr, d: int)
    requires Near(a, b, s)
    ensures Near(Recount(a, s, d), Recount(b, s, d), s)
  {
  }

  lemma NearBack(a: Memory, b: Memory, s: Ptr)
    requires Near(a, b, s)
    ensures Near(b, a, s)
  {
  }

  /** The destructors commute with a wrong count they do not meet. */
  lemma EndAllRecount(u: World, hs: seq<Handle>, s: Ptr) returns (v: World)
    requires Inv(u) && Ending(u, hs, s)
    ensures Inv(v) && Mem(v) == EndAll(Mem(u), hs) && Near(Mem(u), Mem(v), s)
    ensures EndAll(Recount(Mem(u), s, -1), hs) == Recount(Mem(v), s, -1)
    ensures Shrunk(u, v) && Stack(v) == Stack(u) - Elements(hs)
  {
    hide *;
    var m := Recount(Mem(u), s, -1);
    FarOfRecount(Mem(u), s, -1);
    v := EndAllAside(u, hs, m, s);
    FarOfRecount(Mem(v), s, -1);
    NearOfRecount(Mem(u), Mem(v), s, -1);
    NearBack(m, EndAll(m, hs), s);
    NearTrans(EndAll(m, hs), m, Recount(Mem(v), s, -1), s);
    FarAndNear(EndAll(m, hs), Recount(Mem(v), s, -1), s);
  }

  /** The tail of SetType, where one reference to s is not counted. */
  lemma RetypedWorld(z: World, h: Handle, typ: Type, s: Ptr) returns (v: World)
    requires Inv(z) && h in z.handles && z.handles[h] in z.cells && typ != z.cells[z.handles[h]].head.typ
    requires s in z.cells && ItemsAvoid(z, z.handles[h], s)
    ensures Inv(v) && z.handles[h] in Recount(Mem(z), s, -1).cells
    ensures Retype(Recount(Mem(z), s, -1), z.handles[h], typ) == Recount(Mem(v), s, -1)
    ensures s in v.cells && Stack(v) == Stack(z) && Pointers(Mem(v), s) == Pointers(Mem(z), s)
    ensures h in v.handles && v.handles[h] == z.handles[h] && v.handles[h] in v.cells
    ensures v.cells[v.handles[h]].head.typ == typ && z.handles[h] in z.tag && v.tag.Keys <= z.cells.Keys
    ensures forall q :: q in v.tag ==> v.tag[q] == Retag(z, z.handles[h], Retyped(z.tag[z.handles[h]], typ), q)
    ensures forall x :: x in v.handles ==> x in z.handles && v.handles[x] == z.handles[x]
    ensures forall w :: Changed(w, z, h) && z.handles[h] !in w.cells ==> Changed(w, v, h)
  {
    hide Closed, Labelled, Owned, Counted, Reach, Retag, Changed, Stack, Ending, EndAll, Near, ItemsAvoid;
    var n, cell := z.handles[h], z.cells[z.handles[h]];
    var u := NewHead(z, h, typ);
    ItemsAvoidOwn(z, n);
    LostMayEnd(z, u, h, typ, s);
    LostMayEnd(z, u, h, typ, n);
    v := EndAllRecount(u, Lost(cell), s);
    var v' := EndAllRecount(u, Lost(cell), n);
    NearMeans(Mem(u), Mem(v), s);
    NearMeans(Mem(u), Mem(v'), n);
    assert Mem(v) == Mem(v');
    assert h in Pointers(Mem(v), n);
    Reheaded(z, u, h, typ, s);
    forall w | Changed(w, z, h) && n !in w.cells ensures Changed(w, v, h) { ShrunkKeeps(w, u, v, h); }
  }

  lemma NearMeans(m: Memory, r: Memory, s: Ptr)
    requires Near(m, r, s)
    ensures Pointers(m, s) == Pointers(r, s) && m.next == r.next
    ensures s in m.cells ==> s in r.cells && m.cells[s] == r.cells[s]
  {
  }

  lemma Reheaded(z: World, u: World, h: Handle, typ: Type, s: Ptr)
    requires h in z.handles && z.handles[h] in z.cells && Rehead(z, u, h, typ) && s in z.cells
    ensures z.handles[h] in Recount(Mem(z), s, -1).cells
    ensures Retype(Recount(Mem(z), s, -1), z.handles[h], typ)
      == EndAll(Recount(Mem(u), s, -1), Lost(z.cells[z.handles[h]]))
  {
    hide EndAll, Stack, RetypedHead;
    var n, m := z.handles[h], Recount(Mem(z), s, -1);
    var cell := m.cells[n];
    assert m.cells[n := Cell(cell.refCount, RetypedHead(cell.head, typ), Kept(cell))] == Recount(Mem(u), s, -1).cells;
  }

  // ----- Clear, by the number of owners

  lemma CountFromUnRef(w: World, h: Handle)
    requires h in w.handles && w.handles[h] in w.cells && w.cells[w.handles[h]].refCount > 1
    ensures Live(Mem(w), h) && UnRef(Mem(w), h) == Recount(Mem(w), w.handles[h], -1)
    ensures Live(UnRef(Mem(w), h), h)
    ensures TypeOf(UnRef(Mem(w), h), h) == w.cells[w.handles[h]].head.typ
  {
    hide EndAll;
  }

  /** With two owners SetType finds a count of one and works in place. */
  lemma ClearOfTwo(w: World, h: Handle) returns (v: World)
    requires Inv(w) && h in w.handles && w.handles[h] in w.cells && w.cells[w.handles[h]].refCount == 2
    ensures Inv(v) && Live(Mem(w), h) && Clear(Mem(w), h) == Recount(Mem(v), w.handles[h], -1)
    ensures w.handles[h] in v.cells && Stack(v) == Stack(w)
    ensures Pointers(Mem(v), w.handles[h]) == Pointers(Mem(w), w.handles[h])
    ensures h in v.handles && v.handles[h] == w.handles[h] && v.cells[v.handles[h]].head.typ == TInvalid
    ensures w.handles[h] in w.tag && v.tag.Keys <= w.cells.Keys
    ensures forall q :: q in v.tag ==> v.tag[q] == Retag(w, w.handles[h], Retyped(w.tag[w.handles[h]], TInvalid), q)
    ensures forall x :: x in v.handles ==> x in w.handles && v.handles[x] == w.handles[x]
  {
    hide Closed, Labelled, Owned, Counted, Reach, Retag, Changed, Stack, EndAll, ItemsAvoid, Retype;
    var p, m := w.handles[h], UnRef(Mem(w), h);
    CountFromUnRef(w, h);
    RecountMeans(Mem(w), p, -1);
    assert Cow(m, h) == m;
    Shown(w, h);
    if w.cells[p].head.typ == TInvalid {
      v := w;
      RetagIdles(w, p);
    } else {
      ItemsAvoidOwn(w, p);
      v := RetypedWorld(w, h, TInvalid, p);
    }
  }

  lemma RetagIdles(w: World, p: Ptr)
    requires Inv(w) && p in w.cells
    ensures p in w.tag && w.tag.Keys == w.cells.Keys
    ensures forall q :: q in w.tag ==> Retag(w, p, w.tag[p], q) == w.tag[q]
  {
    hide Owned, Counted;
    forall q | q in w.tag ensures Retag(w, p, w.tag[p], q) == w.tag[q] { RetagSame(w, p, q); }
  }

  lemma {:induction false} RetagSame(w: World, q: Ptr, p: Ptr)
    requires Shape(w) && p in w.cells && q in w.cells
    ensures Retag(w, q, w.tag[q], p) == w.tag[p]
    decreases w.tag[p]
  {
    if p != q {
      var kids := w.cells[p].kids;
      forall k | 0 <= k < |kids| ensures Retag(w, q, w.tag[q], w.handles[kids[k]]) == w.tag[p].kids[k] {
        KidTag(w, p, k);
        RetagSame(w, q, w.handles[kids[k]]);
      }
    }
  }

  lemma CloneIgnoresCount(m: Memory, h: Handle, a: Cell, b: Cell)
    requires SameContent(a, b)
    ensures Clone(m, h, a) == Clone(m, h, b)
  {
  }

  /** COW after UnRef is COW with one reference lost. */
  lemma CowAfterUnRef(w: World, h: Handle)
    requires Inv(w) && h in w.handles && w.handles[h] in w.cells && w.cells[w.handles[h]].refCount > 2
    ensures Live(Mem(w), h) && Cow(UnRef(Mem(w), h), h) == Recount(Cow(Mem(w), h), w.handles[h], -1)
  {
    var p, cell := w.handles[h], w.cells[w.handles[h]];
    ItemsLive(w, h);
    CountFromUnRef(w, h);
    var m := UnRef(Mem(w), h);
    RecountMeans(Mem(w), p, -1);
    hide Cow, Clone, UnRef, Recount, Live, Inv;
    LiveMeans(m, h);
    CowShared(Mem(w), h);
    CowShared(m, h);
    CloneIgnoresCount(Recount(m, p, -1), h, m.cells[p], cell);
    CloneRecount(m, h, cell, p, -1);
  }

  /** The clone's items do not reach the data they were cloned from. */
  lemma CloneAvoids(w: World, z: World, h: Handle)
    requires Inv(w) && Inv(z) && Opened(w, z, h) && h in w.handles && h in z.handles && w.handles[h] in w.cells
    requires w.cells[w.handles[h]].refCount > 1 && w.handles[h] in w.tag && z.handles[h] in z.tag
    requires z.tag[z.handles[h]] == Exclusive(w.tag[w.handles[h]], true)
    ensures z.handles[h] in z.cells && w.handles[h] in z.cells && ItemsAvoid(z, z.handles[h], w.handles[h])
    ensures z.handles[h] !in w.cells && Changed(w, z, h) && Stack(z) == Stack(w)
  {
    hide Closed, Labelled, Owned, Counted, Reach, Changed, Stack;
    var n, p := z.handles[h], w.handles[h];
    OpenedCopy(w, z, h);
    var y := OtherOwner(w, h);
    AllStay(w, z, h, y);
    DoesNotHold(w, h, y);
    Untouched(w, z, h, y);
    SameData(w, z, h, y);
    Shown(z, y);
    Shown(z, h);
    Shown(w, h);
    forall i | 0 <= i < |z.cells[n].kids|
      ensures z.cells[n].kids[i] in z.handles && z.handles[z.cells[n].kids[i]] in z.cells
      ensures !Reach(z, z.handles[z.cells[n].kids[i]], p)
    {
      KidOwner(z, n, i);
      TooSmall(z, n, i, p);
    }
  }

  lemma OpenedCopy(w: World, z: World, h: Handle)
    requires Inv(w) && Inv(z) && Opened(w, z, h) && h in w.handles && w.handles[h] in w.cells
    requires w.cells[w.handles[h]].refCount > 1 && h in z.handles
    ensures z.handles[h] in z.cells && w.handles[h] in z.cells && z.handles[h] !in w.cells
    ensures Changed(w, z, h) && Stack(z) == Stack(w)
  {
    hide Labelled, Owned, Counted, Reach, Changed, Stack;
  }

  /** Another handle of shared data. */
  lemma OtherOwner(w: World, h: Handle) returns (y: Handle)
    requires Inv(w) && h in w.handles && w.handles[h] in w.cells && w.cells[w.handles[h]].refCount > 1
    ensures y in w.handles && y != h && w.handles[y] == w.handles[h]
  {
    hide Labelled, Owned;
    var s := Sharers(w, w.handles[h]);
    assert h in s && |s| > 1;
    OneIn(s, h);
    assert s - {h} != {};
    y :| y in s - {h};
  }

  lemma TooSmall(z: World, n: Ptr, i: nat, p: Ptr)
    requires Inv(z) && n in z.cells && p in z.cells && i < |z.cells[n].kids| && n in z.tag && p in z.tag
    requires z.tag[n].kids == z.tag[p].kids && z.cells[n].kids[i] in z.handles && z.handles[z.cells[n].kids[i]] in z.cells
    ensures !Reach(z, z.handles[z.cells[n].kids[i]], p)
  {
    hide Owned, Counted, Reach;
    var q := z.handles[z.cells[n].kids[i]];
    KidTag(z, n, i);
    SizeOfKid(z.tag[n].kids, i);
    if Reach(z, q, p) { ReachShrinks(z, q, p); }
  }

  /** With more owners SetType clones, and takes away a second reference. */
  lemma ClearOfMany(w: World, h: Handle) returns (v: World)
    requires Inv(w) && h in w.handles && w.handles[h] in w.cells && w.cells[w.handles[h]].refCount > 2
    ensures Inv(v) && Live(Mem(w), h) && Clear(Mem(w), h) == Recount(Mem(v), w.handles[h], -1)
    ensures w.handles[h] in v.cells && Stack(v) == Stack(w) && Changed(w, v, h)
    ensures h in v.handles && v.handles[h] in v.cells && v.cells[v.handles[h]].head.typ == TInvalid
  {
    hide Closed, Labelled, Owned, Counted, Reach, Retag, Changed, Stack, EndAll, ItemsAvoid, Retype, Opened, Cow;
    var p, m := w.handles[h], UnRef(Mem(w), h);
    CountFromUnRef(w, h);
    CowAfterUnRef(w, h);
    var z := CowWorld(w, h);
    CloneAvoids(w, z, h);
    RecountMeans(Mem(z), p, -1);
    Shown(w, h);
    Shown(z, h);
    if w.cells[p].head.typ == TInvalid {
      v := z;
    } else {
      v := RetypedWorld(z, h, TInvalid, p);
    }
  }

  // With one owner the data goes before SetType makes new data. The same memory comes about when h is pointed at
  // new data while a handle t keeps the old data, which then ends.

  lemma KeptByAnother(w: World, h: Handle) returns (z: World, t: Handle)
    requires Inv(w) && h in w.handles && w.handles[h] in w.cells && w.cells[w.handles[h]].refCount == 1
    ensures var p, n := w.handles[h], w.next;
      && Inv(z) && t == n + 1 && t !in w.handles && n !in w.handles && n !in w.cells && h != n && h != t && p != n
      && z.handles == w.handles[n := n][t := p] && z.next == t + 1 && Roots(z, n) && Roots(z, t)
      && z.cells == w.cells[n := Cell(1, EMPTY, [])][p := w.cells[p].(refCount := 2)]
      && Changed(w, z, h) && Stack(z) == Stack(w) + {n} + {t} && h in z.owner && h in w.owner && z.owner[h] == w.owner[h]
  {
    hide Closed, Labelled, Owned, Counted, Changed, Stack, ShareW, FreshW;
    var p := w.handles[h];
    Unused(w);
    FreshInv(w, EMPTY);
    FreshParts(w, EMPTY);
    var f := FreshW(w, EMPTY);
    Unused(f);
    NewHandle(w);
    FreshOwners(w, h);
    ShareInv(f, p);
    ShareParts(f, p);
    FreshStack(w, EMPTY);
    ShareStack(f, p);
    ChangedSelf(w, h);
    FreshKeeps(w, w, EMPTY, h);
    ShareKeeps(w, f, p, h);
    z, t := ShareW(f, p), f.next;
  }

  lemma FreshOwners(w: World, h: Handle)
    requires Inv(w) && h in w.handles
    ensures var f := FreshW(w, EMPTY); h in w.owner && h in f.owner && f.owner[h] == w.owner[h] && Roots(f, w.next)
  {
    hide Labelled, Owned, Counted;
  }

  lemma MayLeave(z: World, h: Handle, n: Ptr)
    requires Inv(z) && h in z.handles && n in z.cells && z.cells[n].kids == [] && z.handles[h] in z.cells
    requires z.handles[h] != n && z.cells[z.handles[h]].refCount > 1 && h in z.owner && z.owner[h] != Some(n)
    ensures MayPoint(z, h, n)
  {
    hide Labelled, Counted, Reach;
    OwnerIsData(z, h);
    if z.owner[h].Some? && Reach(z, n, z.owner[h].value) { LeafReach(z, n, z.owner[h].value); }
  }

  /** h on its new data, its old data held by t. */
  lemma MovedAway(w: World, h: Handle) returns (a: World, t: Handle)
    requires Inv(w) && h in w.handles && w.handles[h] in w.cells && w.cells[w.handles[h]].refCount == 1
    ensures var p, n := w.handles[h], w.next;
      && Inv(a) && t !in w.handles && n !in w.handles && n !in w.cells && t != h && p != n
      && a.handles == w.handles[h := n][t := p] && a.cells == w.cells[n := Cell(1, EMPTY, [])]
      && Roots(a, t) && Changed(w, a, h) && Stack(a) == Stack(w) + {t} && Ending(a, [t], n)
  {
    hide Closed, Labelled, Owned, Counted, Reach, Changed, Stack, MayPoint, PointW, DropW, Roots, Ending;
    var p, n, z := w.handles[h], w.next, w;
    z, t := KeptByAnother(w, h);
    OwnerIsData(w, h);
    MayLeave(z, h, n);
    PointInv(z, h, n);
    PointParts(z, h, n);
    var v := PointW(z, h, n);
    RootKept(z, v, n);
    RootKept(z, v, t);
    assert v.handles[n] == n;
    PointedCopy(z, h, n);
    DropDomain(v, n);
    DropInv(v, n);
    PointKeeps(w, z, h, n);
    PointStack(z, h, n);
    DropKeeps(w, v, n, h);
    DropStack(v, n);
    a := DropW(v, n);
    assert Elements([]) == {};
    MovedParts(w, z, a, h, t);
    MovedStack(w, z, a, t);
    ShapeOf(z);
    ShapeOf(a);
    ChangedSelf(z, h);
    PointKeeps(z, z, h, n);
    DropKeeps(z, v, n, h);
    OldMayEnd(z, a, h, t);
  }

  lemma RootKept(z: World, v: World, x: Handle)
    requires Roots(z, x) && x in v.handles && v.owner == z.owner
    ensures Roots(v, x)
  {
  }

  lemma MovedParts(w: World, z: World, a: World, h: Handle, t: Handle)
    requires h in w.handles && w.handles[h] in w.cells && w.cells[w.handles[h]].refCount == 1
    requires t == w.next + 1 && t !in w.handles && w.next !in w.handles && w.next !in w.cells && h != w.next && h != t
    requires w.handles[h] != w.next && z.handles == w.handles[w.next := w.next][t := w.handles[h]]
    requires z.cells == w.cells[w.next := Cell(1, EMPTY, [])][w.handles[h] := w.cells[w.handles[h]].(refCount := 2)]
    requires a.handles == z.handles[h := w.next] - {w.next}
    requires a.cells == z.cells[w.handles[h] := z.cells[w.handles[h]].(refCount := 1)]
    ensures a.handles == w.handles[h := w.next][t := w.handles[h]] && a.cells == w.cells[w.next := Cell(1, EMPTY, [])]
  {
    var p, n := w.handles[h], w.next;
    assert w.cells[p].(refCount := 1) == w.cells[p];
    assert a.cells == w.cells[n := Cell(1, EMPTY, [])];
    assert a.handles == w.handles[h := n][t := p];
  }

  lemma MovedStack(w: World, z: World, a: World, t: Handle)
    requires Stack(z) == Stack(w) + {w.next} + {t} && Stack(a) == Stack(z) - {w.next} && t == w.next + 1
    requires w.next !in w.handles && t in a.handles
    ensures Stack(a) == Stack(w) + {t} && Roots(a, t)
  {
    OnlyHandles(w);
    assert t in Stack(a);
    OnStack(a, t);
  }

  lemma OldMayEnd(z: World, a: World, h: Handle, t: Handle)
    requires Inv(z) && Inv(a) && Changed(z, a, h) && h in z.handles && h in a.handles && h in z.owner && h in a.owner
    requires a.owner[h] == z.owner[h] && t != h && t in z.handles && Roots(a, t) && z.handles[t] == z.handles[h]
    requires a.handles[h] in a.cells && a.cells[a.handles[h]].refCount == 1
    ensures Ending(a, [t], a.handles[h])
  {
    hide Labelled, Counted, Owned, Reach, Changed;
    DoesNotHold(z, h, t);
    if Holds(a, t, h) { HeldBefore(z, a, h, t); }
    OutOfReach(a, h, t);
  }

  /** After UnRef the memory is that of a, less h and its new data, and less t and its old data. */
  lemma OldDataEnds(w: World, h: Handle) returns (b: World)
    requires Inv(w) && h in w.handles && w.handles[h] in w.cells && w.cells[w.handles[h]].refCount == 1
    ensures var p, n := w.handles[h], w.next;
      && Inv(b) && Changed(w, b, h) && Stack(b) == Stack(w) + Elements(w.cells[p].kids)
      && Elements(w.cells[p].kids) !! Stack(w)
      && Ending(b, w.cells[p].kids, n) && n !in w.handles && n !in w.cells && p != n
      && b.handles == w.handles[h := n] && b.cells == (w.cells - {p})[n := Cell(1, EMPTY, [])]
  {
    hide Closed, Labelled, Owned, Counted, Reach, Changed, Stack, DropW, Roots, Ending;
    var p, n := w.handles[h], w.next;
    var a, t := MovedAway(w, h);
    DropDomain(a, t);
    DropInv(a, t);
    EndOneIsDrop(a, t);
    EndingStep(a, [t], n);
    DropKeeps(w, a, t, h);
    DropStack(a, t);
    b := DropW(a, t);
    var kids := w.cells[p].kids;
    assert a.cells[p] == w.cells[p];
    assert kids + [t][1..] == kids;
    MemIs(b);
    LastOfT(w, a, b, h, t);
    KidsNotOnStack(w, p);
    OnlyHandles(w);
  }

  lemma LastOfT(w: World, a: World, b: World, h: Handle, t: Handle)
    requires h in w.handles && w.handles[h] in w.cells && w.cells[w.handles[h]].refCount == 1 && t !in w.handles && t != h
    requires w.next !in w.cells && w.handles[h] != w.next
    requires a.handles == w.handles[h := w.next][t := w.handles[h]] && a.cells == w.cells[w.next := Cell(1, EMPTY, [])]
    requires Live(Mem(a), t) && Mem(b) == EndOne(Mem(a), t)
    ensures b.handles == w.handles[h := w.next] && b.cells == (w.cells - {w.handles[h]})[w.next := Cell(1, EMPTY, [])]
  {
    var p, n := w.handles[h], w.next;
    assert w.handles[h := n][t := p] - {t} == w.handles[h := n];
    assert w.cells[n := Cell(1, EMPTY, [])] - {p} == (w.cells - {p})[n := Cell(1, EMPTY, [])];
  }

  /** The memory while the only owner's data goes. */
  ghost function Orphaned(w: World, h: Handle): Memory
    requires h in w.handles
  {
    Memory(w.handles - {h}, w.cells - {w.handles[h]}, w.next)
  }

  lemma OrphanedFar(w: World, h: Handle, b: World)
    requires Closed(w) && h in w.handles
    requires b.handles == w.handles[h := w.next]
    requires b.cells == (w.cells - {w.handles[h]})[w.next := Cell(1, EMPTY, [])]
    ensures Far(Mem(b), w.next) == Far(Orphaned(w, h), w.next)
    ensures Pointers(Mem(b), w.next) == {h} && Pointers(Orphaned(w, h), w.next) == {}
    ensures w.next !in Orphaned(w, h).cells
  {
    assert forall x :: x in w.handles ==> w.handles[x] != w.next;
    assert Far(Mem(b), w.next).0 == Far(Orphaned(w, h), w.next).0;
    assert Far(Mem(b), w.next).1 == Far(Orphaned(w, h), w.next).1;
  }

  /** With one owner the data goes, and SetType makes new data for the null pointer. */
  lemma ClearOfOne(w: World, h: Handle) returns (v: World)
    requires Inv(w) && h in w.handles && w.handles[h] in w.cells && w.cells[w.handles[h]].refCount == 1
    ensures Inv(v) && Live(Mem(w), h) && Clear(Mem(w), h).handles == v.handles && Clear(Mem(w), h).cells == v.cells
    ensures Stack(v) == Stack(w) && Changed(w, v, h)
    ensures h in v.handles && v.handles[h] in v.cells && v.cells[v.handles[h]].head.typ == TInvalid
  {
    hide Labelled, Owned, Counted, Reach, Changed, Stack, EndAll, Ending, Far, Near, Clear;
    var p, n, m, kids := w.handles[h], w.next, Orphaned(w, h), w.cells[w.handles[h]].kids;
    var b := OldDataEnds(w, h);
    OrphanedFar(w, h, b);
    v := EndAllAside(b, kids, m, n);
    NearMeans(Mem(b), Mem(v), n);
    NearMeans(m, EndAll(m, kids), n);
    ClearIsFresh(w, h);
    SameButNext(Mem(v), EndAll(m, kids), h, n);
    ShrunkKeeps(w, b, v, h);
    HandleOf(Mem(v), h, n);
  }

  lemma HandleOf(m: Memory, h: Handle, n: Ptr)
    requires Pointers(m, n) == {h}
    ensures h in m.handles && m.handles[h] == n
  {
    assert h in Pointers(m, n);
  }

  lemma ClearIsFresh(w: World, h: Handle)
    requires h in w.handles && w.handles[h] in w.cells && w.cells[w.handles[h]].refCount == 1
    ensures Live(Mem(w), h)
    ensures var m := EndAll(Orphaned(w, h), w.cells[w.handles[h]].kids);
      && h !in m.handles
      && Clear(Mem(w), h) == Memory(m.handles[h := m.next], m.cells[m.next := Cell(1, EMPTY, [])], m.next + 1)
  {
    var m := EndAll(Orphaned(w, h), w.cells[w.handles[h]].kids);
    assert UnRef(Mem(w), h) == m && h !in m.handles;
    hide EndAll;
    assert TypeOf(m, h) == TInvalid;
  }

  lemma SameButNext(v: Memory, e: Memory, h: Handle, n: Ptr)
    requires Far(v, n) == Far(e, n) && Pointers(v, n) == {h} && n in v.cells && v.cells[n] == Cell(1, EMPTY, [])
    requires Pointers(e, n) == {} && h !in e.handles
    ensures v.handles == e.handles[h := n] && v.cells == e.cells[n := Cell(1, EMPTY, [])]
  {
    var b := Memory(e.handles[h := n], e.cells[n := Cell(1, EMPTY, [])], v.next);
    assert forall x :: x in e.handles ==> e.handles[x] != n by {
      forall x | x in e.handles ensures e.handles[x] != n { assert x !in Pointers(e, n); }
    }
    assert Far(b, n).0 == Far(e, n).0 && Far(b, n).1 == Far(e, n).1;
    assert Pointers(b, n) == {h};
    FarAndNear(v, b, n);
  }
}
