/** The value class as the source has it (apps/jsonval.cpp): operations that copy handles, count references and clone
    shared data before they write. A Store is the memory all handles live in; its first methods are the primitive
    changes, the later ones the operations of wxJSONValue. */
module Store {
  import opened Bytes
  import opened Decimal
  import opened JsonValue
  import opened Heap
  import opened HeapSteps
  import opened Isolation
  import opened Changes
  import opened CopyOnWrite
  import opened Rewriting
  import opened Placement
  import opened TreeOps
  import opened Operations

  class ValueStore {
    var handles: map<Handle, Ptr>
    var cells: map<Ptr, Cell>
    var next: nat
    ghost var owner: map<Handle, Option<Ptr>>
    ghost var tag: map<Ptr, Tree>

    ghost function W(): World
      reads this
    {
      World(handles, cells, owner, tag, next)
    }

    ghost predicate Valid()
      reads this
    {
      Inv(W())
    }

    constructor ()
      ensures Valid() && Env(W()) == map[]
    {
      handles, cells, next, owner, tag := map[], map[], 0, map[], map[];
    }

    /** The tree a handle stands for. */
    ghost function View(h: Handle): Tree
      reads this
      requires Valid() && h in handles
    {
      tag[handles[h]]
    }

    /** Another handle has the same data. */
    ghost predicate Shared(h: Handle)
      reads this
    {
      h in handles && handles[h] in cells && cells[handles[h]].refCount > 1
    }

    // ----- primitive changes

    method Share(p: Ptr) returns (h: Handle)
      requires Valid() && p in cells
      modifies this
      ensures Valid() && W() == ShareW(old(W()), p) && h == old(next)
    {
      hide Closed, Labelled, Owned, Counted, Reach, Retag;
      ShareInv(W(), p);
      h := next;
      handles := handles[h := p];
      cells := cells[p := cells[p].(refCount := cells[p].refCount + 1)];
      owner := owner[h := None];
      next := h + 1;
    }

    method Fresh(head: Head) returns (h: Handle)
      requires Valid()
      modifies this
      ensures Valid() && W() == FreshW(old(W()), head) && h == old(next)
    {
      hide Closed, Labelled, Owned, Counted, Reach, Retag;
      FreshInv(W(), head);
      h := next;
      handles := handles[h := h];
      cells := cells[h := Cell(1, head, [])];
      owner := owner[h := None];
      tag := tag[h := Tree(head, [])];
      next := h + 1;
    }

    method Drop(h: Handle)
      requires Valid() && Roots(W(), h)
      modifies this
      ensures Valid() && W() == DropW(old(W()), h)
    {
      hide Closed, Labelled, Owned, Counted, Reach, Retag, DropW, Roots;
      DropDomain(W(), h);
      DropInv(W(), h);
      DropParts(W(), h);
      ghost var w := DropW(W(), h);
      var p := handles[h];
      if cells[p].refCount > 1 {
        var fewer := cells[p].(refCount := cells[p].refCount - 1);
        handles, cells, owner, tag := handles - {h}, cells[p := fewer], w.owner, w.tag;
      } else {
        handles, cells, owner, tag := handles - {h}, cells - {p}, w.owner, w.tag;
      }
    }

    method Edit(p: Ptr, head: Head, kids: seq<Handle>)
      requires Valid() && MayAdopt(W(), p, kids)
      modifies this
      ensures Valid() && W() == EditW(old(W()), p, head, kids) && tag[p] == Tree(head, KidLabels(old(W()), kids))
    {
      hide Closed, Labelled, Owned, Counted, Reach, Retag;
      EditInv(W(), p, head, kids);
      ghost var w := EditW(W(), p, head, kids);
      cells := cells[p := Cell(cells[p].refCount, head, kids)];
      owner, tag := w.owner, w.tag;
    }

    method Point(h: Handle, p: Ptr)
      requires Valid() && MayPoint(W(), h, p)
      modifies this
      ensures Valid() && W() == PointW(old(W()), h, p) && tag[p] == old(tag[p])
    {
      hide Closed, Labelled, Owned, Counted, Reach, Retag, PointW, MayPoint;
      PointDomain(W(), h, p);
      PointInv(W(), h, p);
      PointParts(W(), h, p);
      ghost var w := PointW(W(), h, p);
      var o := handles[h];
      var fewer := cells[o].(refCount := cells[o].refCount - 1);
      var more := cells[p].(refCount := cells[p].refCount + 1);
      handles, cells, tag := handles[h := p], cells[o := fewer][p := more], w.tag;
    }

    // ----- the end of a handle

    /** The destructor (UnRef) of a handle on the stack: the last handle of some data takes the data with it, and
        the handles in that data end in turn. Only data that the handle reached can go away. */
    method Release(h: Handle)
      requires Valid() && Roots(W(), h)
      modifies this
      ensures Valid() && Shrunk(old(W()), W()) && h !in handles && Stack(W()) == old(Stack(W())) - {h}
      ensures old(cells[handles[h]].refCount) == 1 <==> old(handles[h]) !in cells
      ensures Spares(old(W()), W(), h)
      decreases Size(tag[handles[h]])
    {
      hide Closed, Labelled, Owned, Counted, Reach, DropW, Roots;
      ghost var w0 := W();
      DropDomain(w0, h);
      DropParts(w0, h);
      DropStack(w0, h);
      DropShrinks(w0, h);
      CountIsPositive(w0, h);
      ReachSelf(w0, handles[h]);
      var p := handles[h];
      var cell := cells[p];
      Drop(h);
      if cell.refCount == 1 {
        ReleaseAll(cell.kids, w0, h);
      }
    }

    /** The handles in an array or map that is being freed. */
    method ReleaseAll(kids: seq<Handle>, ghost w0: World, ghost h: Handle)
      requires Valid() && Inv(w0) && Roots(w0, h) && kids == w0.cells[w0.handles[h]].kids
      requires Shrunk(w0, W()) && h !in handles && w0.handles[h] !in cells && Spares(w0, W(), h)
      requires Stack(W()) == Stack(w0) - {h} + Elements(kids)
      modifies this
      ensures Valid() && Shrunk(w0, W()) && h !in handles && w0.handles[h] !in cells && Stack(W()) == Stack(w0) - {h}
      ensures Spares(w0, W(), h)
      decreases Size(w0.tag[w0.handles[h]]), 0
    {
      hide Closed, Labelled, Owned, Counted, Reach, Roots;
      var i := 0;
      DropDomain(w0, h);
      KidsOffStack(w0, h);
      assert kids[0..] == kids;
      while i < |kids|
        invariant 0 <= i <= |kids|
        invariant Valid() && Shrunk(w0, W()) && h !in handles && w0.handles[h] !in cells && Spares(w0, W(), h)
        invariant Stack(W()) == Stack(w0) - {h} + Elements(kids[i..])
      {
        assert kids[i..] == [kids[i]] + kids[i + 1..];
        assert kids[i] in Stack(W());
        assert Roots(W(), kids[i]) by { OnStack(W(), kids[i]); }
        SmallerKid(w0, W(), h, i);
        ghost var u := W();
        Release(kids[i]);
        ShrunkTrans(w0, u, W());
        SparesMore(w0, u, W(), h, i);
        NextKids(w0, h, kids, i);
        i := i + 1;
      }
      assert kids[i..] == [];
    }

    // ----- copy on write

    /** Handles on the stack that share the data of the given handles (the copy of m_valArray or m_valMap). */
    method ShareAll(kids: seq<Handle>, ghost w: World, ghost h: Handle)
      requires Valid() && (forall i :: 0 <= i < |kids| ==> kids[i] in handles) && Closed(w) && Changed(w, W(), h)
      modifies this
      ensures Valid() && Copies(old(W()), W(), kids) && Changed(w, W(), h)
      ensures Stack(W()) == old(Stack(W())) + Elements(From(old(next), |kids|))
    {
      hide Closed, Labelled, Owned, Counted, Reach, Copies, Changed, Stack, ShareW;
      ghost var u := W();
      var i := 0;
      NoCopies(u);
      assert kids[..0] == [];
      while i < |kids|
        invariant 0 <= i <= |kids|
        invariant Valid() && Copies(u, W(), kids[..i]) && Changed(w, W(), h)
        invariant Stack(W()) == Stack(u) + Elements(From(u.next, i))
      {
        CopyStep(w, u, W(), kids[..i], kids[i], h);
        assert kids[..i + 1] == kids[..i] + [kids[i]];
        var k := Share(handles[kids[i]]);
        i := i + 1;
      }
      assert kids[..i] == kids;
    }

    /** CloneRefData: new data with the content of h's data, whose items are shared, not copied. The new handle g
        stands for the pointer the source returns. */
    method CloneRefData(h: Handle) returns (g: Handle)
      requires Valid() && h in handles && handles[h] in cells && handles[h] in tag
      modifies this
      ensures Valid() && ClonedTo(old(W()), W(), h, g)
    {
      hide Closed, Labelled, Owned, Counted, Reach, Retag, Copies, Changed, Stack, FreshW, EditW, MayAdopt, ClonedTo;
      ghost var w0 := W();
      KidsAreHandles(w0, h);
      var cell := cells[handles[h]];
      var first := next;
      ChangedSelf(w0, h);
      ShareAll(cell.kids, w0, h);
      ghost var w1 := W();
      g := Fresh(EMPTY);
      CloneAdopts(w0, w1, h);
      CloneIsDone(w0, w1, h);
      NewHandle(w1);
      Edit(handles[g], ClonedHead(cell.head), From(first, |cell.kids|));
    }

    /** COW and AllocExclusive: h gets a clone of its data if another handle shares it. */
    method AllocExclusive(h: Handle)
      requires Valid() && h in handles
      modifies this
      ensures Valid() && Opened(old(W()), W(), h)
      ensures View(h) == Exclusive(old(View(h)), old(Shared(h)))
    {
      hide Closed, Labelled, Owned, Counted, Reach, Retag, Changed, Stack, MayPoint, PointW, DropW, ClonedTo, Opened;
      ghost var w0 := W();
      KidsAreHandles(w0, h);
      if cells[handles[h]].refCount > 1 {
        var g := CloneRefData(h);
        ghost var w1 := W();
        ClonePoints(w0, w1, h, g);
        Point(h, handles[g]);
        CloneDrops(w0, w1, h, g);
        Drop(g);
        CloneOpens(w0, w1, h, g);
      } else {
        AlreadyOpen(w0, h);
      }
    }

    // ----- exclusive data changes in place

    /** The data of h gets a new head, and keeps or adopts the handles in `keep`; those in `lost` end. */
    method Rewrite(h: Handle, head: Head, keep: seq<Handle>, lost: seq<Handle>, ghost w0: World, ghost temps: set<Handle>)
      requires Valid() && Inv(w0) && Open(w0, W(), h, temps) && MayAdopt(W(), handles[h], keep)
      requires Loses(W(), h, keep, lost) && (lost != [] ==> Inside(w0, W(), h))
      requires temps == Elements(keep) - Elements(cells[handles[h]].kids)
      modifies this
      ensures Valid() && Open(w0, W(), h, {}) && handles[h] == old(handles[h]) && cells[handles[h]].kids == keep
      ensures tag[handles[h]] == Tree(head, KidLabels(old(W()), keep)) && Changed(old(W()), W(), h)
    {
      hide Closed, Labelled, Owned, Counted, Reach, Retag, Changed, Stack, MayAdopt, EditW, Private;
      ghost var a := W();
      var p := handles[h];
      EditInv(a, p, head, keep);
      EditOpen(w0, a, h, head, keep, lost, temps);
      EditParts(a, p, head, keep);
      NoneKept(a, h, keep, w0, temps);
      EditKeepsOwner(w0, a, h, head, keep);
      Edit(p, head, keep);
      ghost var u := W();
      SparesStill(w0, a, u, h);
      assert forall k :: k in lost ==> k in Elements(lost);
      ReleaseLost(lost, w0, a, u, h);
      LossOpen(w0, u, W(), h);
      LossChanged(w0, a, u, W(), h);
    }

    /** The handles that left the array or map. */
    method ReleaseLost(lost: seq<Handle>, ghost w0: World, ghost a: World, ghost u: World, ghost h: Handle)
      requires Valid() && Inv(w0) && Inv(a) && W() == u && h in w0.handles && h in a.handles && a.handles[h] in a.cells
      requires Changed(a, u, h) && Losing(w0, u, u, h, Elements(lost)) && (lost != [] ==> Inside(w0, a, h))
      requires forall k :: k in lost ==> k in a.cells[a.handles[h]].kids
      requires forall i, j :: 0 <= i < j < |lost| ==> lost[i] != lost[j]
      modifies this
      ensures Valid() && Losing(w0, u, W(), h, {})
    {
      hide Closed, Labelled, Owned, Counted, Reach, Changed, Stack, Losing, Inside;
      var i := 0;
      assert lost[0..] == lost;
      while i < |lost|
        invariant 0 <= i <= |lost|
        invariant Valid() && Losing(w0, u, W(), h, Elements(lost[i..]))
      {
        assert lost[i..] == [lost[i]] + lost[i + 1..];
        assert lost[i] in lost;
        ghost var v := W();
        ghost var n :| 0 <= n < |a.cells[a.handles[h]].kids| && a.cells[a.handles[h]].kids[n] == lost[i];
        LeftIsOnStack(w0, u, v, h, Elements(lost[i..]), lost[i]);
        Release(lost[i]);
        LoseStep(w0, a, u, v, W(), h, n, Elements(lost[i..]));
        assert Elements(lost[i..]) - {lost[i]} == Elements(lost[i + 1..]);
        i := i + 1;
      }
      assert Elements(lost[i..]) == {};
    }

    /** The tail of SetType, on exclusive data. */
    method Retype(h: Handle, typ: Type, ghost w0: World)
      requires Valid() && Inv(w0) && Open(w0, W(), h, {}) && Inside(w0, W(), h) && cells[handles[h]].head.typ != typ
      modifies this
      ensures Valid() && Open(w0, W(), h, {}) && Inside(w0, W(), h) && View(h) == Retyped(old(View(h)), typ)
    {
      hide Closed, Labelled, Owned, Counted, Reach, Changed, Stack, Private, MayAdopt, Inside, Loses, Open;
      ghost var u := W();
      HereIn(w0, u, h);
      Shown(W(), h);
      DistinctKids(W(), h);
      var o, kids := cells[handles[h]].head, cells[handles[h]].kids;
      var head := Head(typ, o.word, if o.typ == TString then [] else o.str, if o.typ == TBuffer then None else o.buff,
        if o.typ == TObject then [] else o.keys);
      if o.typ == TArray || o.typ == TObject {
        KeepOwn(W(), h, [], kids);
        Rewrite(h, head, [], kids, w0, {});
      } else {
        KeepOwn(W(), h, kids, []);
        Rewrite(h, head, kids, [], w0, {});
      }
      HereIn(w0, W(), h);
      InsideKept(w0, u, W(), h);
    }

    // ----- the operations

    /** The constructors: a handle on the stack with data of its own. */
    method NewValue(head: Head) returns (h: Handle)
      requires Valid()
      modifies this
      ensures Valid() && h !in old(handles) && h in handles && Env(W()) == old(Env(W()))[h := Tree(head, [])]
      ensures W() == FreshW(old(W()), head) && h == old(next)
    {
      hide Closed, Labelled, Owned, Counted, Reach, Changed, Stack;
      FreshEnv(W(), head);
      h := Fresh(head);
    }

    /** The copy constructor. */
    method Copy(other: Handle) returns (h: Handle)
      requires Valid() && other in handles
      modifies this
      ensures Valid() && h !in old(handles) && h in handles && Env(W()) == old(Env(W()))[h := old(View(other))]
      ensures old(handles[other]) in old(cells) && W() == ShareW(old(W()), old(handles[other])) && h == old(next)
    {
      hide Closed, Labelled, Owned, Counted, Reach, Changed, Stack;
      PointsToData(W(), other);
      Shown(W(), other);
      ShareEnv(W(), handles[other]);
      h := Share(handles[other]);
    }

    /** operator= (const wxJSONValue&), that is Ref. The other value must not end with the data that h leaves. */
    method Assign(h: Handle, other: Handle)
      requires Valid() && h in handles && other in handles && handles[h] in cells
      requires h != other ==> !Holds(W(), other, h) && (Holds(W(), h, other) ==> cells[handles[h]].refCount > 1)
      modifies this
      ensures Valid() && Done(old(W()), W(), h) && View(h) == old(View(other))
    {
      hide Closed, Labelled, Owned, Counted, Reach, Changed, Stack, MayPoint, PointW, ShareW, Holds;
      ghost var w0 := W();
      if handles[h] == handles[other] {
        NothingDone(w0, h);
        return;
      }
      Shown(w0, h);
      Shown(w0, other);
      ShareInv(w0, handles[h]);
      MayRefer(w0, h, other);
      var p := handles[other];
      ShareParts(w0, handles[h]);
      var t := Share(handles[h]);
      Tagged(W(), p);
      Point(h, p);
      ReferParts(w0, h, p);
      Tagged(W(), p);
      Release(t);
      ReferDone(w0, h, p, W());
    }

    /** SetType, and what the operations do first: exclusive data of the wanted type. */
    method Become(h: Handle, typ: Type)
      requires Valid() && h in handles && handles[h] in cells
      modifies this
      ensures Valid() && Open(old(W()), W(), h, {})
      ensures View(h) == TreeOps.Become(old(View(h)), old(Shared(h)), typ)
      ensures old(cells[handles[h]].head.typ) == typ ==> Opened(old(W()), W(), h)
      ensures Inside(old(W()), W(), h)
    {
      hide Closed, Labelled, Owned, Counted, Reach, Changed, Stack, Open, Opened, Inside;
      ghost var w0 := W();
      Shown(w0, h);
      AllocExclusive(h);
      OpenedIsOpen(w0, W(), h);
      InsideOf(w0, W(), h);
      Shown(W(), h);
      if cells[handles[h]].head.typ != typ {
        Retype(h, typ, w0);
      }
    }

    method SetType(h: Handle, typ: Type)
      requires Valid() && h in handles && handles[h] in cells
      modifies this
      ensures Valid() && Done(old(W()), W(), h)
      ensures View(h) == TreeOps.Become(old(View(h)), old(Shared(h)), typ)
    {
      hide Closed, Labelled, Owned, Counted, Reach, Open, Opened, Done;
      Become(h, typ);
      OpenIsDone(old(W()), W(), h);
    }

    /** Exclusive data gets a new head and keeps its handles. */
    method Overwrite(h: Handle, head: Head, ghost w0: World)
      requires Valid() && Inv(w0) && Open(w0, W(), h, {})
      modifies this
      ensures Valid() && Done(w0, W(), h) && View(h) == Tree(head, old(View(h)).kids)
    {
      hide Closed, Labelled, Owned, Counted, Reach, Open, Done, MayAdopt, Loses, Inside;
      HereIn(w0, W(), h);
      Shown(W(), h);
      DistinctKids(W(), h);
      KeepOwn(W(), h, cells[handles[h]].kids, []);
      Rewrite(h, head, cells[handles[h]].kids, [], w0, {});
      OpenIsDone(w0, W(), h);
    }

    /** operator= for int, unsigned, bool and double. */
    method SetScalar(h: Handle, typ: Type, word: int)
      requires Valid() && h in handles && handles[h] in cells && typ in {TInt, TUInt, TBool, TDouble}
      modifies this
      ensures Valid() && Done(old(W()), W(), h)
      ensures View(h) == WithWord(old(View(h)), old(Shared(h)), typ, word)
    {
      hide Closed, Labelled, Owned, Counted, Reach, Open, Opened, Done;
      Become(h, typ);
      HereIn(old(W()), W(), h);
      Shown(W(), h);
      Overwrite(h, cells[handles[h]].head.(word := word), old(W()));
    }

    /** operator= for a string. */
    method SetString(h: Handle, s: Text)
      requires Valid() && h in handles && handles[h] in cells
      modifies this
      ensures Valid() && Done(old(W()), W(), h)
      ensures View(h) == WithString(old(View(h)), old(Shared(h)), s)
    {
      hide Closed, Labelled, Owned, Counted, Reach, Open, Opened, Done;
      Become(h, TString);
      HereIn(old(W()), W(), h);
      Shown(W(), h);
      Overwrite(h, cells[handles[h]].head.(str := s), old(W()));
    }

    /** Cat of a string: nothing happens to other values, not even a copy. */
    method Cat(h: Handle, s: Text) returns (r: bool)
      requires Valid() && h in handles && handles[h] in cells
      modifies this
      ensures Valid() && Done(old(W()), W(), h) && r == (old(cells[handles[h]].head.typ) == TString)
      ensures View(h) == Extended(old(View(h)), old(Shared(h)), s)
    {
      hide Closed, Labelled, Owned, Counted, Reach, Open, Opened, Done;
      ghost var w0 := W();
      Shown(w0, h);
      r := cells[handles[h]].head.typ == TString;
      if r {
        AllocExclusive(h);
        OpenedIsOpen(w0, W(), h);
        HereIn(w0, W(), h);
        Shown(W(), h);
        var head := cells[handles[h]].head;
        Overwrite(h, head.(str := head.str + s), w0);
      } else {
        NothingDone(w0, h);
      }
    }

    /** Append: the array gets one more item, a copy of v. Returns the new item. */
    method Append(h: Handle, v: Handle) returns (k: Handle)
      requires Valid() && h in handles && v in handles && handles[h] in cells && v != h && !Holds(W(), v, h)
      requires cells[handles[h]].head.typ == TArray || !Holds(W(), h, v)
      modifies this
      ensures Valid() && Done(old(W()), W(), h)
      ensures View(h) == Appended(old(View(h)), old(Shared(h)), old(View(v)))
      ensures handles[h] in cells && var kids := cells[handles[h]].kids; |kids| > 0 && k == kids[|kids| - 1]
    {
      hide Closed, Labelled, Owned, Counted, Reach, Changed, Stack, Open, Opened, Done, Holds;
      ghost var w0 := W();
      Shown(w0, v);
      ghost var wasArray := cells[handles[h]].head.typ == TArray;
      Become(h, TArray);
      if wasArray {
        AllStay(w0, W(), h, v);
      } else {
        Spared(w0, W(), h, v);
      }
      StillSame(w0, W(), h, v);
      k := Add(h, v, w0);
      OpenIsDone(w0, W(), h);
    }

    /** m_valArray.Add(value) on exclusive data. */
    method Add(h: Handle, v: Handle, ghost w0: World) returns (k: Handle)
      requires Valid() && Inv(w0) && Open(w0, W(), h, {}) && v in handles && v != h && !Holds(W(), v, h)
      modifies this
      ensures Valid() && Open(w0, W(), h, {})
      ensures View(h) == Tree(old(View(h)).head, old(View(h)).kids + [old(View(v))])
      ensures handles[h] in cells && handles[h] == old(handles[h]) && Changed(old(W()), W(), h)
      ensures cells[handles[h]].kids == old(cells[handles[h]].kids) + [k] && k in handles && handles[k] == old(handles[v])
    {
      hide Closed, Labelled, Owned, Counted, Reach, Changed, Stack;
      hide Open, Opened, Done, Inside, Holds, MayAdopt, Loses, ShareW;
      ghost var u := W();
      HereIn(w0, u, h);
      Shown(u, v);
      ShareParts(u, handles[v]);
      ShareOpen(w0, u, h, v);
      k := Share(handles[v]);
      ghost var z := W();
      HereIn(w0, z, h);
      Shown(u, h);
      var cell := cells[handles[h]];
      AddedOne(z, h, k);
      AddedLabels(u, h, u.handles[v]);
      ChangedSelf(u, h);
      ShareKeeps(u, u, u.handles[v], h);
      Rewrite(h, cell.head, cell.kids + [k], [], w0, {k});
      HereIn(w0, W(), h);
      TwoChanges(u, z, W(), h);
      KidOwner(W(), handles[h], |cell.kids|);
      SamePointer(z, W(), h, k);
    }

    /** Item on an index: the array grows as needed by items that share one null value. */
    method Item(h: Handle, i: nat) returns (k: Handle)
      requires Valid() && h in handles && handles[h] in cells
      modifies this
      ensures Valid() && Done(old(W()), W(), h) && Open(old(W()), W(), h, {}) && Inside(old(W()), W(), h)
      ensures View(h) == Grown(old(View(h)), old(Shared(h)), i)
      ensures handles[h] in cells && i < |cells[handles[h]].kids| && k == cells[handles[h]].kids[i]
    {
      hide Closed, Labelled, Owned, Counted, Reach, Changed, Stack, Open, Opened, Done, Inside, HasLeaf;
      ghost var w0 := W();
      Become(h, TArray);
      HereIn(w0, W(), h);
      Shown(W(), h);
      if i >= |cells[handles[h]].kids| {
        Grow(h, i + 1 - |cells[handles[h]].kids|, w0);
        HereIn(w0, W(), h);
        Shown(W(), h);
      }
      k := cells[handles[h]].kids[i];
      OpenIsDone(w0, W(), h);
    }

    /** m_valArray.Add(v, missing) for a null value v. (The source copies a temporary value once for each item; here
        the temporary itself becomes the first item.) */
    method Grow(h: Handle, missing: nat, ghost w0: World)
      requires Valid() && Inv(w0) && Open(w0, W(), h, {}) && Inside(w0, W(), h) && missing > 0
      modifies this
      ensures Valid() && Open(w0, W(), h, {}) && Inside(w0, W(), h)
      ensures View(h) == Tree(old(View(h)).head, old(View(h)).kids + Nulls(missing))
    {
      hide Closed, Labelled, Owned, Counted, Reach, Changed, Stack;
      hide Open, MayAdopt, Loses, Inside, FreshW, Holds, NewKid, HasLeaf;
      ghost var u := W();
      HereIn(w0, u, h);
      Shown(u, h);
      var cell := cells[handles[h]];
      var first := AddNull(h, w0, cell.head);
      var n := 1;
      assert Nulls(1) == Nulls(0) + [Tree(NULL, [])];
      while n < missing
        invariant 1 <= n <= missing && h in handles && handles[h] in cells
        invariant Valid() && Open(w0, W(), h, {}) && Inside(w0, W(), h) && HasLeaf(w0, W(), h)
        invariant View(h) == Tree(old(View(h)).head, old(View(h)).kids + Nulls(n))
      {
        ghost var z := W();
        LeafAtEnd(w0, z, h);
        Shown(z, h);
        var last := |cells[handles[h]].kids| - 1;
        var v := cells[handles[h]].kids[last];
        NotHeld(z, h, last);
        assert View(v) == Tree(NULL, []);
        var k := Add(h, v, w0);
        HereIn(w0, W(), h);
        MoreLeaves(w0, z, W(), h, v, k);
        assert Nulls(n + 1) == Nulls(n) + [Tree(NULL, [])];
        n := n + 1;
      }
    }

    /** A null value is added to exclusive data, whose head may change with it. */
    method AddNull(h: Handle, ghost w0: World, head: Head) returns (k: Handle)
      requires Valid() && Inv(w0) && Open(w0, W(), h, {}) && Inside(w0, W(), h)
      modifies this
      ensures Valid() && Open(w0, W(), h, {}) && h in handles && handles[h] in cells
      ensures Inside(w0, W(), h) && HasLeaf(w0, W(), h)
      ensures View(h) == Tree(head, old(View(h)).kids + Nulls(1))
      ensures cells[handles[h]].kids == old(cells[handles[h]].kids) + [k]
    {
      hide Closed, Labelled, Owned, Counted, Reach, Changed, Stack, Open, MayAdopt, Loses, Inside, FreshW, NewKid, HasLeaf;
      ghost var u := W();
      HereIn(w0, u, h);
      Shown(u, h);
      FreshOpen(w0, u, h);
      FreshNull(u);
      Unused(u);
      k := Fresh(NULL);
      AddedOne(W(), h, k);
      NullAdded(u, h);
      ChangedSelf(u, h);
      FreshKeeps(u, u, NULL, h);
      ghost var z := W();
      HereIn(w0, z, h);
      Rewrite(h, head, cells[handles[h]].kids + [k], [], w0, {k});
      HereIn(w0, W(), h);
      KidOwner(W(), handles[h], |cells[handles[h]].kids| - 1);
      NextGrows(w0, u, h, {});
      NullInside(w0, u, z, W(), h, k);
    }

    /** Item on a name: a new name gets a null value. */
    method ItemOf(h: Handle, key: Text) returns (k: Handle)
      requires Valid() && h in handles && handles[h] in cells && WellFormed(View(h))
      modifies this
      ensures Valid() && Done(old(W()), W(), h) && Open(old(W()), W(), h, {}) && Inside(old(W()), W(), h)
      ensures View(h) == Named(old(View(h)), old(Shared(h)), key)
      ensures handles[h] in cells && var cell := cells[handles[h]]; var i := IndexOf(cell.head.keys, key);
        i < |cell.head.keys| && i < |cell.kids| && k == cell.kids[i]
    {
      hide Closed, Labelled, Owned, Counted, Reach, Changed, Stack;
      hide Open, Opened, Done, MayAdopt, Loses, Inside, FreshW, NewKid, HasLeaf;
      ghost var w0 := W();
      Become(h, TObject);
      ghost var u := W();
      HereIn(w0, u, h);
      Shown(u, h);
      var cell := cells[handles[h]];
      var i := IndexOf(cell.head.keys, key);
      BecomeIsWell(old(View(h)), old(Shared(h)), TObject);
      if i < |cell.head.keys| {
        k := cell.kids[i];
      } else {
        k := AddNull(h, w0, cell.head.(keys := cell.head.keys + [key]));
        Shown(W(), h);
        IndexOfLast(cell.head.keys, key);
      }
      OpenIsDone(w0, W(), h);
    }

    /** Remove on an index. RemoveAt refuses an index out of range and leaves the array as it is; the result does not
        tell, though it is documented to. */
    method Remove(h: Handle, i: int) returns (r: bool)
      requires Valid() && h in handles && handles[h] in cells
      modifies this
      ensures Valid() && Done(old(W()), W(), h) && r == RemoveSays(old(View(h)))
      ensures View(h) == Shortened(old(View(h)), old(Shared(h)), i)
      ensures r == HasItem(old(View(h)), i) <==>
        old(View(h)).head.typ != TArray || 0 <= i < |old(View(h)).kids|
    {
      hide Closed, Labelled, Owned, Counted, Reach, Changed, Stack, Open, Opened, Done, Inside, MayAdopt, Loses, Without;
      ghost var w0 := W();
      Shown(w0, h);
      AllocExclusive(h);
      OpenedIsOpen(w0, W(), h);
      InsideOf(w0, W(), h);
      HereIn(w0, W(), h);
      Shown(W(), h);
      var cell := cells[handles[h]];
      r := cell.head.typ == TArray;
      if r && 0 <= i < |cell.kids| {
        TakenOut(W(), h, i);
        Rewrite(h, cell.head, Without(cell.kids, i), [cell.kids[i]], w0, {});
      }
      OpenIsDone(w0, W(), h);
    }

    /** Remove on a name. */
    method RemoveOf(h: Handle, key: Text) returns (r: bool)
      requires Valid() && h in handles && handles[h] in cells && WellFormed(View(h))
      modifies this
      ensures Valid() && Done(old(W()), W(), h)
      ensures r == (old(cells[handles[h]].head.typ) == TObject && key in old(cells[handles[h]].head.keys))
      ensures View(h) == Deprived(old(View(h)), old(Shared(h)), key)
    {
      hide Closed, Labelled, Owned, Counted, Reach, Changed, Stack, Open, Opened, Done, Inside, MayAdopt, Loses, Without;
      ghost var w0 := W();
      Shown(w0, h);
      AllocExclusive(h);
      OpenedIsOpen(w0, W(), h);
      InsideOf(w0, W(), h);
      HereIn(w0, W(), h);
      Shown(W(), h);
      var cell := cells[handles[h]];
      var i := IndexOf(cell.head.keys, key);
      ExclusiveIsWell(old(View(h)), old(Shared(h)));
      r := cell.head.typ == TObject && i < |cell.head.keys|;
      if r {
        TakenOut(W(), h, i);
        Rewrite(h, cell.head.(keys := Without(cell.head.keys, i)), Without(cell.kids, i), [cell.kids[i]], w0, {});
      }
      OpenIsDone(w0, W(), h);
    }
  }

  /** Remove on index 0 of an empty array reports that it removed something, and changes nothing. */
  method RemoveFromNothing() returns (s: ValueStore, h: Handle, removed: bool)
    ensures s.Valid() && h in s.handles && s.View(h) == Tree(NULL.(typ := TArray), [])
    ensures removed && !HasItem(s.View(h), 0)
  {
    hide Closed, Labelled, Owned, Counted, Reach, Changed, Stack, Isolated, Spares;
    s := new ValueStore();
    ghost var w0 := s.W();
    h := s.NewValue(NULL.(typ := TArray));
    NewRoot(w0, NULL.(typ := TArray));
    removed := s.Remove(h, 0);
  }

  lemma NewRoot(w: World, head: Head)
    ensures var v, h := FreshW(w, head), w.next;
      && Roots(v, h) && v.handles[h] in v.cells && v.cells[v.handles[h]].refCount == 1
      && v.handles[h] in v.tag && v.tag[v.handles[h]] == Tree(head, [])
  {
  }

  lemma CountIsPositive(w: World, h: Handle)
    requires Inv(w) && h in w.handles
    ensures w.handles[h] in w.cells && w.cells[w.handles[h]].refCount >= 1
  {
    hide Labelled, Owned;
  }

  /** Handles in data are distinct and not on the stack. */
  lemma KidsOffStack(w: World, h: Handle)
    requires Inv(w) && h in w.handles
    ensures w.handles[h] in w.cells
    ensures forall i :: 0 <= i < |w.cells[w.handles[h]].kids| ==> w.cells[w.handles[h]].kids[i] !in Stack(w)
    ensures forall i, j :: 0 <= i < j < |w.cells[w.handles[h]].kids| ==>
      w.cells[w.handles[h]].kids[i] != w.cells[w.handles[h]].kids[j]
  {
    hide Labelled, Counted;
    var kids := w.cells[w.handles[h]].kids;
    forall i | 0 <= i < |kids| ensures kids[i] !in Stack(w) {
      assert w.owner[kids[i]] == Some(w.handles[h]);
    }
  }

  lemma NextKids(w: World, h: Handle, kids: seq<Handle>, i: nat)
    requires forall j :: 0 <= j < |kids| ==> kids[j] !in Stack(w)
    requires forall j, k :: 0 <= j < k < |kids| ==> kids[j] != kids[k]
    requires i < |kids|
    ensures Stack(w) - {h} + Elements(kids[i..]) - {kids[i]} == Stack(w) - {h} + Elements(kids[i + 1..])
  {
    hide Stack;
    assert kids[i..] == [kids[i]] + kids[i + 1..];
    assert kids[i] !in kids[i + 1..];
  }

  /** What a kid of dying data takes with it was reached by the data. */
  lemma SparesMore(w: World, u: World, v: World, h: Handle, i: nat)
    requires Inv(w) && Inv(u) && Inv(v) && Shrunk(w, u) && h in w.handles && Spares(w, u, h)
    requires w.handles[h] in w.cells && i < |w.cells[w.handles[h]].kids| && w.cells[w.handles[h]].kids[i] in u.handles
    requires Shrunk(u, v) && Spares(u, v, w.cells[w.handles[h]].kids[i])
    ensures Spares(w, v, h)
  {
    hide Owned, Counted, Labelled, Reach;
    var p, k := w.handles[h], w.cells[w.handles[h]].kids[i];
    forall c | c in w.cells && c !in v.cells ensures Reach(w, p, c) {
      if c in u.cells {
        ReachGrows(w, u, w.handles[k], c);
        StepAndReach(w, p, i, c);
      }
    }
  }

  /** The trees in a tree are smaller, and still the same while it is taken apart. */
  lemma SmallerKid(w: World, v: World, h: Handle, i: nat)
    requires Inv(w) && Inv(v) && Shrunk(w, v) && h in w.handles && w.handles[h] in w.cells
    requires i < |w.cells[w.handles[h]].kids| && w.cells[w.handles[h]].kids[i] in v.handles
    ensures var k := w.cells[w.handles[h]].kids[i];
      v.handles[k] in v.tag && Size(v.tag[v.handles[k]]) < Size(w.tag[w.handles[h]])
  {
    hide Owned, Counted;
    KidTag(w, w.handles[h], i);
    SizeOfKid(w.tag[w.handles[h]].kids, i);
  }
}
