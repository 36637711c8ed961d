/** How each primitive change extends a change through a handle, and what it does to the stack. */
module Changes {
  import opened Bytes
  import opened Decimal
  import opened JsonValue
  import opened Heap
  import opened HeapSteps
  import opened Isolation

  ghost function Elements(kids: seq<Handle>): set<Handle> {
    set k | k in kids
  }

  lemma ShareKeeps(w: World, u: World, p: Ptr, h: Handle)
    requires Closed(w) && Changed(w, u, h) && p in u.cells
    ensures Changed(w, ShareW(u, p), h)
  {
  }

  lemma ShareStack(u: World, p: Ptr)
    requires Inv(u) && p in u.cells
    ensures Stack(ShareW(u, p)) == Stack(u) + {u.next} && u.next !in Stack(u)
  {
  }

  lemma FreshKeeps(w: World, u: World, head: Head, h: Handle)
    requires Closed(w) && Changed(w, u, h)
    ensures Changed(w, FreshW(u, head), h)
  {
  }

  lemma FreshStack(u: World, head: Head)
    requires Inv(u)
    ensures Stack(FreshW(u, head)) == Stack(u) + {u.next} && u.next !in Stack(u)
  {
  }

  lemma EditKeeps(w: World, u: World, p: Ptr, head: Head, kids: seq<Handle>, h: Handle)
    requires Shape(u) && MayAdopt(u, p, kids) && Changed(w, u, h) && (p !in w.cells || Private(w, h, p))
    ensures Changed(w, EditW(u, p, head, kids), h)
  {
    hide Reach, Retag;
  }

  lemma EditStack(u: World, p: Ptr, head: Head, kids: seq<Handle>)
    requires Inv(u) && MayAdopt(u, p, kids)
    ensures Stack(EditW(u, p, head, kids))
      == Stack(u) - Elements(kids) + (Elements(u.cells[p].kids) - Elements(kids))
  {
    hide Reach, Retag, Labelled, Counted;
    var v := EditW(u, p, head, kids);
    assert v.handles == u.handles;
    forall x | x in u.handles ensures x in Stack(v) <==>
      x in Stack(u) - Elements(kids) + (Elements(u.cells[p].kids) - Elements(kids))
    {
      assert x in u.owner;
    }
  }

  lemma PointKeeps(w: World, u: World, h: Handle, p: Ptr)
    requires Shape(u) && MayPoint(u, h, p) && Changed(w, u, h)
    ensures Changed(w, PointW(u, h, p), h)
  {
    hide Reach, Retag, PointW, MayPoint, Shape;
    PointDomain(u, h, p);
    PointParts(u, h, p);
  }

  lemma PointStack(u: World, h: Handle, p: Ptr)
    requires Shape(u) && MayPoint(u, h, p)
    ensures Stack(PointW(u, h, p)) == Stack(u)
  {
    hide Reach, Retag, PointW, MayPoint, Shape;
    PointDomain(u, h, p);
    PointParts(u, h, p);
  }

  lemma DropKeeps(w: World, u: World, k: Handle, h: Handle)
    requires Inv(u) && Roots(u, k) && Changed(w, u, h)
    ensures Changed(w, DropW(u, k), h)
  {
    hide Labelled, Owned, Counted;
  }

  /** The data of a dropped handle is freed with its last handle, and its children land on the stack. */
  lemma DropStack(u: World, k: Handle)
    requires Inv(u) && Roots(u, k)
    ensures var p := u.handles[k];
      Stack(DropW(u, k)) == Stack(u) - {k} + (if u.cells[p].refCount == 1 then Elements(u.cells[p].kids) else {})
  {
    var p, v := u.handles[k], DropW(u, k);
    assert u.cells[p].refCount >= 1;
    hide Labelled, Counted;
    forall x | x in u.handles ensures x in Stack(v) <==>
      x in Stack(u) - {k} + (if u.cells[p].refCount == 1 then Elements(u.cells[p].kids) else {})
    {
      assert x in u.owner;
    }
  }

  /** v is w with some handles and data gone, and nothing else changed. */
  ghost predicate Shrunk(w: World, v: World) {
    && v.next == w.next
    && (forall x :: x in v.handles ==> x in w.handles && v.handles[x] == w.handles[x])
    && (forall p :: p in v.cells ==> p in w.cells && v.cells[p].head == w.cells[p].head && v.cells[p].kids == w.cells[p].kids)
    && (forall p :: p in v.tag ==> p in w.tag && v.tag[p] == w.tag[p])
  }

  lemma ShrunkTrans(w: World, u: World, v: World)
    requires Shrunk(w, u) && Shrunk(u, v)
    ensures Shrunk(w, v)
  {
  }

  lemma ShrunkKeeps(w: World, u: World, v: World, h: Handle)
    requires Changed(w, u, h) && Shrunk(u, v)
    ensures Changed(w, v, h)
  {
  }

  lemma DropShrinks(u: World, k: Handle)
    requires Inv(u) && Roots(u, k)
    ensures Shrunk(u, DropW(u, k))
  {
    hide Labelled, Owned, Counted;
  }

  /** Whatever goes away was reached by h. */
  ghost predicate Spares(w: World, v: World, h: Handle)
    requires Shape(w) && h in w.handles
  {
    forall c :: c in w.cells && c !in v.cells ==> Reach(w, w.handles[h], c)
  }

  /** A complete change through h: the stack is what it was, and h lies where it lay. */
  ghost predicate Mutated(w: World, v: World, h: Handle) {
    && Changed(w, v, h) && Stack(v) == Stack(w)
    && h in w.handles && h in v.handles && h in w.owner && h in v.owner && v.owner[h] == w.owner[h]
  }

  /** What every operation promises: whatever does not hold h is untouched, and if h is a variable the operation is
      an assignment to that variable. */
  ghost predicate Isolated(w: World, v: World, h: Handle)
    requires Inv(w) && Inv(v) && h in v.handles
  {
    && SameElsewhere(w, v, h)
    && (Roots(w, h) ==> Env(v) == Env(w)[h := v.tag[v.handles[h]]])
  }

  lemma MutatedIsIsolated(w: World, v: World, h: Handle)
    requires Inv(w) && Inv(v) && Mutated(w, v, h)
    ensures Isolated(w, v, h)
  {
    AllUntouched(w, v, h);
    if Roots(w, h) {
      VariablesAreValues(w, v, h);
    }
  }

  /** Data that only h points at is reached from elsewhere only by what holds h. */
  lemma OutOfReach(w: World, h: Handle, x: Handle)
    requires Inv(w) && h in w.handles && x in w.handles && x != h && w.cells[w.handles[h]].refCount == 1
    requires !Holds(w, x, h)
    ensures !Reach(w, w.handles[x], w.handles[h])
  {
    LastSharer(w, h);
    var p := w.handles[h];
    if Reach(w, w.handles[x], p) {
      NotPrivate(w, h, x);
      OnlyThroughOwner(w, p, h, w.handles[x]);
    }
  }

  lemma {:induction false} ReachGrows(w: World, v: World, p: Ptr, q: Ptr)
    requires Shape(w) && Shape(v) && p in w.cells && p in v.cells
    requires forall c :: c in w.cells && c in v.cells ==> v.cells[c].kids == w.cells[c].kids
    requires forall x :: x in w.handles && x in v.handles ==> v.handles[x] == w.handles[x]
    requires Reach(v, p, q)
    ensures Reach(w, p, q)
    decreases v.tag[p]
  {
    if p != q {
      hide Labelled;
      var i :| 0 <= i < |v.cells[p].kids| && KidReach(v, p, i, q);
      var y := v.cells[p].kids[i];
      KidTag(v, p, i);
      ReachGrows(w, v, v.handles[y], q);
      StepAndReach(w, p, i, q);
    }
  }

  lemma KidTag(w: World, p: Ptr, i: nat)
    requires Shape(w) && p in w.cells && i < |w.cells[p].kids|
    ensures i < |w.tag[p].kids| && w.tag[p].kids[i] == w.tag[w.handles[w.cells[p].kids[i]]]
  {
  }
}
