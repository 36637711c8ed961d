/** The primitive changes of the memory, each shown to keep the invariant. */
module HeapSteps {
  import opened Bytes
  import opened Decimal
  import opened JsonValue
  import opened Heap

  lemma KidLabelsEqual(w: World, v: World, kids: seq<Handle>)
    requires Closed(w) && Closed(v)
    requires forall i :: 0 <= i < |kids| ==> kids[i] in w.handles && kids[i] in v.handles
    requires forall i :: 0 <= i < |kids| ==> w.tag[w.handles[kids[i]]] == v.tag[v.handles[kids[i]]]
    ensures KidLabels(v, kids) == KidLabels(w, kids)
  {
  }

  // ----- a new handle for existing data (the copy constructor)

  ghost function ShareW(w: World, p: Ptr): World
    requires p in w.cells
  {
    var h := w.next;
    w.(handles := w.handles[h := p], cells := w.cells[p := w.cells[p].(refCount := w.cells[p].refCount + 1)],
       owner := w.owner[h := None], next := h + 1)
  }

  lemma ShareCounted(w: World, p: Ptr)
    requires Inv(w) && p in w.cells
    ensures Counted(ShareW(w, p))
  {
    hide Labelled, Owned, Sharers;
    var v := ShareW(w, p);
    assert w.next !in w.handles;
    forall q | q in v.cells ensures v.cells[q].refCount == |Sharers(v, q)| && v.cells[q].refCount >= 1 {
      OneMoreSharer(w, v, w.next, p, q);
    }
  }

  lemma OneMoreSharer(w: World, v: World, h: Handle, p: Ptr, q: Ptr)
    requires h !in w.handles && v.handles == w.handles[h := p]
    ensures |Sharers(v, q)| == |Sharers(w, q)| + if q == p then 1 else 0
  {
    var s := Sharers(w, q);
    assert h !in s;
    if q == p {
      assert Sharers(v, q) == s + {h};
      OneIn(s, h);
    } else {
      assert Sharers(v, q) == s;
    }
  }

  lemma ShareLabelled(w: World, p: Ptr)
    requires Inv(w) && p in w.cells
    ensures Shape(ShareW(w, p))
  {
    hide Owned, Counted, KidLabels;
    var v := ShareW(w, p);
    assert Closed(v);
    forall q | q in v.cells ensures v.tag[q] == Tree(v.cells[q].head, KidLabels(v, v.cells[q].kids)) {
      KidLabelsEqual(w, v, w.cells[q].kids);
    }
  }

  lemma ShareOwned(w: World, p: Ptr)
    requires Inv(w) && p in w.cells && Closed(ShareW(w, p))
    ensures Owned(ShareW(w, p))
  {
    hide Counted, Labelled;
    var v := ShareW(w, p);
    forall q, i | q in v.cells && 0 <= i < |v.cells[q].kids| ensures v.owner[v.cells[q].kids[i]] == Some(q) {
      assert w.owner[w.cells[q].kids[i]] == Some(q);
    }
  }

  lemma ShareInv(w: World, p: Ptr)
    requires Inv(w) && p in w.cells
    ensures Inv(ShareW(w, p))
  {
    hide Closed, Labelled, Counted, Owned, ShareW;
    ShareLabelled(w, p);
    ShareOwned(w, p);
    ShareCounted(w, p);
  }

  lemma ShareParts(u: World, p: Ptr)
    requires Closed(u) && p in u.cells
    ensures var z, t := ShareW(u, p), u.next;
      && z.handles == u.handles[t := p] && z.owner == u.owner[t := None] && z.tag == u.tag && t !in u.handles
      && z.next == t + 1
      && z.cells == u.cells[p := u.cells[p].(refCount := u.cells[p].refCount + 1)] && Roots(z, t) && !Roots(u, t)
  {
  }

  // ----- new data without children, with a handle on the stack

  ghost function FreshW(w: World, head: Head): World {
    var h := w.next;
    World(w.handles[h := h], w.cells[h := Cell(1, head, [])], w.owner[h := None], w.tag[h := Tree(head, [])], h + 1)
  }

  lemma FreshShape(w: World, head: Head)
    requires Inv(w)
    ensures Shape(FreshW(w, head))
  {
    hide Owned, Counted, KidLabels;
    var v, p := FreshW(w, head), w.next;
    assert Closed(v);
    forall q | q in v.cells ensures v.tag[q] == Tree(v.cells[q].head, KidLabels(v, v.cells[q].kids)) {
      if q != p {
        KidLabelsEqual(w, v, w.cells[q].kids);
      } else {
        assert KidLabels(v, []) == [];
      }
    }
  }

  lemma FreshCounted(w: World, head: Head)
    requires Inv(w)
    ensures Counted(FreshW(w, head))
  {
    hide Owned, Labelled;
    var v, p := FreshW(w, head), w.next;
    forall q | q in v.cells ensures v.cells[q].refCount == |Sharers(v, q)| && v.cells[q].refCount >= 1 {
      assert Sharers(v, q) == if q == p then {p} else Sharers(w, q);
    }
  }

  lemma FreshOwned(w: World, head: Head)
    requires Inv(w) && Closed(FreshW(w, head))
    ensures Owned(FreshW(w, head))
  {
    hide Counted, Labelled;
  }

  lemma FreshInv(w: World, head: Head)
    requires Inv(w)
    ensures Inv(FreshW(w, head))
  {
    hide Closed, Labelled, Counted, Owned, FreshW;
    FreshShape(w, head);
    FreshOwned(w, head);
    FreshCounted(w, head);
  }

  // ----- a handle on the stack goes away

  ghost function DropW(w: World, h: Handle): World
    requires h in w.handles && w.handles[h] in w.cells
  {
    var p := w.handles[h];
    if w.cells[p].refCount > 1 then
      w.(handles := w.handles - {h}, owner := w.owner - {h},
         cells := w.cells[p := w.cells[p].(refCount := w.cells[p].refCount - 1)])
    else
      w.(handles := w.handles - {h}, cells := w.cells - {p}, tag := w.tag - {p},
         owner := map x | x in w.owner && x != h :: if w.owner[x] == Some(p) then None else w.owner[x])
  }

  lemma LastSharer(w: World, h: Handle)
    requires Inv(w) && h in w.handles && w.cells[w.handles[h]].refCount == 1
    ensures Sharers(w, w.handles[h]) == {h}
  {
    var s := Sharers(w, w.handles[h]);
    assert h in s && |s - {h}| == 0;
    assert s == (s - {h}) + {h};
  }

  lemma DropCounted(w: World, h: Handle)
    requires Inv(w) && Roots(w, h)
    ensures Counted(DropW(w, h))
  {
    var v, p := DropW(w, h), w.handles[h];
    forall q | q in v.cells ensures v.cells[q].refCount == |Sharers(v, q)| && v.cells[q].refCount >= 1 {
      assert Sharers(v, q) == Sharers(w, q) - {h};
      assert h in Sharers(w, q) <==> q == p;
    }
  }

  lemma DropClosed(w: World, h: Handle)
    requires Inv(w) && Roots(w, h)
    ensures Closed(DropW(w, h))
  {
    assert w.cells[w.handles[h]].refCount >= 1;
    var v, p := DropW(w, h), w.handles[h];
    DropLeavesData(w, h);
    hide Counted, Labelled;
    forall q, i | q in v.cells && 0 <= i < |v.cells[q].kids| ensures v.cells[q].kids[i] in v.handles {
      assert w.owner[w.cells[q].kids[i]] == Some(q);
    }
  }

  /** No other handle loses its data. */
  lemma DropLeavesData(w: World, h: Handle)
    requires Inv(w) && Roots(w, h)
    ensures var v := DropW(w, h); forall x :: x in v.handles ==> v.handles[x] in v.cells
  {
    var v, p := DropW(w, h), w.handles[h];
    if w.cells[p].refCount == 1 {
      LastSharer(w, h);
    }
    hide Labelled, Owned, Counted;
    forall x | x in v.handles ensures v.handles[x] in v.cells {
      assert x != h && x in w.handles;
      if w.cells[p].refCount == 1 { assert x !in Sharers(w, p); }
    }
  }

  lemma DropOwned(w: World, h: Handle)
    requires Inv(w) && Roots(w, h) && Closed(DropW(w, h))
    ensures Owned(DropW(w, h))
  {
    hide Counted, Labelled;
    var v, p := DropW(w, h), w.handles[h];
    forall q, i | q in v.cells && 0 <= i < |v.cells[q].kids| ensures v.owner[v.cells[q].kids[i]] == Some(q) {
      assert w.owner[w.cells[q].kids[i]] == Some(q);
    }
    forall x | x in v.handles && v.owner[x].Some? ensures v.owner[x].value in v.cells && x in v.cells[v.owner[x].value].kids {
      assert w.owner[x] == v.owner[x];
    }
  }

  lemma DropLabelled(w: World, h: Handle)
    requires Inv(w) && Roots(w, h) && Closed(DropW(w, h))
    ensures Labelled(DropW(w, h))
  {
    hide Owned, Counted, KidLabels;
    var v := DropW(w, h);
    forall q | q in v.cells ensures v.tag[q] == Tree(v.cells[q].head, KidLabels(v, v.cells[q].kids)) {
      KidLabelsEqual(w, v, w.cells[q].kids);
    }
  }

  lemma DropInv(w: World, h: Handle)
    requires Inv(w) && Roots(w, h)
    ensures Inv(DropW(w, h))
  {
    hide Closed, Labelled, Counted, Owned, DropW, Roots;
    DropClosed(w, h);
    DropOwned(w, h);
    DropCounted(w, h);
    DropLabelled(w, h);
  }

  // ----- a data gets a new head and new children

  /** The handles that may become the children of p: some it has already, and some from the stack. */
  ghost predicate MayAdopt(w: World, p: Ptr, kids: seq<Handle>)
    requires Shape(w)
  {
    && p in w.cells
    && (forall i :: 0 <= i < |kids| ==> kids[i] in w.handles && (w.owner[kids[i]] == None || w.owner[kids[i]] == Some(p)))
    && (forall i, j :: 0 <= i < j < |kids| ==> kids[i] != kids[j])
    && (forall i :: 0 <= i < |kids| ==> !Reach(w, w.handles[kids[i]], p))
  }

  /** Children that p loses land on the stack. */
  ghost function EditW(w: World, p: Ptr, head: Head, kids: seq<Handle>): World
    requires Shape(w) && MayAdopt(w, p, kids)
  {
    var t := Tree(head, KidLabels(w, kids));
    w.(cells := w.cells[p := Cell(w.cells[p].refCount, head, kids)],
       owner := map x | x in w.owner ::
         if x in kids then Some(p) else if w.owner[x] == Some(p) then None else w.owner[x],
       tag := map q | q in w.cells :: Retag(w, p, t, q))
  }

  lemma EditLabelled(w: World, p: Ptr, head: Head, kids: seq<Handle>)
    requires Inv(w) && MayAdopt(w, p, kids)
    ensures Shape(EditW(w, p, head, kids))
    ensures EditW(w, p, head, kids).tag[p] == Tree(head, KidLabels(w, kids))
  {
    hide Counted, Owned;
    var v, t := EditW(w, p, head, kids), Tree(head, KidLabels(w, kids));
    assert Closed(v);
    forall q | q in v.cells ensures v.tag[q] == Tree(v.cells[q].head, KidLabels(v, v.cells[q].kids)) {
      if q == p {
        forall i | 0 <= i < |kids| ensures KidLabels(v, kids)[i] == KidLabels(w, kids)[i] {
          RetagIdle(w, p, t, w.handles[kids[i]]);
        }
      } else {
        assert KidLabels(v, v.cells[q].kids) == Retag(w, p, t, q).kids;
      }
    }
  }

  lemma EditOwned(w: World, p: Ptr, head: Head, kids: seq<Handle>)
    requires Inv(w) && MayAdopt(w, p, kids) && Closed(EditW(w, p, head, kids))
    ensures Owned(EditW(w, p, head, kids))
  {
    hide Counted, Labelled, Retag, Reach;
    var v := EditW(w, p, head, kids);
    forall q, i | q in v.cells && 0 <= i < |v.cells[q].kids| ensures v.owner[v.cells[q].kids[i]] == Some(q) {
      if q != p { assert w.owner[w.cells[q].kids[i]] == Some(q); }
    }
    forall x | x in v.handles && v.owner[x].Some?
      ensures v.owner[x].value in v.cells && x in v.cells[v.owner[x].value].kids
    {
      if x !in kids { assert w.owner[x] == v.owner[x]; }
    }
  }

  lemma EditInv(w: World, p: Ptr, head: Head, kids: seq<Handle>)
    requires Inv(w) && MayAdopt(w, p, kids)
    ensures Inv(EditW(w, p, head, kids))
    ensures EditW(w, p, head, kids).tag[p] == Tree(head, KidLabels(w, kids))
  {
    EditLabelled(w, p, head, kids);
    EditOwned(w, p, head, kids);
    var v := EditW(w, p, head, kids);
    forall q | q in v.cells ensures v.cells[q].refCount == |Sharers(v, q)| && v.cells[q].refCount >= 1 {
      assert Sharers(v, q) == Sharers(w, q);
    }
  }

  // ----- a handle is made to point at other data

  ghost predicate MayPoint(w: World, h: Handle, p: Ptr)
    requires Shape(w)
  {
    && h in w.handles && h in w.owner && p in w.cells && w.handles[h] != p
    && w.cells[w.handles[h]].refCount > 1
    && (w.owner[h].Some? ==> w.owner[h].value in w.cells && !Reach(w, p, w.owner[h].value))
  }

  ghost function PointW(w: World, h: Handle, p: Ptr): World
    requires Shape(w) && MayPoint(w, h, p)
  {
    var old_ := w.handles[h];
    var cells := w.cells[old_ := w.cells[old_].(refCount := w.cells[old_].refCount - 1)];
    var moved := w.(handles := w.handles[h := p],
                    cells := cells[p := cells[p].(refCount := cells[p].refCount + 1)]);
    if w.owner[h] == None then moved
    else
      var q := w.owner[h].value;
      var kids := w.cells[q].kids;
      var t := Tree(w.cells[q].head, seq(|kids|, i requires 0 <= i < |kids| =>
        if kids[i] == h then w.tag[p] else w.tag[w.handles[kids[i]]]));
      moved.(tag := map x | x in w.cells :: Retag(w, q, t, x))
  }

  lemma PointLabelled(w: World, h: Handle, p: Ptr)
    requires Inv(w) && MayPoint(w, h, p)
    ensures Shape(PointW(w, h, p))
    ensures PointW(w, h, p).tag[p] == w.tag[p]
  {
    PointClosed(w, h, p);
    hide Closed, Counted, Owned, PointW, Reach, Retag;
    if w.owner[h] == None {
      RootPointed(w, h, p);
    } else {
      PointedLabelled(w, h, p);
    }
  }

  lemma PointClosed(w: World, h: Handle, p: Ptr)
    requires Inv(w) && MayPoint(w, h, p)
    ensures Closed(PointW(w, h, p))
  {
    hide Counted, Owned, Labelled, Reach, Retag;
  }

  lemma RootPointed(w: World, h: Handle, p: Ptr)
    requires Inv(w) && MayPoint(w, h, p) && w.owner[h] == None && Closed(PointW(w, h, p))
    ensures Labelled(PointW(w, h, p)) && PointW(w, h, p).tag[p] == w.tag[p]
  {
    hide Labelled, Closed, Counted, Reach, Retag, PointW, MayPoint, Owned, SameCell;
    RootPointParts(w, h, p);
    forall x | x in w.cells ensures SameCell(w, PointW(w, h, p), x) {
      RootCell(w, PointW(w, h, p), h, p, x);
    }
    SameLabels(w, PointW(w, h, p));
  }

  lemma RootCell(w: World, v: World, h: Handle, p: Ptr, x: Ptr)
    requires Inv(w) && h in w.handles && w.owner[h] == None && v.tag == w.tag && v.handles == w.handles[h := p]
    requires x in w.cells && x in v.cells && v.cells[x].head == w.cells[x].head && v.cells[x].kids == w.cells[x].kids
    ensures SameCell(w, v, x)
  {
    RootIsNoKid(w, h, x);
    hide Closed, Labelled, Owned, Counted;
  }

  /** The data x has its content and its label in both worlds, and its handles point where they pointed. */
  ghost predicate SameCell(w: World, v: World, x: Ptr) {
    && x in w.cells && x in v.cells && x in w.tag && x in v.tag
    && v.cells[x].head == w.cells[x].head && v.cells[x].kids == w.cells[x].kids && v.tag[x] == w.tag[x]
    && forall i :: 0 <= i < |w.cells[x].kids| ==> (
          w.cells[x].kids[i] in w.handles && w.cells[x].kids[i] in v.handles
          && v.handles[w.cells[x].kids[i]] == w.handles[w.cells[x].kids[i]])
  }

  lemma SameLabels(w: World, v: World)
    requires Shape(w) && Closed(v) && forall x :: x in v.cells ==> SameCell(w, v, x)
    ensures Labelled(v)
  {
    forall x | x in v.cells ensures v.tag[x] == Tree(v.cells[x].head, KidLabels(v, v.cells[x].kids)) {
      assert SameCell(w, v, x);
      SameKidLabels(w, v, x);
    }
  }

  lemma SameKidLabels(w: World, v: World, x: Ptr)
    requires Shape(w) && Closed(v) && (forall y :: y in v.cells ==> SameCell(w, v, y)) && x in v.cells
    ensures x in w.cells && v.cells[x].kids == w.cells[x].kids
    ensures KidLabels(v, v.cells[x].kids) == KidLabels(w, w.cells[x].kids)
  {
    hide Labelled;
    assert SameCell(w, v, x);
    var kids := w.cells[x].kids;
    forall i | 0 <= i < |kids| ensures KidLabels(v, kids)[i] == KidLabels(w, kids)[i] {
      assert SameCell(w, v, v.handles[kids[i]]);
    }
  }

  lemma RootIsNoKid(w: World, h: Handle, x: Ptr)
    requires Inv(w) && h in w.handles && w.owner[h] == None && x in w.cells
    ensures x in w.tag
    ensures forall i :: 0 <= i < |w.cells[x].kids| ==> w.cells[x].kids[i] != h && w.cells[x].kids[i] in w.handles
  {
    hide Labelled, Counted;
    forall i | 0 <= i < |w.cells[x].kids| ensures w.cells[x].kids[i] != h && w.cells[x].kids[i] in w.handles {
      assert w.owner[w.cells[x].kids[i]] == Some(x);
    }
  }

  lemma RootPointParts(w: World, h: Handle, p: Ptr)
    requires Shape(w) && MayPoint(w, h, p) && w.owner[h] == None
    ensures var v := PointW(w, h, p);
      && h in w.handles && w.handles[h] in w.cells && p in w.cells && p in w.tag && v.tag == w.tag
      && v.handles == w.handles[h := p] && v.cells.Keys == w.cells.Keys
      && forall x :: x in w.cells ==> v.cells[x].head == w.cells[x].head && v.cells[x].kids == w.cells[x].kids
  {
    hide Reach, Retag, Labelled;
  }

  lemma PointedLabelled(w: World, h: Handle, p: Ptr)
    requires Inv(w) && MayPoint(w, h, p) && w.owner[h].Some? && Closed(PointW(w, h, p))
    ensures Labelled(PointW(w, h, p))
    ensures PointW(w, h, p).tag[p] == w.tag[p]
  {
    hide Counted, Reach;
    var v, q := PointW(w, h, p), w.owner[h].value;
    RetagIdle(w, q, v.tag[q], p);
    forall x | x in v.cells ensures v.tag[x] == Tree(v.cells[x].head, KidLabels(v, v.cells[x].kids)) {
      if x == q {
        PointedOwner(w, h, p);
      } else {
        PointedOther(w, h, p, x);
      }
    }
  }

  lemma PointedOwner(w: World, h: Handle, p: Ptr)
    requires Inv(w) && MayPoint(w, h, p) && w.owner[h].Some? && Closed(PointW(w, h, p))
    ensures var v, q := PointW(w, h, p), w.owner[h].value;
      v.tag[q] == Tree(v.cells[q].head, KidLabels(v, v.cells[q].kids))
  {
    hide Counted, Owned, Reach;
    var v, q := PointW(w, h, p), w.owner[h].value;
    var kids, t := w.cells[q].kids, v.tag[q];
    RetagIdle(w, q, t, p);
    forall i | 0 <= i < |kids| ensures KidLabels(v, kids)[i] == t.kids[i] {
      if kids[i] != h {
        NoCycle(w, q, i);
        RetagIdle(w, q, t, w.handles[kids[i]]);
      }
    }
    assert KidLabels(v, kids) == t.kids;
  }

  lemma PointedOther(w: World, h: Handle, p: Ptr, x: Ptr)
    requires Inv(w) && MayPoint(w, h, p) && w.owner[h].Some? && Closed(PointW(w, h, p))
    requires x in w.cells && x != w.owner[h].value
    ensures var v := PointW(w, h, p); v.tag[x] == Tree(v.cells[x].head, KidLabels(v, v.cells[x].kids))
  {
    hide Counted, Reach, Labelled;
    var v, q := PointW(w, h, p), w.owner[h].value;
    var kids, t := w.cells[x].kids, v.tag[q];
    forall i | 0 <= i < |kids| ensures KidLabels(v, kids)[i] == Retag(w, q, t, x).kids[i] {
      assert w.owner[kids[i]] == Some(x);
    }
    assert KidLabels(v, kids) == Retag(w, q, t, x).kids;
  }

  lemma PointCounted(w: World, h: Handle, p: Ptr)
    requires Inv(w) && MayPoint(w, h, p)
    ensures Counted(PointW(w, h, p))
  {
    PointDomain(w, h, p);
    PointParts(w, h, p);
    assert w.cells[w.handles[h]].refCount > 1;
    hide Retag, Reach, Labelled, Closed, Owned, PointW, MayPoint, Sharers;
    var v := PointW(w, h, p);
    forall q | q in v.cells ensures v.cells[q].refCount == |Sharers(v, q)| && v.cells[q].refCount >= 1 {
      PointSharers(w, v, h, p, q);
    }
  }

  lemma PointSharers(w: World, v: World, h: Handle, p: Ptr, q: Ptr)
    requires h in w.handles && v.handles == w.handles[h := p] && w.handles[h] != p
    ensures |Sharers(v, q)|
      == |Sharers(w, q)| + (if q == p then 1 else 0) - (if q == w.handles[h] then 1 else 0)
  {
    var s := Sharers(w, q);
    assert h in s <==> q == w.handles[h];
    assert Sharers(v, q) == if q == p then s + {h} else s - {h};
    OneIn(s, h);
  }

  lemma OneIn(s: set<Handle>, h: Handle)
    ensures |s + {h}| == |s| + (if h in s then 0 else 1) && |s - {h}| == |s| - (if h in s then 1 else 0)
  {
    assert h in s ==> s == (s - {h}) + {h};
    assert h !in s ==> s - {h} == s;
  }

  lemma PointOwned(w: World, h: Handle, p: Ptr)
    requires Inv(w) && MayPoint(w, h, p) && Closed(PointW(w, h, p))
    ensures Owned(PointW(w, h, p))
  {
    hide Counted, Labelled, Retag, Reach, PointW, MayPoint, Owned;
    PointDomain(w, h, p);
    PointParts(w, h, p);
    assert h in w.handles && w.handles[h] in w.cells && p in w.cells;
    hide *;
    KidsKept(w, PointW(w, h, p), w.handles[h], p);
    SameOwned(w, PointW(w, h, p));
  }

  /** Counting anew changes no items. */
  lemma KidsKept(w: World, v: World, o: Ptr, p: Ptr)
    requires o in w.cells && p in w.cells
    requires v.cells == w.cells[o := w.cells[o].(refCount := w.cells[o].refCount - 1)]
                               [p := w.cells[p].(refCount := w.cells[p].refCount + 1)]
    ensures v.cells.Keys == w.cells.Keys && forall q :: q in w.cells ==> v.cells[q].kids == w.cells[q].kids
  {
  }

  lemma SameOwned(w: World, v: World)
    requires Closed(w) && Owned(w) && Closed(v) && v.owner == w.owner && v.handles.Keys == w.handles.Keys
    requires v.cells.Keys == w.cells.Keys && forall q :: q in w.cells ==> v.cells[q].kids == w.cells[q].kids
    ensures Owned(v)
  {
  }

  lemma PointInv(w: World, h: Handle, p: Ptr)
    requires Inv(w) && MayPoint(w, h, p)
    ensures Inv(PointW(w, h, p))
    ensures PointW(w, h, p).tag[p] == w.tag[p]
  {
    hide Closed, Labelled, Counted, Owned, MayPoint, PointW;
    PointLabelled(w, h, p);
    PointCounted(w, h, p);
    PointOwned(w, h, p);
  }

  lemma PointDomain(w: World, h: Handle, p: Ptr)
    requires Shape(w) && MayPoint(w, h, p)
    ensures h in w.handles && w.handles[h] in w.cells && p in w.cells && w.handles[h] != p
  {
    hide Reach;
  }

  lemma DropDomain(w: World, h: Handle)
    requires Shape(w) && Roots(w, h)
    ensures h in w.handles && w.handles[h] in w.cells
  {
  }

  lemma PointParts(w: World, h: Handle, p: Ptr)
    requires Shape(w) && MayPoint(w, h, p)
    ensures var v, o := PointW(w, h, p), w.handles[h];
      && v.handles == w.handles[h := p] && v.owner == w.owner && v.next == w.next
      && v.cells == w.cells[o := w.cells[o].(refCount := w.cells[o].refCount - 1)]
                           [p := w.cells[p].(refCount := w.cells[p].refCount + 1)]
  {
    hide Retag, Reach;
  }

  lemma DropParts(w: World, h: Handle)
    requires Inv(w) && Roots(w, h)
    ensures var v, p := DropW(w, h), w.handles[h];
      && v.handles == w.handles - {h} && v.next == w.next
      && v.cells == if w.cells[p].refCount > 1 then w.cells[p := w.cells[p].(refCount := w.cells[p].refCount - 1)]
                    else w.cells - {p}
  {
  }
}
