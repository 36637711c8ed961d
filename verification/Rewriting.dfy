/** Changing exclusive data in place: its head, the handles it adopts, and those it loses. */
module Rewriting {
  import opened Bytes
  import opened Decimal
  import opened JsonValue
  import opened Heap
  import opened HeapSteps
  import opened Isolation
  import opened Changes
  import opened CopyOnWrite

  /** A change through h since w is under way: h's data is exclusive, and the handles in temps are still to be placed. */
  ghost predicate Open(w: World, u: World, h: Handle, temps: set<Handle>)
    requires Shape(w)
  {
    && h in w.handles && h in u.handles && h in w.owner && h in u.owner && u.owner[h] == w.owner[h]
    && Changed(w, u, h) && Stack(u) == Stack(w) + temps && temps !! Stack(w)
    && u.handles[h] in u.cells && u.cells[u.handles[h]].refCount == 1
    && (Private(w, h, u.handles[h]) || u.handles[h] !in w.cells)
    && Spares(w, u, h)
  }

  lemma OpenedIsOpen(w: World, u: World, h: Handle)
    requires Inv(w) && Inv(u) && Opened(w, u, h)
    ensures Open(w, u, h, {})
  {
    hide Closed, Labelled, Owned, Counted, Reach, Changed, Stack, Private;
  }

  /** The handles that h's data loses when it keeps only some. */
  ghost predicate Loses(u: World, h: Handle, keep: seq<Handle>, lost: seq<Handle>)
    requires h in u.handles && u.handles[h] in u.cells
  {
    && Elements(lost) == Elements(u.cells[u.handles[h]].kids) - Elements(keep)
    && (forall i, j :: 0 <= i < j < |lost| ==> lost[i] != lost[j])
  }

  lemma EditOpen(w: World, u: World, h: Handle, head: Head, keep: seq<Handle>, lost: seq<Handle>, temps: set<Handle>)
    requires Inv(w) && Inv(u) && Open(w, u, h, temps) && Loses(u, h, keep, lost) && MayAdopt(u, u.handles[h], keep)
    requires Inv(EditW(u, u.handles[h], head, keep)) && temps == Elements(keep) - Elements(u.cells[u.handles[h]].kids)
    ensures var v := EditW(u, u.handles[h], head, keep);
      && Changed(w, v, h) && Changed(u, v, h) && Stack(v) == Stack(w) + Elements(lost) && Elements(lost) !! Stack(w)
  {
    hide Closed, Labelled, Owned, Counted, Reach, Changed, Stack, MayAdopt, EditW;
    var p := u.handles[h];
    EditKeeps(w, u, p, head, keep, h);
    ChangedSelf(u, h);
    EditKeeps(u, u, p, head, keep, h);
    EditStack(u, p, head, keep);
    KidsNotOnStack(u, p);
  }

  lemma ChangedSelf(u: World, h: Handle)
    ensures Changed(u, u, h)
  {
  }

  lemma KidsNotOnStack(u: World, p: Ptr)
    requires Inv(u) && p in u.cells
    ensures Elements(u.cells[p].kids) !! Stack(u)
  {
    hide Labelled, Counted;
    forall k | k in u.cells[p].kids ensures k !in Stack(u) {
      var i :| 0 <= i < |u.cells[p].kids| && u.cells[p].kids[i] == k;
      assert u.owner[u.cells[p].kids[i]] == Some(p);
    }
  }

  /** Editing changes neither handles nor the set of data. */
  lemma EditParts(u: World, p: Ptr, head: Head, kids: seq<Handle>)
    requires Inv(u) && MayAdopt(u, p, kids)
    ensures p in u.cells
    ensures var v := EditW(u, p, head, kids);
      && v.handles == u.handles && v.next == u.next && v.cells == u.cells[p := Cell(u.cells[p].refCount, head, kids)]
      && v.owner.Keys == u.owner.Keys
  {
    hide Retag, Reach, Labelled, Counted, Owned;
  }

  lemma EditKeepsOwner(w: World, u: World, h: Handle, head: Head, keep: seq<Handle>)
    requires Inv(w) && Inv(u) && h in w.handles && h in u.handles && h in w.owner && h in u.owner && w.owner[h] == u.owner[h]
    requires Stack(u) >= Stack(w) && MayAdopt(u, u.handles[h], keep) && Elements(keep) !! Stack(w)
    ensures h in EditW(u, u.handles[h], head, keep).owner && EditW(u, u.handles[h], head, keep).owner[h] == u.owner[h]
  {
    hide Labelled, Counted;
    if u.owner[h].Some? {
      var j := SlotOf(u, h);
      ReachSelf(u, u.handles[h]);
    } else {
      assert h in Stack(w);
    }
  }

  /** The handles that h's data lost are ending: some are gone, those in `left` are still to go. */
  ghost predicate Losing(w: World, u: World, v: World, h: Handle, left: set<Handle>)
    requires Shape(w) && h in w.handles
  {
    Shrunk(u, v) && Stack(v) == Stack(w) + left && left !! Stack(w) && Spares(w, v, h)
  }

  lemma LoseStep(w: World, a: World, u: World, v: World, z: World, h: Handle, i: nat, left: set<Handle>)
    requires Inv(w) && Inv(a) && Inv(u) && Inv(v) && Inv(z)
    requires h in w.handles && h in a.handles && a.handles[h] in a.cells && Inside(w, a, h)
    requires i < |a.cells[a.handles[h]].kids| && Changed(a, u, h) && Losing(w, u, v, h, left)
    requires var k := a.cells[a.handles[h]].kids[i];
      k in left && k in v.handles && Shrunk(v, z) && Stack(z) == Stack(v) - {k} && Spares(v, z, k)
    ensures Losing(w, u, z, h, left - {a.cells[a.handles[h]].kids[i]})
  {
    hide Closed, Labelled, Owned, Counted, Reach, Changed, Stack;
    var p := a.handles[h];
    var k := a.cells[p].kids[i];
    ShrunkTrans(u, v, z);
    KidOwner(a, p, i);
    PointsToData(w, h);
    forall c | c in w.cells && c !in z.cells ensures Reach(w, w.handles[h], c) {
      if c in v.cells {
        PointsToData(v, k);
        PointsToData(u, k);
        ReachGrows(u, v, v.handles[k], c);
        NotHeld(a, h, i);
        ReachKept(a, u, h, k, c);
        StepAndReach(a, p, i, c);
      }
    }
  }

  lemma PointsToData(w: World, h: Handle)
    requires Inv(w) && h in w.handles
    ensures w.handles[h] in w.cells
  {
  }

  /** h survives the loss of its items. */
  lemma LossOpen(w: World, u: World, v: World, h: Handle)
    requires Inv(w) && Inv(u) && Inv(v) && h in w.handles && Changed(w, u, h) && Losing(w, u, v, h, {})
    requires h in u.handles && h in u.owner && h in w.owner && u.owner[h] == w.owner[h]
    requires u.handles[h] in u.cells && u.cells[u.handles[h]].refCount == 1
    requires Private(w, h, u.handles[h]) || u.handles[h] !in w.cells
    ensures Open(w, v, h, {}) && v.handles[h] == u.handles[h]
    ensures v.handles[h] in v.tag && v.handles[h] in u.tag && v.tag[v.handles[h]] == u.tag[u.handles[h]]
    ensures v.cells[v.handles[h]].kids == u.cells[v.handles[h]].kids
  {
    hide Closed, Labelled, Reach, Changed, Owned, Counted, Stack, Private;
    ShrunkKeeps(w, u, v, h);
    if w.owner[h].Some? {
      SlotStays(w, u, v, h);
    } else {
      RootStays(w, v, h);
    }
    AloneStill(u, v, h);
    SparedFrom(w, u, v, h);
  }

  lemma SparedFrom(w: World, u: World, v: World, h: Handle)
    requires Shape(w) && h in w.handles && Losing(w, u, v, h, {})
    ensures Spares(w, v, h) && Stack(v) == Stack(w) + {} && {} !! Stack(w)
  {
  }

  lemma RootStays(w: World, v: World, h: Handle)
    requires Roots(w, h) && Stack(v) == Stack(w) + {}
    ensures Roots(v, h)
  {
    assert h in Stack(w);
  }

  lemma AloneStill(u: World, v: World, h: Handle)
    requires Inv(u) && Inv(v) && Shrunk(u, v) && h in u.handles && h in v.handles
    requires u.handles[h] in u.cells && u.cells[u.handles[h]].refCount == 1
    ensures v.handles[h] in v.cells && v.cells[v.handles[h]].refCount == 1 && v.handles[h] in v.tag && v.handles[h] in u.tag
  {
    hide Labelled, Owned;
    LastSharer(u, h);
    assert Sharers(v, v.handles[h]) <= {h};
    assert h in Sharers(v, v.handles[h]);
    assert Sharers(v, v.handles[h]) == {h};
  }

  lemma SlotStays(w: World, u: World, v: World, h: Handle)
    requires Inv(w) && Inv(u) && Inv(v) && h in w.handles && Shrunk(u, v) && Spares(w, v, h)
    requires h in u.handles && w.owner[h].Some? && u.owner[h] == w.owner[h]
    ensures h in v.handles && h in v.owner && v.owner[h] == w.owner[h]
  {
    hide Labelled, Reach, Counted;
    var q := w.owner[h].value;
    var j := SlotOf(w, h);
    var i := SlotOf(u, h);
    assert q in v.cells;
    assert v.cells[q].kids[i] == h;
  }

  lemma LeftIsOnStack(w: World, u: World, v: World, h: Handle, left: set<Handle>, k: Handle)
    requires Shape(w) && h in w.handles && Losing(w, u, v, h, left) && k in left
    ensures Roots(v, k)
  {
    assert k in Stack(v);
  }

  lemma NoneKept(a: World, h: Handle, keep: seq<Handle>, w: World, temps: set<Handle>)
    requires Inv(a) && h in a.handles && a.handles[h] in a.cells && Stack(a) == Stack(w) + temps && temps !! Stack(w)
    requires temps == Elements(keep) - Elements(a.cells[a.handles[h]].kids)
    ensures Elements(keep) !! Stack(w)
  {
    hide Stack, Closed, Owned, Labelled, Counted;
    KidsNotOnStack(a, a.handles[h]);
  }

  lemma SparesStill(w: World, a: World, u: World, h: Handle)
    requires Shape(w) && h in w.handles && Spares(w, a, h) && u.cells.Keys == a.cells.Keys
    ensures Spares(w, u, h) && Shrunk(u, u)
  {
  }

  /** Adding handles of new data without handles lets h reach nothing it did not reach. */
  lemma InsideKept(w: World, u: World, v: World, h: Handle)
    requires Inv(w) && Inv(u) && Inv(v) && h in w.handles && h in u.handles && h in v.handles && Inside(w, u, h)
    requires Changed(u, v, h) && v.handles[h] == u.handles[h] && u.handles[h] in u.cells && v.handles[h] in v.cells
    requires forall k :: k in v.cells[v.handles[h]].kids ==> k in u.cells[u.handles[h]].kids || NewLeaf(w, v, k)
    ensures Inside(w, v, h)
  {
    hide Closed, Labelled, Owned, Counted, Reach, Changed;
    var p := u.handles[h];
    PointsToData(w, h);
    forall c | c in w.cells && Reach(v, p, c) ensures Reach(w, w.handles[h], c) {
      ReachSelf(u, p);
      if c != p {
        var i, y := FirstStep(v, p, c);
        if y in u.cells[p].kids {
          var j :| 0 <= j < |u.cells[p].kids| && u.cells[p].kids[j] == y;
          KidOwner(u, p, j);
          NotHeld(u, h, j);
          ReachKept(u, v, h, y, c);
          SameData(u, v, h, y);
          StepAndReach(u, p, j, c);
        } else {
          LeafReach(v, v.handles[y], c);
        }
      }
    }
  }

  ghost predicate NewLeaf(w: World, v: World, k: Handle) {
    k in v.handles && v.handles[k] !in w.cells && v.handles[k] in v.cells && v.cells[v.handles[k]].kids == []
  }

  lemma LeafReach(v: World, p: Ptr, c: Ptr)
    requires Shape(v) && p in v.cells && v.cells[p].kids == [] && Reach(v, p, c)
    ensures c == p
  {
  }

  lemma TwoChanges(u: World, z: World, v: World, h: Handle)
    requires Inv(u) && Inv(z) && Inv(v) && Changed(u, z, h) && Changed(z, v, h) && h in u.handles && h in z.handles
    requires z.handles[h] == u.handles[h] && u.handles[h] in u.cells && u.cells[u.handles[h]].refCount == 1
    ensures Changed(u, v, h)
  {
    hide Labelled, Owned, Counted;
    ChangedTrans(u, z, v, h);
  }

  lemma SamePointer(z: World, v: World, h: Handle, k: Handle)
    requires Changed(z, v, h) && k in z.handles && k in v.handles && k != h
    ensures v.handles[k] == z.handles[k]
  {
  }

  lemma LossChanged(w: World, a: World, u: World, v: World, h: Handle)
    requires Shape(w) && h in w.handles && Changed(a, u, h) && Losing(w, u, v, h, {})
    ensures Changed(a, v, h)
  {
    ShrunkKeeps(a, u, v, h);
  }

  /** The last item of h's data is newer than w and holds nothing. */
  ghost predicate HasLeaf(w: World, v: World, h: Handle) {
    && h in v.handles && v.handles[h] in v.cells && |v.cells[v.handles[h]].kids| > 0
    && NewLeaf(w, v, v.cells[v.handles[h]].kids[|v.cells[v.handles[h]].kids| - 1])
  }

  lemma LeafAtEnd(w: World, v: World, h: Handle)
    requires HasLeaf(w, v, h)
    ensures h in v.handles && v.handles[h] in v.cells && |v.cells[v.handles[h]].kids| > 0
    ensures NewLeaf(w, v, v.cells[v.handles[h]].kids[|v.cells[v.handles[h]].kids| - 1])
  {
  }

  lemma LeafStays(w: World, u: World, v: World, h: Handle, x: Handle, k: Handle)
    requires Inv(u) && Inv(v) && Changed(u, v, h) && NewLeaf(w, u, x) && h in u.handles && x in u.handles && x != h
    requires k in v.handles && v.handles[k] == u.handles[x]
    ensures NewLeaf(w, v, k)
  {
    NotPrivate(u, h, x);
    PointsToData(v, k);
  }

  lemma MoreLeaves(w: World, u: World, v: World, h: Handle, x: Handle, k: Handle)
    requires Inv(w) && Inv(u) && Inv(v) && h in w.handles && h in u.handles && h in v.handles && Inside(w, u, h)
    requires Changed(u, v, h) && v.handles[h] == u.handles[h] && u.handles[h] in u.cells && v.handles[h] in v.cells
    requires v.cells[v.handles[h]].kids == u.cells[u.handles[h]].kids + [k]
    requires x in u.handles && x != h && NewLeaf(w, u, x) && k in v.handles && v.handles[k] == u.handles[x]
    ensures Inside(w, v, h) && HasLeaf(w, v, h)
  {
    hide Closed, Labelled, Owned, Counted, Reach, Changed, Inside, NewLeaf;
    LeafStays(w, u, v, h, x, k);
    InsideKept(w, u, v, h);
  }
}
