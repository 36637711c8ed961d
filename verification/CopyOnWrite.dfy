/** The step that makes data exclusive: a shared array or map is copied, its items are not. */
module CopyOnWrite {
  import opened Bytes
  import opened Decimal
  import opened JsonValue
  import opened Heap
  import opened HeapSteps
  import opened Isolation
  import opened Changes
  import opened TreeOps

  /** The copy constructor ran once for each handle in kids, in order. */
  ghost predicate Copies(u: World, v: World, kids: seq<Handle>) {
    && v.tag == u.tag && v.next == u.next + |kids| && MoreCounts(u.cells, v.cells)
    && (forall x :: x in u.handles ==> x in v.handles && v.handles[x] == u.handles[x])
    && (forall x :: x in u.owner ==> x in v.owner && v.owner[x] == u.owner[x])
    && (forall i :: 0 <= i < |kids| ==> CopyAt(u, v, kids[i], u.next + i))
  }

  /** The same data with the same content, some of it with more handles. */
  ghost predicate MoreCounts(a: map<Ptr, Cell>, b: map<Ptr, Cell>) {
    b.Keys == a.Keys && forall p :: p in a ==> SameContent(a[p], b[p]) && b[p].refCount >= a[p].refCount
  }

  lemma OneMoreCount(a: map<Ptr, Cell>, b: map<Ptr, Cell>, p: Ptr)
    requires MoreCounts(a, b) && p in b
    ensures MoreCounts(a, b[p := b[p].(refCount := b[p].refCount + 1)])
  {
  }

  /** x is a new handle on the stack with the data of k. */
  ghost predicate CopyAt(u: World, v: World, k: Handle, x: Handle) {
    k in u.handles && x in v.handles && v.handles[x] == u.handles[k] && x in v.owner && v.owner[x] == None
  }

  predicate SameContent(a: Cell, b: Cell) {
    a.head == b.head && a.kids == b.kids
  }

  /** The handles first, first + 1, ... */
  function From(first: Handle, n: nat): (ks: seq<Handle>)
    ensures |ks| == n && forall i :: 0 <= i < n ==> ks[i] == first + i
  {
    seq(n, i requires 0 <= i => first + i)
  }

  lemma NoCopies(u: World)
    requires Inv(u)
    ensures Copies(u, u, []) && Stack(u) == Stack(u) + Elements(From(u.next, 0))
  {
    hide Labelled, Owned, Counted;
  }

  lemma CopyStep(w: World, u: World, v: World, kids: seq<Handle>, k: Handle, h: Handle)
    requires Closed(w) && Inv(u) && Inv(v) && Copies(u, v, kids) && Changed(w, v, h) && k in u.handles
    requires Stack(v) == Stack(u) + Elements(From(u.next, |kids|))
    ensures k in v.handles && v.handles[k] in v.cells
    ensures Copies(u, ShareW(v, v.handles[k]), kids + [k]) && Changed(w, ShareW(v, v.handles[k]), h)
    ensures Stack(ShareW(v, v.handles[k])) == Stack(u) + Elements(From(u.next, |kids| + 1))
  {
    hide Closed, Labelled, Owned, Counted, Copies, Changed, Stack, ShareW;
    CopiesDomain(u, v, kids, k);
    CopiesMore(u, v, kids, k);
    ShareKeeps(w, v, v.handles[k], h);
    ShareStack(v, v.handles[k]);
    assert From(u.next, |kids| + 1) == From(u.next, |kids|) + [v.next];
  }

  lemma CopiesDomain(u: World, v: World, kids: seq<Handle>, k: Handle)
    requires Closed(u) && Copies(u, v, kids) && k in u.handles
    ensures v.next == u.next + |kids|
    ensures k in v.handles && v.handles[k] == u.handles[k] && v.handles[k] in v.cells && u.handles[k] in u.cells
  {
  }

  lemma CopiesMore(u: World, v: World, kids: seq<Handle>, k: Handle)
    requires Closed(v) && Copies(u, v, kids) && k in u.handles && u.handles[k] in u.cells && u.handles[k] in v.cells
    ensures Copies(u, ShareW(v, u.handles[k]), kids + [k])
  {
    ShareParts(v, u.handles[k]);
    OldHandles(v);
    OneMoreCount(u.cells, v.cells, u.handles[k]);
    hide ShareW, Closed, Copies;
    CopiesExtend(u, v, ShareW(v, u.handles[k]), kids, k);
  }

  lemma CopiesExtend(u: World, v: World, z: World, kids: seq<Handle>, k: Handle)
    requires Copies(u, v, kids) && k in u.handles && v.next !in v.handles && v.next !in v.owner
    requires z.handles == v.handles[v.next := u.handles[k]] && z.owner == v.owner[v.next := None]
    requires z.tag == v.tag && z.next == v.next + 1 && MoreCounts(u.cells, z.cells)
    ensures Copies(u, z, kids + [k])
  {
    hide MoreCounts, CopyAt;
    var more := kids + [k];
    forall i | 0 <= i < |more| ensures CopyAt(u, z, more[i], u.next + i) {
      StillCopies(u, v, z, kids, k, i);
    }
  }

  lemma StillCopies(u: World, v: World, z: World, kids: seq<Handle>, k: Handle, i: nat)
    requires Copies(u, v, kids) && k in u.handles && i <= |kids| && v.next !in v.handles
    requires z.handles == v.handles[v.next := u.handles[k]] && z.owner == v.owner[v.next := None]
    ensures CopyAt(u, z, (kids + [k])[i], u.next + i)
  {
    if i < |kids| {
      assert CopyAt(u, v, kids[i], u.next + i);
    }
  }

  lemma OldHandles(v: World)
    requires Closed(v)
    ensures v.next !in v.handles && v.next !in v.owner
  {
  }

  /** h may be changed: it is the only handle of its data, which holds the items h held when w was current. */
  ghost predicate Opened(w: World, v: World, h: Handle)
    requires Shape(w) && Shape(v)
  {
    && Mutated(w, v, h) && v.handles[h] in v.cells && v.cells[v.handles[h]].refCount == 1
    && (Private(w, h, v.handles[h]) || v.handles[h] !in w.cells)
    && (forall c :: c in w.cells ==> c in v.cells)
    && (forall x :: x in w.handles ==> x in v.handles)
    && Inside(w, v, h)
  }

  /** What h reaches now it reached before. */
  ghost predicate Inside(w: World, v: World, h: Handle)
    requires Shape(w) && Shape(v) && h in w.handles && h in v.handles
  {
    forall c :: c in w.cells && Reach(v, v.handles[h], c) ==> Reach(w, w.handles[h], c)
  }

  const EMPTY := Head(TInvalid, 0, [], None, [])

  /** g is a new handle of data that is not in w; nothing else changed but counts. */
  ghost predicate CloneFrame(w: World, v: World, h: Handle, g: Handle) {
    && Roots(v, g) && g !in w.handles && Stack(v) == Stack(w) + {g} && Changed(w, v, h)
    && v.handles[g] !in w.cells && v.handles[g] in v.cells && v.handles[g] in v.tag
    && (forall x :: x in w.handles ==> x in v.handles && v.handles[x] == w.handles[x])
    && (forall x :: x in w.owner ==> x in v.owner && v.owner[x] == w.owner[x])
    && (forall c :: c in w.cells ==> (
          c in v.cells && SameContent(w.cells[c], v.cells[c]) && v.cells[c].refCount >= w.cells[c].refCount))
  }

  /** The new data is a clone of h's. */
  ghost predicate CloneContent(w: World, v: World, h: Handle, g: Handle)
    requires h in w.handles && w.handles[h] in w.cells && w.handles[h] in w.tag
    requires g in v.handles && v.handles[g] in v.cells && v.handles[g] in v.tag
  {
    var o, cell := w.handles[h], v.cells[v.handles[g]];
    && cell.refCount == 1 && |cell.kids| == |w.cells[o].kids|
    && (forall i :: 0 <= i < |cell.kids| ==> (
          cell.kids[i] in v.handles && w.cells[o].kids[i] in w.handles
          && v.handles[cell.kids[i]] == w.handles[w.cells[o].kids[i]]))
    && v.tag[v.handles[g]] == Tree(ClonedHead(w.cells[o].head), w.tag[o].kids)
  }

  ghost predicate ClonedTo(w: World, v: World, h: Handle, g: Handle)
    requires h in w.handles && w.handles[h] in w.cells && w.handles[h] in w.tag
  {
    CloneFrame(w, v, h, g) && CloneContent(w, v, h, g)
  }

  // ----- the clone of h's data, step by step

  /** A change through h gives a handle that does not hold h nothing new to reach. */
  lemma {:induction false} ReachKept(w: World, v: World, h: Handle, x: Handle, c: Ptr)
    requires Inv(w) && Inv(v) && Changed(w, v, h) && h in w.handles
    requires x in w.handles && x in v.handles && x != h && !Holds(w, x, h) && Reach(v, v.handles[x], c)
    ensures Reach(w, w.handles[x], c)
    decreases v.tag[v.handles[x]]
  {
    hide Counted, Changed, Reach, Owned, Labelled;
    SameData(w, v, h, x);
    var p := w.handles[x];
    ReachSelf(w, p);
    if p != c {
      var i, y := FirstStep(v, p, c);
      KidOwner(w, p, i);
      if Holds(w, y, h) {
        StepAndReach(w, p, i, w.owner[h].value);
      }
      ReachKept(w, v, h, y, c);
      StepAndReach(w, p, i, c);
    }
  }

  lemma KidOwner(w: World, p: Ptr, i: nat)
    requires Inv(w) && p in w.cells && i < |w.cells[p].kids|
    ensures w.cells[p].kids[i] in w.handles && w.cells[p].kids[i] in w.owner && w.owner[w.cells[p].kids[i]] == Some(p)
    ensures w.handles[w.cells[p].kids[i]] in w.cells
  {
    hide Labelled, Counted;
  }

  /** The place of a handle that lies in data. */
  lemma SlotOf(w: World, h: Handle) returns (j: nat)
    requires Inv(w) && h in w.handles && w.owner[h].Some?
    ensures w.owner[h].value in w.cells && j < |w.cells[w.owner[h].value].kids| && w.cells[w.owner[h].value].kids[j] == h
    ensures !Reach(w, w.handles[h], w.owner[h].value)
  {
    hide Labelled, Counted, Reach;
    j :| 0 <= j < |w.cells[w.owner[h].value].kids| && w.cells[w.owner[h].value].kids[j] == h;
    NoCycle(w, w.owner[h].value, j);
  }

  lemma AdoptCopies(w: World, g: Handle, first: Handle, n: nat)
    requires Inv(w) && Roots(w, g) && w.cells[w.handles[g]].refCount == 1 && g >= first + n
    requires forall x :: first <= x < first + n ==> Roots(w, x)
    ensures MayAdopt(w, w.handles[g], From(first, n))
  {
    hide Labelled, Counted, Reach;
    var ks := From(first, n);
    forall i | 0 <= i < n
      ensures ks[i] in w.handles && w.handles[ks[i]] in w.cells && w.owner[ks[i]] == None
      ensures !Reach(w, w.handles[ks[i]], w.handles[g])
    {
      assert Roots(w, first + i);
      OutOfReach(w, g, first + i);
    }
  }

  /** Pointing h at a copy of its data closes no cycle. */
  lemma PointAtCopy(w: World, h: Handle, p: Ptr)
    requires Inv(w) && h in w.handles && p in w.cells && p != w.handles[h] && w.cells[w.handles[h]].refCount > 1
    requires w.owner[h] != Some(p) && |w.cells[p].kids| == |w.cells[w.handles[h]].kids|
    requires forall i :: 0 <= i < |w.cells[p].kids| ==>
      w.handles[w.cells[p].kids[i]] == w.handles[w.cells[w.handles[h]].kids[i]]
    ensures MayPoint(w, h, p)
  {
    hide Labelled, Counted, Reach;
    if w.owner[h].Some? {
      var q := w.owner[h].value;
      var j := SlotOf(w, h);
      if Reach(w, p, q) {
        var i, y := FirstStep(w, p, q);
        KidOwner(w, w.handles[h], i);
        StepAndReach(w, w.handles[h], i, q);
      }
    }
  }

  lemma ClonedInside(w: World, v: World, h: Handle)
    requires Inv(w) && Inv(v) && Changed(w, v, h) && h in w.handles && h in v.handles && v.handles[h] !in w.cells
    requires w.handles[h] in w.cells && v.handles[h] in v.cells
    requires forall x :: x in w.handles ==> x in v.handles
    requires |v.cells[v.handles[h]].kids| == |w.cells[w.handles[h]].kids|
    requires forall i :: 0 <= i < |w.cells[w.handles[h]].kids| ==> (
      w.cells[w.handles[h]].kids[i] in w.handles && v.cells[v.handles[h]].kids[i] in v.handles
      && v.handles[v.cells[v.handles[h]].kids[i]] == w.handles[w.cells[w.handles[h]].kids[i]])
    ensures Inside(w, v, h)
  {
    var p, o := v.handles[h], w.handles[h];
    hide Counted, Changed, Reach, Owned, Labelled;
    forall c | c in w.cells && Reach(v, p, c) ensures Reach(w, o, c) {
      var i, y := FirstStep(v, p, c);
      var k := w.cells[o].kids[i];
      KidOwner(w, o, i);
      NotHeld(w, h, i);
      SameData(w, v, h, k);
      ReachKept(w, v, h, k, c);
      StepAndReach(w, o, i, c);
    }
  }

  /** The handles in h's data are not h, and do not hold it. */
  lemma NotHeld(w: World, h: Handle, i: nat)
    requires Inv(w) && h in w.handles && w.handles[h] in w.cells && i < |w.cells[w.handles[h]].kids|
    requires w.cells[w.handles[h]].kids[i] in w.handles
    ensures w.cells[w.handles[h]].kids[i] != h && !Holds(w, w.cells[w.handles[h]].kids[i], h)
  {
    hide Labelled, Counted, Reach;
    KidOwner(w, w.handles[h], i);
    if w.owner[h].Some? {
      var j := SlotOf(w, h);
      if Holds(w, w.cells[w.handles[h]].kids[i], h) {
        StepAndReach(w, w.handles[h], i, w.owner[h].value);
      }
    }
    if w.cells[w.handles[h]].kids[i] == h {
      ReachSelf(w, w.handles[h]);
    }
  }

  // ----- the two halves of AllocExclusive

  lemma KidsAreHandles(w: World, h: Handle)
    requires Inv(w) && h in w.handles
    ensures w.handles[h] in w.cells && w.handles[h] in w.tag
    ensures forall i :: 0 <= i < |w.cells[w.handles[h]].kids| ==> w.cells[w.handles[h]].kids[i] in w.handles
    ensures w.cells[w.handles[h]].refCount >= 1 && w.tag[w.handles[h]].head == w.cells[w.handles[h]].head
  {
    hide Owned;
  }

  lemma CloneAdopts(w: World, u: World, h: Handle)
    requires Inv(w) && Inv(u) && h in w.handles && w.handles[h] in w.cells && Copies(w, u, w.cells[w.handles[h]].kids)
    requires Inv(FreshW(u, EMPTY))
    ensures MayAdopt(FreshW(u, EMPTY), u.next, From(w.next, |w.cells[w.handles[h]].kids|))
  {
    hide Labelled, Counted, Reach, Owned, MayAdopt;
    var n, v := |w.cells[w.handles[h]].kids|, FreshW(u, EMPTY);
    forall x | w.next <= x < w.next + n ensures Roots(v, x) {
      assert CopyAt(w, u, w.cells[w.handles[h]].kids[x - w.next], w.next + (x - w.next));
    }
    assert v.handles[u.next] == u.next && v.cells[u.next].refCount == 1 && Roots(v, u.next);
    AdoptCopies(v, u.next, w.next, n);
  }

  lemma StillUnused(w: World, u: World, kids: seq<Handle>)
    requires Closed(w) && Copies(w, u, kids)
    ensures u.next !in w.handles && u.next !in w.cells && u.next !in w.owner && u.next == w.next + |kids|
    ensures forall i :: 0 <= i < |kids| ==> From(w.next, |kids|)[i] !in w.handles
  {
  }

  lemma CloneStack(w: World, u: World, kids: seq<Handle>, head: Head)
    requires Inv(w) && Inv(u) && Copies(w, u, kids) && Inv(FreshW(u, EMPTY))
    requires Stack(u) == Stack(w) + Elements(From(w.next, |kids|))
    requires MayAdopt(FreshW(u, EMPTY), u.next, From(w.next, |kids|))
    ensures Stack(EditW(FreshW(u, EMPTY), u.next, head, From(w.next, |kids|))) == Stack(w) + {u.next}
  {
    hide Closed, Labelled, Counted, Owned, MayAdopt, EditW, FreshW, Stack, Copies;
    var ks, f := From(w.next, |kids|), FreshW(u, EMPTY);
    NoKids(u);
    OnlyHandles(w);
    StillUnused(w, u, kids);
    FreshStack(u, EMPTY);
    EditStack(f, u.next, head, ks);
    assert Elements([]) == {};
    assert Elements(ks) !! Stack(w);
    assert u.next !in Elements(ks);
  }

  lemma NoKids(u: World)
    ensures u.next in FreshW(u, EMPTY).cells && FreshW(u, EMPTY).cells[u.next].kids == []
  {
  }

  lemma OnlyHandles(w: World)
    ensures Stack(w) <= w.handles.Keys
  {
  }

  lemma CloneChanged(w: World, u: World, ks: seq<Handle>, head: Head, h: Handle)
    requires Inv(w) && Inv(FreshW(u, EMPTY)) && Changed(w, u, h) && u.next !in w.cells
    requires MayAdopt(FreshW(u, EMPTY), u.next, ks)
    ensures Changed(w, EditW(FreshW(u, EMPTY), u.next, head, ks), h)
  {
    hide Labelled, Counted, Owned, MayAdopt, Changed, FreshW, EditW;
    FreshKeeps(w, u, EMPTY, h);
    EditKeeps(w, FreshW(u, EMPTY), u.next, head, ks, h);
  }

  lemma CopyLabel(w: World, u: World, kids: seq<Handle>, i: nat)
    requires Closed(w) && Closed(u) && Copies(w, u, kids) && i < |kids|
    ensures kids[i] in w.handles && w.handles[kids[i]] in w.tag
    ensures w.next + i in FreshW(u, EMPTY).handles && FreshW(u, EMPTY).handles[w.next + i] in FreshW(u, EMPTY).tag
    ensures FreshW(u, EMPTY).tag[FreshW(u, EMPTY).handles[w.next + i]] == w.tag[w.handles[kids[i]]]
  {
    assert CopyAt(w, u, kids[i], w.next + i);
  }

  lemma CloneLabels(w: World, u: World, h: Handle)
    requires Inv(w) && Inv(u) && h in w.handles && w.handles[h] in w.cells && Copies(w, u, w.cells[w.handles[h]].kids)
    requires Inv(FreshW(u, EMPTY))
    ensures var ks := From(w.next, |w.cells[w.handles[h]].kids|);
      && (forall i :: 0 <= i < |ks| ==> ks[i] in FreshW(u, EMPTY).handles)
      && KidLabels(FreshW(u, EMPTY), ks) == w.tag[w.handles[h]].kids
  {
    hide Counted, Owned;
    var kids := w.cells[w.handles[h]].kids;
    var f, ks := FreshW(u, EMPTY), From(w.next, |kids|);
    StillUnused(w, u, kids);
    hide Closed, Copies;
    forall i | 0 <= i < |kids| ensures ks[i] in f.handles && f.tag[f.handles[ks[i]]] == KidLabels(w, kids)[i] {
      CopyLabel(w, u, kids, i);
    }
    assert KidLabels(f, ks) == KidLabels(w, kids);
  }

  lemma CloneOwners(w: World, u: World, ks: seq<Handle>, head: Head)
    requires Inv(w) && Shape(FreshW(u, EMPTY)) && MayAdopt(FreshW(u, EMPTY), u.next, ks)
    requires u.next !in w.cells && u.next !in w.handles && u.next !in ks
    requires forall i :: 0 <= i < |ks| ==> ks[i] !in w.handles
    requires forall x :: x in w.owner ==> x in u.owner && u.owner[x] == w.owner[x]
    ensures var v := EditW(FreshW(u, EMPTY), u.next, head, ks);
      u.next in v.owner && v.owner[u.next] == None && forall x :: x in w.owner ==> x in v.owner && v.owner[x] == w.owner[x]
  {
    hide Labelled, Counted, MayAdopt, Retag;
  }

  lemma CloneCells(w: World, u: World, kids: seq<Handle>, ks: seq<Handle>, head: Head)
    requires Inv(w) && Inv(u) && Copies(w, u, kids) && u.next !in w.cells
    requires Shape(FreshW(u, EMPTY)) && MayAdopt(FreshW(u, EMPTY), u.next, ks)
    ensures var v := EditW(FreshW(u, EMPTY), u.next, head, ks);
      && v.handles == u.handles[u.next := u.next] && u.next in v.cells && v.cells[u.next] == Cell(1, head, ks)
      && u.next in v.tag
      && forall c :: c in w.cells ==> (
          c in v.cells && SameContent(w.cells[c], v.cells[c]) && v.cells[c].refCount >= w.cells[c].refCount)
  {
    hide Labelled, Counted, Owned, MayAdopt, Retag;
  }

  lemma CloneIsDone(w: World, u: World, h: Handle)
    requires Inv(w) && Inv(u) && h in w.handles && w.handles[h] in w.cells && w.handles[h] in w.tag
    requires Copies(w, u, w.cells[w.handles[h]].kids) && Changed(w, u, h)
    requires Stack(u) == Stack(w) + Elements(From(w.next, |w.cells[w.handles[h]].kids|))
    requires Inv(FreshW(u, EMPTY))
    requires MayAdopt(FreshW(u, EMPTY), u.next, From(w.next, |w.cells[w.handles[h]].kids|))
    ensures var ks := From(w.next, |w.cells[w.handles[h]].kids|);
      var v := EditW(FreshW(u, EMPTY), u.next, ClonedHead(w.cells[w.handles[h]].head), ks);
      ClonedTo(w, v, h, u.next)
  {
    hide Labelled, Counted, Owned, MayAdopt, Retag, FreshW, EditW, Changed, Stack;
    var cell := w.cells[w.handles[h]];
    var ks, head := From(w.next, |cell.kids|), ClonedHead(cell.head);
    StillUnused(w, u, cell.kids);
    CloneStack(w, u, cell.kids, head);
    CloneChanged(w, u, ks, head, h);
    CloneLabels(w, u, h);
    CloneOwners(w, u, ks, head);
    CloneCells(w, u, cell.kids, ks, head);
    EditInv(FreshW(u, EMPTY), u.next, head, ks);
    KidsAreHandles(w, h);
    hide Closed, Copies;
    CloneIsContent(w, u, h, EditW(FreshW(u, EMPTY), u.next, head, ks));
    CloneIsFrame(w, u, h, EditW(FreshW(u, EMPTY), u.next, head, ks));
  }

  lemma CloneIsContent(w: World, u: World, h: Handle, v: World)
    requires Closed(w) && h in w.handles && w.handles[h] in w.cells && w.handles[h] in w.tag && u.next !in w.handles
    requires Copies(w, u, w.cells[w.handles[h]].kids)
    requires v.handles == u.handles[u.next := u.next] && u.next in v.cells && u.next in v.tag
    requires v.cells[u.next] == Cell(1, ClonedHead(w.cells[w.handles[h]].head), From(w.next, |w.cells[w.handles[h]].kids|))
    requires v.tag[u.next] == Tree(ClonedHead(w.cells[w.handles[h]].head), w.tag[w.handles[h]].kids)
    ensures u.next in v.handles && v.handles[u.next] == u.next && CloneContent(w, v, h, u.next)
  {
    hide Closed;
    var kids := w.cells[w.handles[h]].kids;
    var ks := v.cells[u.next].kids;
    forall i | 0 <= i < |ks| ensures ks[i] in v.handles && kids[i] in w.handles && v.handles[ks[i]] == w.handles[kids[i]] {
      assert ks[i] == w.next + i;
      assert CopyAt(w, u, kids[i], w.next + i);
    }
  }

  lemma CloneIsFrame(w: World, u: World, h: Handle, v: World)
    requires Closed(w) && u.next !in w.handles && u.next !in w.cells
    requires forall x :: x in w.handles ==> x in u.handles && u.handles[x] == w.handles[x]
    requires v.handles == u.handles[u.next := u.next] && u.next in v.cells && u.next in v.tag
    requires u.next in v.owner && v.owner[u.next] == None && Stack(v) == Stack(w) + {u.next} && Changed(w, v, h)
    requires forall x :: x in w.owner ==> x in v.owner && v.owner[x] == w.owner[x]
    requires forall c :: c in w.cells ==> (
      c in v.cells && SameContent(w.cells[c], v.cells[c]) && v.cells[c].refCount >= w.cells[c].refCount)
    ensures CloneFrame(w, v, h, u.next)
  {
    hide Closed, Changed, Stack;
  }

  lemma NewHandle(u: World)
    ensures u.next in FreshW(u, EMPTY).handles && FreshW(u, EMPTY).handles[u.next] == u.next
    ensures FreshW(u, EMPTY).next == u.next + 1
  {
  }

  lemma AlreadyOpen(w: World, h: Handle)
    requires Inv(w) && h in w.handles && w.handles[h] in w.cells && w.cells[w.handles[h]].refCount == 1
    ensures Opened(w, w, h)
  {
    hide Labelled, Owned, Counted, Reach;
  }

  lemma ClonePoints(w: World, u: World, h: Handle, g: Handle)
    requires Inv(w) && Inv(u) && h in w.handles && w.handles[h] in w.cells && w.handles[h] in w.tag
    requires w.cells[w.handles[h]].refCount > 1 && ClonedTo(w, u, h, g)
    ensures g in u.handles && g in u.owner && h in u.handles && u.handles[g] in u.cells && u.handles[h] == w.handles[h]
    ensures MayPoint(u, h, u.handles[g]) && u.cells[u.handles[g]].refCount == 1
    ensures u.tag[u.handles[g]] == Tree(ClonedHead(w.cells[w.handles[h]].head), w.tag[w.handles[h]].kids)
  {
    hide Labelled, Counted, Reach, MayPoint, Changed, Stack;
    assert w.owner[h].Some? ==> w.owner[h].value in w.cells;
    PointAtCopy(u, h, u.handles[g]);
  }

  lemma CloneDrops(w: World, u: World, h: Handle, g: Handle)
    requires Inv(u) && h in w.handles && w.handles[h] in w.cells && w.handles[h] in w.tag && ClonedTo(w, u, h, g)
    requires g in u.handles && MayPoint(u, h, u.handles[g])
    ensures var v := PointW(u, h, u.handles[g]);
      && Roots(v, g) && v.handles[g] == u.handles[g] && u.handles[g] in v.cells && v.cells[u.handles[g]].refCount == 2
  {
    hide Labelled, Counted, Owned, Closed, Reach, MayPoint, PointW, Changed, Stack;
    PointDomain(u, h, u.handles[g]);
    PointParts(u, h, u.handles[g]);
  }

  lemma DropShared(v: World, g: Handle)
    requires Shape(v) && Roots(v, g) && v.cells[v.handles[g]].refCount == 2
    ensures var z := DropW(v, g);
      && z.handles == v.handles - {g} && z.owner == v.owner - {g} && z.tag == v.tag
      && z.cells == v.cells[v.handles[g] := v.cells[v.handles[g]].(refCount := 1)]
  {
  }

  lemma CloneChange(w: World, u: World, h: Handle, g: Handle)
    requires Inv(w) && Inv(u) && h in w.handles && w.handles[h] in w.cells && w.handles[h] in w.tag
    requires ClonedTo(w, u, h, g) && g in u.handles && MayPoint(u, h, u.handles[g])
    requires Inv(PointW(u, h, u.handles[g])) && Roots(PointW(u, h, u.handles[g]), g)
    requires PointW(u, h, u.handles[g]).cells[PointW(u, h, u.handles[g]).handles[g]].refCount == 2
    ensures var z := DropW(PointW(u, h, u.handles[g]), g); Changed(w, z, h) && Stack(z) == Stack(w)
  {
    OnlyHandles(w);
    hide Labelled, Counted, Owned, Closed, Reach, MayPoint, PointW, DropW, Changed, Stack;
    var v := PointW(u, h, u.handles[g]);
    PointKeeps(w, u, h, u.handles[g]);
    PointStack(u, h, u.handles[g]);
    DropKeeps(w, v, g, h);
    DropStack(v, g);
  }

  lemma CloneOpens(w: World, u: World, h: Handle, g: Handle)
    requires Inv(w) && Inv(u) && h in w.handles && w.handles[h] in w.cells && w.handles[h] in w.tag
    requires ClonedTo(w, u, h, g) && g in u.handles && MayPoint(u, h, u.handles[g])
    requires Inv(PointW(u, h, u.handles[g])) && Roots(PointW(u, h, u.handles[g]), g)
    requires PointW(u, h, u.handles[g]).cells[PointW(u, h, u.handles[g]).handles[g]].refCount == 2
    requires PointW(u, h, u.handles[g]).handles[g] == u.handles[g]
    requires Inv(DropW(PointW(u, h, u.handles[g]), g))
    ensures var v, z := PointW(u, h, u.handles[g]), DropW(PointW(u, h, u.handles[g]), g);
      Opened(w, z, h) && h in z.handles && z.handles[h] == u.handles[g] && z.tag == v.tag
  {
    hide Closed, Labelled, Counted, Owned, Reach, MayPoint, PointW, DropW, Changed, Stack, Opened, ClonedTo, Roots;
    CloneChange(w, u, h, g);
    var p := u.handles[g];
    DropDomain(PointW(u, h, p), g);
    ClonedFacts(w, u, h, g);
    CloneEnds(u, h, g);
    OpenedFrom(w, u, DropW(PointW(u, h, p), g), h, g);
  }

  lemma OpenedFrom(w: World, u: World, z: World, h: Handle, g: Handle)
    requires Inv(w) && Inv(z) && h in w.handles && w.handles[h] in w.cells && w.handles[h] in w.tag
    requires ClonedTo(w, u, h, g) && g in u.handles && Changed(w, z, h) && Stack(z) == Stack(w)
    requires z.handles == u.handles[h := u.handles[g]] - {g} && z.owner == u.owner - {g} && z.cells.Keys == u.cells.Keys
    requires u.handles[g] in u.cells && z.cells[u.handles[g]] == u.cells[u.handles[g]]
    ensures Opened(w, z, h)
  {
    hide Closed, Labelled, Counted, Owned, Reach, Changed, Stack, ClonedTo, Inside;
    ClonedFacts(w, u, h, g);
    CloneReaches(w, u, z, h, g);
  }

  lemma CloneEnds(u: World, h: Handle, g: Handle)
    requires Inv(u) && g in u.handles && MayPoint(u, h, u.handles[g]) && u.cells[u.handles[g]].refCount == 1
    requires g != h && Shape(PointW(u, h, u.handles[g])) && Roots(PointW(u, h, u.handles[g]), g)
    ensures var p := u.handles[g];
      var v, z := PointW(u, h, p), DropW(PointW(u, h, p), g);
      && z.handles == u.handles[h := p] - {g} && z.owner == u.owner - {g} && z.tag == v.tag && z.cells.Keys == u.cells.Keys
      && p in z.cells && z.cells[p] == u.cells[p]
  {
    hide Closed, Labelled, Counted, Owned, Reach, MayPoint, PointW, DropW, Roots;
    PointDomain(u, h, u.handles[g]);
    PointParts(u, h, u.handles[g]);
    DropShared(PointW(u, h, u.handles[g]), g);
  }

  lemma ClonedFacts(w: World, u: World, h: Handle, g: Handle)
    requires Closed(w) && h in w.handles && w.handles[h] in w.cells && w.handles[h] in w.tag && ClonedTo(w, u, h, g)
    ensures g in u.handles && u.handles[g] in u.cells && u.handles[g] !in w.cells && g !in w.handles
    ensures (forall x :: x in w.handles ==> x in u.handles) && (forall c :: c in w.cells ==> c in u.cells)
    ensures h in w.owner && h in u.owner && u.owner[h] == w.owner[h] && u.cells[u.handles[g]].refCount == 1
  {
    hide Changed, Stack;
  }

  lemma CloneReaches(w: World, u: World, z: World, h: Handle, g: Handle)
    requires Inv(w) && Inv(z) && h in w.handles && w.handles[h] in w.cells && w.handles[h] in w.tag
    requires ClonedTo(w, u, h, g) && g in u.handles && u.handles[g] in u.cells
    requires Changed(w, z, h) && h != g && h in z.handles && z.handles == u.handles[h := u.handles[g]] - {g}
    requires u.handles[g] in z.cells && SameContent(u.cells[u.handles[g]], z.cells[u.handles[g]])
    ensures Inside(w, z, h)
  {
    hide Labelled, Counted, Owned, Reach, Changed, Stack;
    var p, o := u.handles[g], w.handles[h];
    assert h != g;
    forall i | 0 <= i < |w.cells[o].kids|
      ensures w.cells[o].kids[i] in w.handles && z.cells[p].kids[i] in z.handles
      ensures z.handles[z.cells[p].kids[i]] == w.handles[w.cells[o].kids[i]]
    {
      KidOwner(w, o, i);
      KidOwner(z, p, i);
      NoCycle(z, p, i);
      ReachSelf(z, p);
    }
    ClonedInside(w, z, h);
  }
}
