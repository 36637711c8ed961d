/** Changes deep inside a value: an operation on an item that was reached through exclusive data is, for everyone else,
    a change of the value it was reached from. */
module Paths {
  import opened Bytes
  import opened Decimal
  import opened JsonValue
  import opened Heap
  import opened HeapSteps
  import opened Isolation
  import opened Changes
  import opened CopyOnWrite
  import opened Rewriting
  import opened Placement
  import opened Operations

  /** The handle y is where it was, with the same data of the same content. */
  ghost predicate Stays(w: World, v: World, y: Handle)
    requires Shape(w) && y in w.handles
  {
    && y in v.handles && v.handles[y] == w.handles[y] && y in v.owner && y in w.owner && v.owner[y] == w.owner[y]
    && w.handles[y] in v.cells && w.handles[y] in v.tag && SameContent(w.cells[w.handles[y]], v.cells[w.handles[y]])
  }

  /** A handle that h does not hold stays, and unless it holds h it sees the same tree. */
  ghost predicate Elsewhere(w: World, v: World, h: Handle, y: Handle)
    requires Shape(w) && Shape(v) && h in w.handles && y in w.handles
  {
    y != h && !Holds(w, h, y) ==> Stays(w, v, y) && (!Holds(w, y, h) ==> v.tag[v.handles[y]] == w.tag[w.handles[y]])
  }

  /** The frame of a change in h or in what it holds. */
  ghost predicate InPlace(w: World, v: World, h: Handle) {
    && h in w.handles && h in v.handles && h in w.owner && h in v.owner && v.owner[h] == w.owner[h] && Stack(v) == Stack(w)
  }

  /** Only h and what it holds changed. */
  ghost predicate Local(w: World, v: World, h: Handle)
    requires Shape(w) && Shape(v)
  {
    InPlace(w, v, h) && forall y :: y in w.handles ==> Elsewhere(w, v, h, y)
  }

  lemma DoneStays(w: World, v: World, h: Handle, y: Handle)
    requires Inv(w) && Inv(v) && Done(w, v, h) && h in w.handles && y in w.handles && y != h && !Holds(w, h, y)
    ensures Stays(w, v, y) && (!Holds(w, y, h) ==> v.tag[v.handles[y]] == w.tag[w.handles[y]])
  {
    hide Labelled, Counted, Reach, Stack, Isolated, Changed;
    if w.owner[y].Some? {
      var j := SlotOf(w, y);
      ReachSelf(w, w.handles[h]);
      ContentStays(w, v, h, w.owner[y].value);
      assert v.cells[w.owner[y].value].kids[j] == y;
    } else {
      SameStack(w, v, y);
    }
    SameData(w, v, h, y);
    PointsToData(w, y);
    PointsToData(v, y);
    if !Holds(w, y, h) {
      Untouched(w, v, h, y);
    }
  }

  lemma SameStack(w: World, v: World, y: Handle)
    requires Roots(w, y) && Stack(v) == Stack(w)
    ensures Roots(v, y)
  {
    assert y in Stack(w);
  }

  lemma ContentStays(w: World, v: World, h: Handle, c: Ptr)
    requires Changed(w, v, h) && h in w.handles && c in w.cells && c in v.cells && c != w.handles[h]
    ensures SameContent(w.cells[c], v.cells[c])
  {
  }

  lemma DoneIsLocal(w: World, v: World, h: Handle)
    requires Inv(w) && Inv(v) && Done(w, v, h)
    ensures Local(w, v, h)
  {
    DoneParts(w, v, h);
    hide Closed, Labelled, Owned, Counted, Reach, Changed, Stack, Done, Stays, Holds, InPlace;
    forall y | y in w.handles ensures Elsewhere(w, v, h, y) {
      if y != h && !Holds(w, h, y) {
        DoneStays(w, v, h, y);
      }
    }
  }

  lemma DoneParts(w: World, v: World, h: Handle)
    requires Inv(w) && Inv(v) && Done(w, v, h)
    ensures h in w.handles && InPlace(w, v, h)
  {
    hide Isolated, Changed, Spares, Inv;
  }

  // ----- one step down

  /** h's data is exclusive, holds what it held, and k is its i-th item. */
  ghost predicate StepIn(w: World, u: World, h: Handle, i: nat, k: Handle)
    requires Shape(w) && Shape(u)
  {
    && Open(w, u, h, {}) && Inside(w, u, h) && i < |u.cells[u.handles[h]].kids| && u.cells[u.handles[h]].kids[i] == k
  }

  lemma StepParts(w: World, u: World, h: Handle, i: nat, k: Handle)
    requires Inv(w) && Inv(u) && StepIn(w, u, h, i, k)
    ensures h in w.handles && h in u.handles && h in w.owner && h in u.owner && u.owner[h] == w.owner[h] && Stack(u) == Stack(w)
    ensures u.handles[h] in u.cells && u.cells[u.handles[h]].refCount == 1 && i < |u.cells[u.handles[h]].kids|
    ensures u.cells[u.handles[h]].kids[i] == k && k in u.handles && k in u.owner && u.owner[k] == Some(u.handles[h])
    ensures u.handles[k] in u.cells && k != h && !Holds(u, k, h) && Done(w, u, h)
    ensures u.handles[h] in w.cells ==> u.handles[h] == w.handles[h]
  {
    hide Closed, Labelled, Owned, Counted, Reach, Changed, Stack, Done;
    KidOwner(u, u.handles[h], i);
    NotHeld(u, h, i);
    OpenIsDone(w, u, h);
  }

  /** Handles outside h are outside the item, too. */
  lemma OutsideItem(w: World, u: World, h: Handle, i: nat, k: Handle, y: Handle)
    requires Inv(w) && Inv(u) && StepIn(w, u, h, i, k) && h in w.handles && y in w.handles && y != h && !Holds(w, h, y)
    ensures k in u.handles && y in u.handles && Stays(w, u, y) && y != k && !Holds(u, k, y)
    ensures !Holds(w, y, h) ==> u.tag[u.handles[y]] == w.tag[w.handles[y]] && !Holds(u, y, k)
  {
    StepParts(w, u, h, i, k);
    DoneStays(w, u, h, y);
    OwnerIsData(w, y);
    PointsToData(w, h);
    hide Closed, Labelled, Owned, Counted, Reach, Changed, Stack, Done, Open;
    var p := u.handles[h];
    if y == k {
      ReachSelf(w, w.handles[h]);
    }
    if Holds(u, k, y) {
      StepAndReach(u, p, i, u.owner[y].value);
    }
    if !Holds(w, y, h) && Holds(u, y, k) {
      if !Holds(u, y, h) {
        OutOfReach(u, h, y);
      }
      DoneChanged(w, u, h);
      HeldBefore(w, u, h, y);
    }
  }

  lemma DoneChanged(w: World, v: World, h: Handle)
    requires Inv(w) && Inv(v) && Done(w, v, h)
    ensures Changed(w, v, h)
  {
    hide Isolated, Changed, Spares, Inv;
  }

  /** A change of an item of h, reached through exclusive data, is a change of h, and h sees its item anew. */
  lemma LocalIn(w: World, u: World, v: World, h: Handle, i: nat, k: Handle)
    requires Inv(w) && Inv(u) && Inv(v) && StepIn(w, u, h, i, k) && Local(u, v, k)
    ensures Local(w, v, h)
    ensures u.handles[h] in u.tag && h in v.handles && v.handles[h] in v.tag && k in v.handles && v.handles[k] in v.tag
    ensures i < |u.tag[u.handles[h]].kids|
    ensures var t := u.tag[u.handles[h]]; v.tag[v.handles[h]] == Tree(t.head, t.kids[i := v.tag[v.handles[k]]])
  {
    hide Closed, Labelled, Owned, Counted, Reach, Changed, Stack, Done, StepIn, Elsewhere, Holds;
    StepParts(w, u, h, i, k);
    ParentStays(u, v, h, i, k);
    forall y | y in w.handles ensures Elsewhere(w, v, h, y) {
      Outside(w, u, v, h, i, k, y);
    }
  }

  lemma Outside(w: World, u: World, v: World, h: Handle, i: nat, k: Handle, y: Handle)
    requires Inv(w) && Inv(u) && Inv(v) && StepIn(w, u, h, i, k) && k in u.handles && y in w.handles && h in w.handles
    requires y in u.handles ==> Elsewhere(u, v, k, y)
    ensures Elsewhere(w, v, h, y)
  {
    hide Closed, Labelled, Owned, Counted, Reach, Changed, Stack, Done, StepIn, Holds;
    if y != h && !Holds(w, h, y) {
      OutsideItem(w, u, h, i, k, y);
    }
  }

  lemma ParentStays(u: World, v: World, h: Handle, i: nat, k: Handle)
    requires Inv(u) && Inv(v) && h in u.handles && u.handles[h] in u.cells && k in u.handles && k != h && !Holds(u, k, h)
    requires i < |u.cells[u.handles[h]].kids| && u.cells[u.handles[h]].kids[i] == k && Local(u, v, k)
    ensures Stays(u, v, h) && u.handles[h] in u.tag && k in v.handles && v.handles[k] in v.tag
    ensures i < |u.tag[u.handles[h]].kids|
    ensures var t := u.tag[u.handles[h]]; v.tag[v.handles[h]] == Tree(t.head, t.kids[i := v.tag[v.handles[k]]])
  {
    hide Closed, Labelled, Owned, Counted, Reach, Stack;
    Shown(u, h);
    Shown(v, h);
    Shown(v, k);
    DistinctKids(u, h);
    var kids := u.cells[u.handles[h]].kids;
    forall j | 0 <= j < |kids| && j != i
      ensures kids[j] in v.handles && v.handles[kids[j]] in v.tag
      ensures kids[j] in u.handles && u.handles[kids[j]] in u.tag && v.tag[v.handles[kids[j]]] == u.tag[u.handles[kids[j]]]
    {
      KidOwner(u, u.handles[h], j);
      KidOwner(u, u.handles[h], i);
      NoCycle(u, u.handles[h], j);
      NoCycle(u, u.handles[h], i);
      assert Elsewhere(u, v, k, kids[j]);
      Shown(u, kids[j]);
      Shown(v, kids[j]);
    }
    assert KidLabels(v, kids) == KidLabels(u, kids)[i := v.tag[v.handles[k]]];
  }
}
