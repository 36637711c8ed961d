/** Facts that the operations on values rest on, each about the memory before and after some steps. */
module Operations {
  import opened Bytes
  import opened Decimal
  import opened JsonValue
  import opened Heap
  import opened HeapSteps
  import opened Isolation
  import opened Changes
  import opened CopyOnWrite
  import opened Rewriting
  import opened Placement
  import opened TreeOps

  lemma HereIn(w: World, u: World, h: Handle)
    requires Shape(w) && exists temps :: Open(w, u, h, temps)
    ensures h in w.handles && h in u.handles && u.handles[h] in u.cells && u.cells[u.handles[h]].refCount == 1
  {
  }

  lemma InsideOf(w: World, u: World, h: Handle)
    requires Shape(w) && Shape(u) && Opened(w, u, h)
    ensures h in w.handles && h in u.handles && Inside(w, u, h)
  {
  }

  lemma AllStay(w: World, u: World, h: Handle, x: Handle)
    requires Shape(w) && Shape(u) && Opened(w, u, h) && x in w.handles
    ensures x in u.handles
  {
  }

  lemma FreshEnv(w: World, head: Head)
    requires Inv(w)
    ensures Inv(FreshW(w, head)) && w.next !in w.handles && w.next in FreshW(w, head).handles
    ensures Env(FreshW(w, head)) == Env(w)[w.next := Tree(head, [])]
  {
    FreshFacts(w, head);
    hide FreshW, Env, Stack, Inv, Shape;
    FreshInv(w, head);
    FreshStack(w, head);
    NewInEnv(w, FreshW(w, head), w.next, Tree(head, []));
  }

  lemma FreshFacts(w: World, head: Head)
    requires Inv(w)
    ensures var v, h := FreshW(w, head), w.next;
      && h !in w.handles && h in v.handles && v.handles[h] in v.tag && v.tag[v.handles[h]] == Tree(head, [])
      && forall x :: x in w.handles ==> (x in v.handles && v.handles[x] in v.tag && w.handles[x] in w.tag
                                         && v.tag[v.handles[x]] == w.tag[w.handles[x]])
  {
    hide Labelled, Owned, Counted;
  }

  lemma ShareEnv(w: World, p: Ptr)
    requires Inv(w) && p in w.cells && p in w.tag
    ensures Inv(ShareW(w, p)) && w.next !in w.handles && w.next in ShareW(w, p).handles
    ensures Env(ShareW(w, p)) == Env(w)[w.next := w.tag[p]]
  {
    SharedFacts(w, p);
    hide ShareW, Env, Stack, Inv, Shape;
    ShareInv(w, p);
    ShareStack(w, p);
    NewInEnv(w, ShareW(w, p), w.next, w.tag[p]);
  }

  lemma SharedFacts(w: World, p: Ptr)
    requires Inv(w) && p in w.cells && p in w.tag
    ensures var v, h := ShareW(w, p), w.next;
      && h !in w.handles && h in v.handles && v.handles[h] in v.tag && v.tag[v.handles[h]] == w.tag[p]
      && forall x :: x in w.handles ==> (x in v.handles && v.handles[x] in v.tag && w.handles[x] in w.tag
                                         && v.tag[v.handles[x]] == w.tag[w.handles[x]])
  {
    hide Labelled, Owned, Counted;
  }

  /** A new variable. */
  lemma NewInEnv(w: World, v: World, h: Handle, t: Tree)
    requires Inv(w) && Inv(v) && Stack(v) == Stack(w) + {h} && h !in w.handles
    requires h in v.handles && v.handles[h] in v.tag && v.tag[v.handles[h]] == t
    requires forall x :: x in w.handles ==> (x in v.handles && v.handles[x] in v.tag && w.handles[x] in w.tag
                                             && v.tag[v.handles[x]] == w.tag[w.handles[x]])
    ensures Env(v) == Env(w)[h := t]
  {
    hide Inv, Shape, Stack, Env;
    EnvIsTags(w);
    EnvIsTags(v);
    assert Env(v).Keys == Env(w)[h := t].Keys;
  }

  lemma NothingDone(w: World, h: Handle)
    requires Inv(w) && h in w.handles
    ensures Done(w, w, h)
  {
    MutatedIsIsolated(w, w, h);
  }

  lemma ShareOpen(w: World, u: World, h: Handle, v: Handle)
    requires Inv(w) && Inv(u) && Open(w, u, h, {}) && v in u.handles && u.handles[v] in u.cells && v != h && !Holds(u, v, h)
    requires u.cells[u.handles[h]].refCount == 1
    ensures var z := ShareW(u, u.handles[v]);
      Inv(z) && Open(w, z, h, {u.next}) && h in z.handles && z.handles[h] in z.cells && NewKid(z, u.next, z.handles[h])
  {
    hide Closed, Labelled, Owned, Counted, Reach, Stack, Changed, Private, Holds, NewKid;
    var z := ShareW(u, u.handles[v]);
    ShareInv(u, u.handles[v]);
    ShareStack(u, u.handles[v]);
    ShareKeeps(w, u, u.handles[v], h);
    NotItsData(u, h, v);
    ShareParts(u, u.handles[v]);
    NotOnStack(u, u.next);
    OneMore(w, u, z, h, u.next, {});
    ShareHolds(u, u.handles[v], h, v);
    CopyMayGo(z, h, v, u.next);
  }

  /** No other handle has exclusive data. */
  lemma NotItsData(u: World, h: Handle, v: Handle)
    requires Inv(u) && h in u.handles && v in u.handles && v != h && u.handles[h] in u.cells
    requires u.cells[u.handles[h]].refCount == 1
    ensures u.handles[v] != u.handles[h]
  {
    LastSharer(u, h);
    assert v !in Sharers(u, u.handles[h]);
  }

  /** A new handle adds nothing to what is reached. */
  lemma ShareHolds(u: World, p: Ptr, h: Handle, v: Handle)
    requires Inv(u) && p in u.cells && Inv(ShareW(u, p)) && h in u.handles && v in u.handles && !Holds(u, v, h)
    ensures !Holds(ShareW(u, p), v, h)
  {
    hide Closed, Labelled, Owned, Counted, Reach, ShareW;
    ShareParts(u, p);
    PointsToData(u, v);
    SameOwners(u, h);
    if Holds(ShareW(u, p), v, h) {
      ReachGrows(u, ShareW(u, p), u.handles[v], u.owner[h].value);
    }
  }

  lemma SameOwners(u: World, h: Handle)
    requires Closed(u) && h in u.handles
    ensures h in u.owner && h != u.next
  {
  }

  lemma NotOnStack(u: World, t: Handle)
    requires t !in u.handles
    ensures t !in Stack(u)
  {
  }

  lemma AddedOne(z: World, h: Handle, k: Handle)
    requires Inv(z) && h in z.handles && z.handles[h] in z.cells && NewKid(z, k, z.handles[h])
    ensures var kids := z.cells[z.handles[h]].kids;
      && MayAdopt(z, z.handles[h], kids + [k]) && Loses(z, h, kids + [k], [])
      && Elements(kids + [k]) - Elements(kids) == {k}
  {
    hide Closed, Labelled, Owned, Counted, Reach, MayAdopt, NewKid, Loses;
    AddNew(z, h, [k]);
    assert Elements([k]) == {k};
  }

  lemma AddedLabels(u: World, h: Handle, p: Ptr)
    requires Inv(u) && h in u.handles && p in u.cells && p in u.tag && Inv(ShareW(u, p))
    ensures u.handles[h] in u.cells && u.handles[h] in u.tag
    ensures var z, kids := ShareW(u, p), u.cells[u.handles[h]].kids + [u.next];
      && (forall i :: 0 <= i < |kids| ==> kids[i] in z.handles)
      && KidLabels(z, kids) == u.tag[u.handles[h]].kids + [u.tag[p]]
  {
    ShareParts(u, p);
    Shown(u, h);
    Unused(u);
    hide Inv, Shape, ShareW;
    var kids := u.cells[u.handles[h]].kids;
    OneLabelMore(u, ShareW(u, p), kids, u.next);
  }

  lemma OneLabelMore(u: World, z: World, kids: seq<Handle>, k: Handle)
    requires Closed(u) && Closed(z) && k in z.handles && forall i :: 0 <= i < |kids| ==> kids[i] in u.handles
    requires forall i :: 0 <= i < |kids| ==> kids[i] in z.handles && z.tag[z.handles[kids[i]]] == u.tag[u.handles[kids[i]]]
    ensures forall i :: 0 <= i < |kids + [k]| ==> (kids + [k])[i] in z.handles
    ensures KidLabels(z, kids + [k]) == KidLabels(u, kids) + [z.tag[z.handles[k]]]
  {
  }

  // ----- references to other data

  lemma MayRefer(w: World, h: Handle, other: Handle)
    requires Inv(w) && h in w.handles && other in w.handles && !Holds(w, other, h)
    requires w.handles[h] in w.cells && w.handles[other] in w.cells && w.handles[h] != w.handles[other]
    requires Inv(ShareW(w, w.handles[h]))
    ensures MayPoint(ShareW(w, w.handles[h]), h, w.handles[other])
  {
    var z := ShareW(w, w.handles[h]);
    CountedOne(w, w.handles[h]);
    hide Closed, Labelled, Owned, Counted, Reach, ShareW, Holds;
    ShareParts(w, w.handles[h]);
    ShareHolds(w, w.handles[h], h, other);
    OwnerIsData(w, h);
    SameOwners(w, h);
    SameOwners(w, other);
    HoldsMeans(z, other, h);
  }

  lemma HoldsMeans(z: World, x: Handle, h: Handle)
    requires Shape(z) && x in z.handles && !Holds(z, x, h) && h in z.owner && z.handles[x] in z.cells
    ensures z.owner[h].Some? ==> !Reach(z, z.handles[x], z.owner[h].value)
  {
  }

  lemma Tagged(w: World, p: Ptr)
    requires Closed(w)
    ensures p in w.cells <==> p in w.tag
  {
  }

  lemma CountedOne(w: World, p: Ptr)
    requires Counted(w) && p in w.cells
    ensures w.cells[p].refCount >= 1
  {
  }

  lemma OwnerIsData(w: World, h: Handle)
    requires Inv(w) && h in w.handles
    ensures h in w.owner && (w.owner[h].Some? ==> w.owner[h].value in w.cells)
  {
    hide Labelled, Counted;
  }

  /** While h leaves its data for p, a temporary handle keeps that data. */
  ghost function ReferW(w: World, h: Handle, p: Ptr): World
    requires Inv(w) && h in w.handles && w.handles[h] in w.cells && Inv(ShareW(w, w.handles[h]))
    requires MayPoint(ShareW(w, w.handles[h]), h, p)
  {
    PointW(ShareW(w, w.handles[h]), h, p)
  }

  lemma ReferParts(w: World, h: Handle, p: Ptr)
    requires Inv(w) && h in w.handles && p in w.cells && w.handles[h] in w.cells
    requires Inv(ShareW(w, w.handles[h])) && MayPoint(ShareW(w, w.handles[h]), h, p)
    ensures var u := ReferW(w, h, p);
      && Roots(u, w.next) && w.next !in w.handles && u.handles == w.handles[w.next := w.handles[h]][h := p]
      && h in w.owner && h in u.owner && u.owner[h] == w.owner[h] && u.cells.Keys == w.cells.Keys
  {
    var z := ShareW(w, w.handles[h]);
    hide Closed, Labelled, Owned, Counted, Reach, ShareW, PointW, MayPoint;
    ShareParts(w, w.handles[h]);
    SameOwners(w, h);
    PointDomain(z, h, p);
    PointParts(z, h, p);
  }

  lemma ReferChanged(w: World, h: Handle, p: Ptr)
    requires Inv(w) && h in w.handles && p in w.cells && w.handles[h] in w.cells
    requires Inv(ShareW(w, w.handles[h])) && MayPoint(ShareW(w, w.handles[h]), h, p)
    ensures Changed(w, ReferW(w, h, p), h) && Changed(ShareW(w, w.handles[h]), ReferW(w, h, p), h)
    ensures Stack(ReferW(w, h, p)) == Stack(w) + {w.next}
  {
    var z := ShareW(w, w.handles[h]);
    hide Closed, Labelled, Owned, Counted, Reach, ShareW, PointW, MayPoint, Changed, Stack;
    ShareStack(w, w.handles[h]);
    ChangedSelf(w, h);
    ChangedSelf(z, h);
    ShareKeeps(w, w, w.handles[h], h);
    PointKeeps(w, z, h, p);
    PointKeeps(z, z, h, p);
    PointStack(z, h, p);
  }

  /** What goes with the data h left was reached by it. */
  lemma ReferenceSpares(w: World, z: World, u: World, v: World, h: Handle, t: Handle)
    requires Inv(w) && Inv(z) && Inv(u) && Inv(v) && h in w.handles && w.handles[h] in w.cells
    requires z == ShareW(w, w.handles[h]) && t == w.next && Changed(z, u, h) && t in u.handles && t != h
    requires u.cells.Keys == w.cells.Keys && Spares(u, v, t)
    ensures Spares(w, v, h)
  {
    hide Closed, Labelled, Owned, Counted, Reach, ShareW, Changed;
    ShareParts(w, w.handles[h]);
    PointsToData(u, t);
    SameOwners(w, h);
    forall c | c in w.cells && c !in v.cells ensures Reach(w, w.handles[h], c) {
      DoesNotHold(z, h, t);
      ReachKept(z, u, h, t, c);
      ReachGrows(w, z, w.handles[h], c);
    }
  }

  /** A handle of the same data does not hold h. */
  lemma DoesNotHold(z: World, h: Handle, t: Handle)
    requires Inv(z) && h in z.handles && t in z.handles && z.handles[t] == z.handles[h]
    ensures !Holds(z, t, h)
  {
    hide Labelled, Counted, Reach;
    if z.owner[h].Some? {
      var j := SlotOf(z, h);
    }
  }

  lemma ReferDone(w: World, h: Handle, p: Ptr, v: World)
    requires Inv(w) && h in w.handles && p in w.cells && w.handles[h] in w.cells && p in w.tag
    requires Inv(ShareW(w, w.handles[h])) && MayPoint(ShareW(w, w.handles[h]), h, p) && Inv(v)
    requires var u := ReferW(w, h, p);
      && Inv(u) && w.next in u.handles && Shrunk(u, v) && Stack(v) == Stack(u) - {w.next} && Spares(u, v, w.next)
      && p in u.tag && u.tag[p] == w.tag[p]
    ensures Done(w, v, h) && v.handles[h] in v.tag && v.tag[v.handles[h]] == w.tag[p]
  {
    hide Closed, Labelled, Owned, Counted, Reach, ShareW, ReferW, MayPoint, Changed, Stack, Done;
    ReferParts(w, h, p);
    ReferChanged(w, h, p);
    ReferenceSpares(w, ShareW(w, w.handles[h]), ReferW(w, h, p), v, h, w.next);
    ReferEnds(w, ReferW(w, h, p), v, h);
  }

  lemma ReferEnds(w: World, u: World, v: World, h: Handle)
    requires Inv(w) && Inv(u) && Inv(v) && h in w.handles && h in u.handles && h in w.owner && h in u.owner
    requires u.owner[h] == w.owner[h] && Changed(w, u, h) && Shrunk(u, v) && Spares(w, v, h)
    requires w.next !in w.handles && Stack(u) == Stack(w) + {w.next} && Stack(v) == Stack(u) - {w.next}
    ensures Done(w, v, h) && v.handles[h] == u.handles[h] && v.handles[h] in v.tag && v.tag[v.handles[h]] == u.tag[v.handles[h]]
  {
    hide Closed, Labelled, Owned, Counted, Reach, Changed, Stack, Isolated;
    OnlyHandles(w);
    ShrunkKeeps(w, u, v, h);
    if w.owner[h].Some? {
      SlotStays(w, u, v, h);
    } else {
      assert Stack(v) == Stack(w) + {};
      RootStays(w, v, h);
    }
    Shown(v, h);
    MutatedIsIsolated(w, v, h);
  }

  // ----- null values and removals

  lemma FreshNull(u: World)
    ensures var z, n := FreshW(u, NULL), u.next;
      && z.handles == u.handles[n := n] && z.cells == u.cells[n := Cell(1, NULL, [])] && z.tag == u.tag[n := Tree(NULL, [])]
      && z.owner == u.owner[n := None] && z.next == n + 1
  {
  }

  lemma FreshOpen(w: World, u: World, h: Handle)
    requires Inv(w) && Inv(u) && Open(w, u, h, {})
    ensures var z := FreshW(u, NULL);
      Inv(z) && Open(w, z, h, {u.next}) && h in z.handles && z.handles[h] in z.cells && NewKid(z, u.next, z.handles[h])
  {
    hide Closed, Labelled, Owned, Counted, Reach, Stack, Changed, Private, NewKid, FreshW;
    var z := FreshW(u, NULL);
    FreshInv(u, NULL);
    FreshNull(u);
    Unused(u);
    FreshKeeps(w, u, NULL, h);
    FreshStack(u, NULL);
    NotOnStack(u, u.next);
    OneMore(w, u, z, h, u.next, {});
    LeafMayGo(z, h, u.next);
  }

  lemma Unused(u: World)
    requires Closed(u)
    ensures u.next !in u.handles && u.next !in u.cells && u.next !in u.owner
  {
  }

  lemma NullAdded(u: World, h: Handle)
    requires Inv(u) && h in u.handles && u.handles[h] in u.cells && u.handles[h] in u.tag && Inv(FreshW(u, NULL))
    ensures var z, kids := FreshW(u, NULL), u.cells[u.handles[h]].kids + [u.next];
      && (forall i :: 0 <= i < |kids| ==> kids[i] in z.handles)
      && KidLabels(z, kids) == u.tag[u.handles[h]].kids + Nulls(1)
  {
    hide Owned, Counted;
    var z, kids := FreshW(u, NULL), u.cells[u.handles[h]].kids;
    assert forall i :: 0 <= i < |kids| ==> kids[i] in u.handles && kids[i] != u.next;
    assert forall i :: 0 <= i < |kids| ==> u.handles[kids[i]] in u.cells && u.handles[kids[i]] != u.next;
    assert KidLabels(z, kids + [u.next]) == KidLabels(u, kids) + Nulls(1);
  }

  lemma TakenOut(u: World, h: Handle, i: nat)
    requires Inv(u) && h in u.handles && u.handles[h] in u.cells && u.handles[h] in u.tag
    requires i < |u.cells[u.handles[h]].kids|
    ensures var p, kids := u.handles[h], u.cells[u.handles[h]].kids;
      && MayAdopt(u, p, Without(kids, i)) && Loses(u, h, Without(kids, i), [kids[i]])
      && Elements(Without(kids, i)) - Elements(kids) == {}
      && |u.tag[p].kids| == |kids| && KidLabels(u, Without(kids, i)) == Without(u.tag[p].kids, i)
  {
    hide Closed, Labelled, Owned, Counted, Reach, MayAdopt, Loses, Without;
    var kids := u.cells[u.handles[h]].kids;
    DistinctKids(u, h);
    Shown(u, h);
    KidsWithout(kids, i);
    KeepOwn(u, h, Without(kids, i), [kids[i]]);
    LabelsWithout(u, kids, i);
  }

  lemma LabelsWithout(u: World, kids: seq<Handle>, i: nat)
    requires Closed(u) && i < |kids| && forall j :: 0 <= j < |kids| ==> kids[j] in u.handles
    ensures KidLabels(u, Without(kids, i)) == Without(KidLabels(u, kids), i)
  {
  }

  lemma KidsWithout(kids: seq<Handle>, i: nat)
    requires i < |kids| && forall a, b :: 0 <= a < b < |kids| ==> kids[a] != kids[b]
    ensures var keep := Without(kids, i);
      && (forall k :: k in keep ==> k in kids) && (forall a, b :: 0 <= a < b < |keep| ==> keep[a] != keep[b])
      && Elements([kids[i]]) == Elements(kids) - Elements(keep)
  {
    var keep := Without(kids, i);
    forall k | k in kids && k != kids[i] ensures k in keep {
      var j :| 0 <= j < |kids| && kids[j] == k;
      assert keep[if j < i then j else j - 1] == k;
    }
  }

  /** A new null value in h's data. */
  lemma NullInside(w: World, u: World, z: World, v: World, h: Handle, k: Handle)
    requires Inv(w) && Inv(u) && Inv(z) && Inv(v) && h in w.handles && h in u.handles && h in v.handles && Inside(w, u, h)
    requires z == FreshW(u, NULL) && k == u.next && k != h && k in v.handles && w.next <= u.next
    requires Changed(u, z, h) && Changed(z, v, h) && u.handles[h] in u.cells && v.handles[h] in v.cells
    requires v.handles[h] == u.handles[h] && u.cells[u.handles[h]].refCount == 1
    requires v.cells[v.handles[h]].kids == u.cells[u.handles[h]].kids + [k]
    ensures Inside(w, v, h) && HasLeaf(w, v, h)
  {
    hide Closed, Labelled, Owned, Counted, Reach, Changed, Inside, FreshW, NewLeaf;
    FreshNull(u);
    SameOwners(u, h);
    TwoChanges(u, z, v, h);
    NewIsLeaf(w, u, z, k);
    SamePointer(z, v, h, k);
    LeafStays(w, z, v, h, k, k);
    InsideKept(w, u, v, h);
  }

  lemma NextGrows(w: World, u: World, h: Handle, temps: set<Handle>)
    requires Shape(w) && Open(w, u, h, temps)
    ensures w.next <= u.next
  {
  }

  lemma NewIsLeaf(w: World, u: World, z: World, k: Handle)
    requires Closed(w) && z == FreshW(u, NULL) && k == u.next && w.next <= u.next
    ensures NewLeaf(w, z, k)
  {
  }
}
