/** What a change through one handle leaves alone: the argument behind copy-on-write. */
module Isolation {
  import opened Bytes
  import opened Decimal
  import opened JsonValue
  import opened Heap

  /** The handles on the stack. */
  ghost function Stack(w: World): set<Handle> {
    set h | h in w.handles && h in w.owner && w.owner[h] == None
  }

  /** Data whose content a change through h may rewrite in place: h's own, if nothing else shares it. */
  ghost predicate Private(w: World, h: Handle, p: Ptr) {
    h in w.handles && p == w.handles[h] && p in w.cells && w.cells[p].refCount == 1
  }

  /** v comes from w by a change through h: other handles that are still there point where they pointed, and other
      data that is still there holds what it held. Unused numbers are not taken for old ones. */
  ghost predicate Changed(w: World, v: World, h: Handle) {
    && w.next <= v.next
    && (forall x :: x in v.handles ==> x in w.handles || x >= w.next)
    && (forall p :: p in v.cells ==> p in w.cells || p >= w.next)
    && (forall x :: x in w.handles && x in v.handles && x != h ==> v.handles[x] == w.handles[x])
    && (forall p :: p in w.cells && p in v.cells && !Private(w, h, p) ==>
          v.cells[p].head == w.cells[p].head && v.cells[p].kids == w.cells[p].kids)
  }

  /** The second change may rewrite h's data in place only if the first left it private or made it new. */
  lemma ChangedTrans(w: World, u: World, v: World, h: Handle)
    requires Closed(w) && Closed(u)
    requires Changed(w, u, h) && Changed(u, v, h) && h in u.handles
    requires Private(w, h, u.handles[h]) || u.handles[h] !in w.cells || u.cells[u.handles[h]].refCount != 1
    ensures Changed(w, v, h)
  {
    forall p | p in w.cells && p in v.cells && !Private(w, h, p)
      ensures v.cells[p].head == w.cells[p].head && v.cells[p].kids == w.cells[p].kids
    {
      assert p < w.next;
      assert p in u.cells && !Private(u, h, p);
    }
  }

  /** A tree seen through another handle that does not hold h is untouched. */
  lemma {:induction false} Untouched(w: World, v: World, h: Handle, x: Handle)
    requires Inv(w) && Inv(v) && Changed(w, v, h) && h in w.handles
    requires x in w.handles && x in v.handles && x != h && !Holds(w, x, h)
    ensures v.tag[v.handles[x]] == w.tag[w.handles[x]]
    decreases w.tag[w.handles[x]]
  {
    var p := w.handles[x];
    SameData(w, v, h, x);
    hide Counted, Changed, Reach, Holds;
    var kids := w.cells[p].kids;
    forall i | 0 <= i < |kids| ensures KidLabels(v, kids)[i] == KidLabels(w, kids)[i] {
      assert w.tag[p].kids[i] == w.tag[w.handles[kids[i]]];
      KidHolds(w, x, i, h);
      Untouched(w, v, h, kids[i]);
    }
    assert KidLabels(v, kids) == KidLabels(w, kids);
  }

  /** What an item holds its value holds; and a value that does not hold h has no h among its items. */
  lemma KidHolds(w: World, x: Handle, i: nat, h: Handle)
    requires Inv(w) && x in w.handles && w.handles[x] in w.cells && i < |w.cells[w.handles[x]].kids|
    ensures var y := w.cells[w.handles[x]].kids[i];
      y in w.handles && (Holds(w, y, h) ==> Holds(w, x, h)) && (y == h ==> Holds(w, x, h))
  {
    hide Counted;
    var p := w.handles[x];
    assert w.owner[w.cells[p].kids[i]] == Some(p);
    assert Reach(w, p, p);
    if Holds(w, w.cells[p].kids[i], h) {
      StepAndReach(w, p, i, w.owner[h].value);
    }
  }

  lemma {:induction false} SubsetSize<T>(a: set<T>, b: set<T>)
    requires a <= b
    ensures |a| <= |b|
  {
    if a != {} {
      var x :| x in a;
      SubsetSize(a - {x}, b - {x});
    }
  }

  lemma NotPrivate(w: World, h: Handle, x: Handle)
    requires Inv(w) && h in w.handles && x in w.handles && x != h
    ensures !Private(w, h, w.handles[x])
  {
    var p := w.handles[x];
    if w.handles[h] == p {
      SubsetSize({h, x}, Sharers(w, p));
      assert |{h, x}| == 2;
    }
  }

  /** What another handle points at is the same data with the same content. */
  lemma SameData(w: World, v: World, h: Handle, x: Handle)
    requires Inv(w) && Inv(v) && Changed(w, v, h) && h in w.handles && x in w.handles && x in v.handles && x != h
    ensures var p := w.handles[x];
      v.handles[x] == p && p in v.cells && v.cells[p].head == w.cells[p].head && v.cells[p].kids == w.cells[p].kids
  {
    NotPrivate(w, h, x);
  }

  /** The first step on the way from p to q. */
  lemma FirstStep(w: World, p: Ptr, q: Ptr) returns (i: nat, y: Handle)
    requires Inv(w) && p in w.cells && p != q && Reach(w, p, q)
    ensures i < |w.cells[p].kids| && y == w.cells[p].kids[i] && y in w.handles && w.handles[y] in w.cells
    ensures y in w.owner && w.owner[y] == Some(p) && Reach(w, w.handles[y], q)
    ensures i < |w.tag[p].kids| && w.tag[p].kids[i] == w.tag[w.handles[y]]
  {
    hide Counted;
    i :| 0 <= i < |w.cells[p].kids| && KidReach(w, p, i, q);
    y := w.cells[p].kids[i];
  }

  lemma StepAndReach(w: World, p: Ptr, i: nat, q: Ptr)
    requires Shape(w) && p in w.cells && i < |w.cells[p].kids| && Reach(w, w.handles[w.cells[p].kids[i]], q)
    ensures Reach(w, p, q)
  {
    assert KidReach(w, p, i, q);
  }

  /** A change through h lets no other handle hold h that did not hold it before. */
  lemma {:induction false} HeldBefore(w: World, v: World, h: Handle, x: Handle)
    requires Inv(w) && Inv(v) && Changed(w, v, h) && h in w.handles && h in v.handles && v.owner[h] == w.owner[h]
    requires x in w.handles && x in v.handles && x != h && Holds(v, x, h)
    ensures Holds(w, x, h)
    decreases v.tag[v.handles[x]]
  {
    hide Counted, Changed, Reach, Owned, Labelled;
    SameData(w, v, h, x);
    var p, q := v.handles[x], v.owner[h].value;
    if p == q {
      assert Reach(w, p, q) by { ReachSelf(w, p); }
    } else {
      var i, y := FirstStep(v, p, q);
      HeldBefore(w, v, h, y);
      StepAndReach(w, p, i, q);
    }
  }

  lemma ReachSelf(w: World, p: Ptr)
    requires Shape(w) && p in w.cells
    ensures Reach(w, p, p)
  {
  }

  /** Handles on the stack see exactly what they saw, all but h. */
  ghost predicate SameElsewhere(w: World, v: World, h: Handle)
    requires Shape(w) && Shape(v)
  {
    forall x :: x in w.handles && x in v.handles && x != h && !Holds(w, x, h) ==> v.tag[v.handles[x]] == w.tag[w.handles[x]]
  }

  lemma AllUntouched(w: World, v: World, h: Handle)
    requires Inv(w) && Inv(v) && Changed(w, v, h) && h in w.handles
    ensures SameElsewhere(w, v, h)
  {
    forall x | x in w.handles && x in v.handles && x != h && !Holds(w, x, h)
      ensures v.tag[v.handles[x]] == w.tag[w.handles[x]]
    {
      Untouched(w, v, h, x);
    }
  }

  /** The variables of a program: each handle on the stack with the tree it stands for. */
  ghost function Env(w: World): map<Handle, Tree>
    requires Shape(w)
  {
    map h | h in Stack(w) :: w.tag[w.handles[h]]
  }

  /** Copy-on-write refines plain values: a change through a variable is an assignment to that variable. */
  lemma VariablesAreValues(w: World, v: World, h: Handle)
    requires Inv(w) && Inv(v) && Changed(w, v, h) && Roots(w, h) && Stack(v) == Stack(w) && h in v.handles
    ensures Env(v) == Env(w)[h := v.tag[v.handles[h]]]
  {
    hide Inv, Shape, Changed, Stack, Env, Holds, SameElsewhere;
    AllUntouched(w, v, h);
    EnvIsTags(w);
    EnvIsTags(v);
    forall x | x in Stack(w) && x != h ensures Env(v)[x] == Env(w)[x] {
      SeesTheSame(w, v, h, x);
    }
    assert h in Stack(w) by { RootOnStack(w, h); }
    var e := Env(w)[h := v.tag[v.handles[h]]];
    assert Env(v).Keys == e.Keys;
  }

  lemma RootOnStack(w: World, h: Handle)
    requires Roots(w, h)
    ensures h in Stack(w)
  {
  }

  lemma OnStack(w: World, h: Handle)
    requires h in Stack(w)
    ensures Roots(w, h)
  {
  }

  lemma EnvIsTags(w: World)
    requires Inv(w)
    ensures Shape(w) && Env(w).Keys == Stack(w) && Stack(w) <= w.handles.Keys
    ensures forall x :: x in Stack(w) ==> x in w.handles && w.handles[x] in w.tag && Env(w)[x] == w.tag[w.handles[x]]
  {
    hide Labelled, Owned, Counted;
  }

  lemma SeesTheSame(w: World, v: World, h: Handle, x: Handle)
    requires Shape(w) && Shape(v) && SameElsewhere(w, v, h) && Roots(w, h)
    requires x in Stack(w) && x in Stack(v) && x != h
    ensures v.tag[v.handles[x]] == w.tag[w.handles[x]]
  {
    assert !Holds(w, x, h);
  }
}
