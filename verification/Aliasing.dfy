/** Where values stop being plain: a reference kept into data that is shared later, and Clear on shared data. */
module Aliasing {
  import opened Bytes
  import opened Decimal
  import opened JsonValue
  import opened Heap
  import opened HeapSteps
  import opened Isolation
  import opened Changes
  import opened CopyOnWrite
  import opened Rewriting
  import opened Placement
  import opened TreeOps
  import opened ValueOps
  import opened Store
  import opened Operations
  import opened Paths
  import opened Clearing

  // ----- a change through a reference shows in every value that holds the reference, and in no other

  /** The tree of h's owner once h's own tree is t. */
  ghost function Around(w: World, h: Handle, j: nat, t: Tree): Tree
    requires Inv(w) && h in w.handles && h in w.owner && w.owner[h].Some? && w.owner[h].value in w.tag
    requires j < |w.tag[w.owner[h].value].kids|
  {
    var o := w.tag[w.owner[h].value];
    Tree(o.head, o.kids[j := t])
  }

  /** Every other handle sees its old tree with the owner's item replaced. */
  lemma {:induction false} Ripple(w: World, v: World, h: Handle, j: nat, y: Handle)
    requires Inv(w) && Inv(v) && Changed(w, v, h) && h in w.handles && h in v.handles && w.owner[h].Some?
    requires w.owner[h].value in w.cells && j < |w.cells[w.owner[h].value].kids| && w.cells[w.owner[h].value].kids[j] == h
    requires y in w.handles && y in v.handles && y != h
    ensures w.owner[h].value in w.tag && j < |w.tag[w.owner[h].value].kids|
    ensures v.tag[v.handles[y]] == Retag(w, w.owner[h].value, Around(w, h, j, v.tag[v.handles[h]]), w.handles[y])
    decreases w.tag[w.handles[y]]
  {
    var q, p := w.owner[h].value, w.handles[y];
    KidTag(w, q, j);
    SameData(w, v, h, y);
    var t := Around(w, h, j, v.tag[v.handles[h]]);
    hide Counted, Changed, Reach, Retag, Around;
    var kids := w.cells[p].kids;
    if p == q {
      forall i | 0 <= i < |kids| && i != j
        ensures kids[i] in w.handles && kids[i] in v.handles && v.tag[v.handles[kids[i]]] == w.tag[w.handles[kids[i]]]
      {
        DistinctKids(w, y);
        SlotIsClean(w, h, q, i);
        Untouched(w, v, h, kids[i]);
      }
      RippleHere(w, v, h, j, y);
    } else {
      forall i | 0 <= i < |kids|
        ensures kids[i] in w.handles && kids[i] in v.handles && w.handles[kids[i]] in w.cells
        ensures v.tag[v.handles[kids[i]]] == Retag(w, q, t, w.handles[kids[i]])
      {
        KidOwner(w, p, i);
        KidTag(w, p, i);
        Ripple(w, v, h, j, kids[i]);
      }
      RippleAbove(w, v, q, t, p);
    }
  }

  /** The other items of h's owner do not hold h. */
  lemma SlotIsClean(w: World, h: Handle, q: Ptr, i: nat)
    requires Inv(w) && h in w.handles && w.owner[h] == Some(q) && q in w.cells && i < |w.cells[q].kids|
    ensures w.cells[q].kids[i] in w.handles && !Holds(w, w.cells[q].kids[i], h)
  {
    hide Labelled, Counted, Reach;
    KidOwner(w, q, i);
    NoCycle(w, q, i);
  }

  lemma RippleHere(w: World, v: World, h: Handle, j: nat, y: Handle)
    requires Inv(w) && Inv(v) && h in w.handles && h in v.handles && w.owner[h].Some? && v.handles[h] in v.tag
    requires y in w.handles && y in v.handles && w.owner[h].value == w.handles[y] == v.handles[y]
    requires w.handles[y] in w.cells && v.handles[y] in v.cells && v.cells[v.handles[y]].kids == w.cells[w.handles[y]].kids
    requires v.cells[v.handles[y]].head == w.cells[w.handles[y]].head
    requires j < |w.cells[w.handles[y]].kids| && w.cells[w.handles[y]].kids[j] == h
    requires w.handles[y] in w.tag && j < |w.tag[w.handles[y]].kids|
    requires forall i :: 0 <= i < |w.cells[w.handles[y]].kids| && i != j ==> (
      var k := w.cells[w.handles[y]].kids[i];
      k in w.handles && k in v.handles && v.tag[v.handles[k]] == w.tag[w.handles[k]])
    ensures v.tag[v.handles[y]] == Retag(w, w.handles[y], Around(w, h, j, v.tag[v.handles[h]]), w.handles[y])
  {
    Shown(w, y);
    Shown(v, y);
    hide Closed, Labelled, Owned, Counted, Reach;
    var kids := w.cells[w.handles[y]].kids;
    assert KidLabels(v, kids) == KidLabels(w, kids)[j := v.tag[v.handles[h]]];
  }

  lemma RippleAbove(w: World, v: World, q: Ptr, t: Tree, p: Ptr)
    requires Inv(w) && Inv(v) && p in w.cells && p in v.cells && p != q
    requires v.cells[p].kids == w.cells[p].kids && v.cells[p].head == w.cells[p].head
    requires forall i :: 0 <= i < |w.cells[p].kids| ==> (
      var k := w.cells[p].kids[i];
      k in w.handles && k in v.handles && w.handles[k] in w.cells && v.tag[v.handles[k]] == Retag(w, q, t, w.handles[k]))
    ensures v.tag[p] == Retag(w, q, t, p)
  {
    hide Owned, Counted, Reach;
    var kids := w.cells[p].kids;
    assert KidLabels(v, kids) == Retag(w, q, t, p).kids;
  }

  lemma {:induction false} RetagDiffers(w: World, q: Ptr, t: Tree, p: Ptr)
    requires Shape(w) && p in w.cells && q in w.cells && Reach(w, p, q)
    ensures Retag(w, q, t, p) == w.tag[p] <==> t == w.tag[q]
    decreases w.tag[p]
  {
    if p != q {
      var kids := w.cells[p].kids;
      var i :| 0 <= i < |kids| && KidReach(w, p, i, q);
      KidTag(w, p, i);
      RetagDiffers(w, q, t, w.handles[kids[i]]);
      assert Retag(w, q, t, p).kids[i] == Retag(w, q, t, w.handles[kids[i]]);
      if t == w.tag[q] {
        forall k | 0 <= k < |kids| ensures Retag(w, q, t, w.handles[kids[k]]) == w.tag[p].kids[k] {
          KidTag(w, p, k);
          RetagSame(w, q, w.handles[kids[k]]);
        }
      }
    }
  }

  /** A value sees a change through another handle exactly if it holds that handle and the handle's tree has changed. */
  lemma SeenExactlyByHolders(w: World, v: World, h: Handle, y: Handle)
    requires Inv(w) && Inv(v) && Changed(w, v, h) && h in w.handles && h in v.handles
    requires y in w.handles && y in v.handles && y != h && w.handles[h] in w.tag && w.handles[y] in w.tag
    ensures v.handles[y] in v.tag && v.handles[h] in v.tag
    ensures v.tag[v.handles[y]] == w.tag[w.handles[y]] <==>
      !Holds(w, y, h) || v.tag[v.handles[h]] == w.tag[w.handles[h]]
  {
    hide Owned, Counted, Changed, Reach, Retag;
    if !Holds(w, y, h) {
      Untouched(w, v, h, y);
    } else {
      var q := w.owner[h].value;
      var j := SlotOf(w, h);
      KidTag(w, q, j);
      Ripple(w, v, h, j, y);
      var t := Around(w, h, j, v.tag[v.handles[h]]);
      RetagDiffers(w, q, t, w.handles[y]);
      assert t.kids[j] == v.tag[v.handles[h]];
      if v.tag[v.handles[h]] == w.tag[w.handles[h]] {
        assert t == w.tag[q];
      }
    }
  }

  /** A copy is not out of reach of a reference taken before it was made: `a[0]` is kept, `b = a`, and the assignment
      through the reference changes b. */
  method KeptReference(fp: int -> real) returns (s: ValueStore, a: Handle, b: Handle, ghost before: JValue)
    ensures s.Valid() && a in s.handles && b in s.handles && a != b && Roots(s.W(), a) && Roots(s.W(), b)
    ensures before == Arr([Null]) && Meaning(fp, s.View(b)) == Arr([Int(5)])
  {
    hide Closed, Labelled, Owned, Counted, Reach, Changed, Stack, Meaning, Done, Open, Inside, Env, FreshW, ShareW;
    hide Grown, WithWord, Roots;
    s := new ValueStore();
    NewRoot(s.W(), NULL);
    a := s.NewValue(NULL);
    ghost var w1 := s.W();
    GrownNull(s.Shared(a));
    var k := s.Item(a, 0);
    ghost var w2 := s.W();
    DoneParts(w1, w2, a);
    SameStack(w1, w2, a);
    b := s.Copy(a);
    ghost var w3 := s.W();
    Shown(w2, a);
    assert w2.cells[w2.handles[a]].kids == [k];
    CopyHolds(w2, a, k);
    before := Meaning(fp, s.View(b));
    NullItem(fp);
    ghost var shared := s.Shared(k);
    s.SetScalar(k, TInt, 5);
    Five(fp, shared);
    CopySees(w3, s.W(), a, b, k);
    DropDomain(s.W(), a);
    DropDomain(s.W(), b);
  }

  lemma GrownNull(shared: bool)
    ensures Grown(Tree(NULL, []), shared, 0) == Tree(NULL.(typ := TArray), [Tree(NULL, [])])
  {
    assert Nulls(1) == [Tree(NULL, [])];
  }

  /** The copy shares the array, so it holds the item. */
  lemma CopyHolds(w: World, a: Handle, k: Handle)
    requires Inv(w) && Roots(w, a) && w.handles[a] in w.cells && w.cells[w.handles[a]].kids == [k]
    requires Inv(ShareW(w, w.handles[a])) && w.handles[a] in w.tag
    ensures var v, b := ShareW(w, w.handles[a]), w.next;
      && k in v.handles && k in v.owner && v.owner[k] == Some(w.handles[a]) && v.handles[k] in v.cells
      && v.handles[k] in v.tag && w.tag[w.handles[a]].kids == [v.tag[v.handles[k]]]
      && Roots(v, a) && Roots(v, b) && a != b && b in v.handles && v.handles[b] == w.handles[a] && v.tag == w.tag
      && w.handles[a] in v.cells && v.cells[w.handles[a]].kids == [k]
  {
    hide Labelled, Counted, Owned, ShareW;
    ShareParts(w, w.handles[a]);
    KidOwner(w, w.handles[a], 0);
    KidOwner(ShareW(w, w.handles[a]), w.handles[a], 0);
    Shown(w, a);
    Shown(ShareW(w, w.handles[a]), k);
  }

  lemma CopySees(w: World, v: World, a: Handle, b: Handle, k: Handle)
    requires Inv(w) && Inv(v) && Done(w, v, k) && Roots(w, a) && Roots(w, b) && w.handles[b] in w.cells
    requires w.cells[w.handles[b]].kids == [k] && k in w.owner && w.owner[k] == Some(w.handles[b])
    ensures Roots(v, a) && Roots(v, b) && k in v.handles && v.handles[k] in v.tag && v.handles[b] in v.tag
    ensures w.handles[b] in w.tag
    ensures v.tag[v.handles[b]] == Tree(w.tag[w.handles[b]].head, [v.tag[v.handles[k]]])
  {
    hide Labelled, Counted, Owned, Reach, Changed, Stack;
    DoneParts(w, v, k);
    DoneChanged(w, v, k);
    SameStack(w, v, a);
    SameStack(w, v, b);
    Shown(w, b);
    Shown(v, b);
    Shown(v, k);
    Ripple(w, v, k, 0, b);
  }

  lemma NullItem(fp: int -> real)
    ensures Meaning(fp, Tree(NULL.(typ := TArray), [Tree(NULL, [])])) == Arr([Null])
  {
    assert Meanings(fp, [Tree(NULL, [])]) == [Null];
  }

  lemma Five(fp: int -> real, shared: bool)
    ensures var t := WithWord(Tree(NULL, []), shared, TInt, 5);
      Meaning(fp, Tree(NULL.(typ := TArray), [t])) == Arr([Int(5)])
  {
    var t := WithWord(Tree(NULL, []), shared, TInt, 5);
    assert Meaning(fp, t) == Int(5);
    assert Meanings(fp, [t]) == [Int(5)];
  }

  // ----- Clear

  /** In v the data p has become invalid, and all trees that contain it show that. */
  ghost predicate Blotted(w: World, v: World, p: Ptr)
    requires Shape(w)
  {
    && p in w.tag && (forall x :: x in v.handles ==> x in w.handles && v.handles[x] == w.handles[x])
    && forall q :: q in v.tag ==> q in w.cells && v.tag[q] == Retag(w, p, Retyped(w.tag[p], TInvalid), q)
  }

  /** Clear by steps: afterwards h is invalid, and the memory is one of right counts but for one reference to the data
      left behind, if it was shared. */
  lemma ClearWorld(w: World, h: Handle) returns (v: World)
    requires Inv(w) && h in w.handles && w.handles[h] in w.cells
    ensures Inv(v) && Live(Mem(w), h) && Stack(v) == Stack(w) && v.handles == Clear(Mem(w), h).handles
    ensures w.cells[w.handles[h]].refCount == 1 ==> v.cells == Clear(Mem(w), h).cells
    ensures w.cells[w.handles[h]].refCount > 1 ==>
      w.handles[h] in v.cells && Clear(Mem(w), h) == Recount(Mem(v), w.handles[h], -1)
    ensures w.cells[w.handles[h]].refCount != 2 ==> Changed(w, v, h)
    ensures w.cells[w.handles[h]].refCount == 2 ==> Blotted(w, v, w.handles[h])
    ensures h in v.handles && v.handles[h] in v.cells && v.cells[v.handles[h]].head.typ == TInvalid
  {
    hide Closed, Labelled, Owned, Counted, Reach, Retag, Changed, Stack, Clear, EndAll;
    CountIsPositive(w, h);
    if w.cells[w.handles[h]].refCount == 1 {
      v := ClearOfOne(w, h);
    } else if w.cells[w.handles[h]].refCount == 2 {
      v := ClearOfTwo(w, h);
    } else {
      v := ClearOfMany(w, h);
    }
  }

  /** Clear keeps the counts right exactly if the data is not shared. If it is, the data lacks one reference, and all
      other counts are right. */
  lemma ClearCounts(w: World, h: Handle)
    requires Inv(w) && h in w.handles && w.handles[h] in w.cells
    ensures Live(Mem(w), h)
    ensures Counts(Clear(Mem(w), h)) <==> w.cells[w.handles[h]].refCount == 1
    ensures var m, p := Clear(Mem(w), h), w.handles[h];
      && (w.cells[p].refCount > 1 ==> p in m.cells && m.cells[p].refCount == |Pointers(m, p)| - 1)
      && (forall q :: q in m.cells && q != p ==> m.cells[q].refCount == |Pointers(m, q)|)
      && (forall x :: x in m.handles ==> Live(m, x))
  {
    hide *;
    var v := ClearWorld(w, h);
    CountIsPositive(w, h);
    if w.cells[w.handles[h]].refCount == 1 {
      CountsRight(v, Clear(Mem(w), h));
    } else {
      OneShort(v, w.handles[h]);
    }
  }

  lemma CountsRight(v: World, m: Memory)
    requires Inv(v) && m.handles == v.handles && m.cells == v.cells
    ensures Counts(m) && (forall q :: q in m.cells ==> m.cells[q].refCount == |Pointers(m, q)|)
    ensures forall x :: x in m.handles ==> Live(m, x)
  {
    hide Labelled, Owned;
    forall q | q in m.cells ensures m.cells[q].refCount == |Pointers(m, q)| {
      assert Pointers(m, q) == Sharers(v, q);
    }
  }

  lemma OneShort(v: World, p: Ptr)
    requires Inv(v) && p in v.cells
    ensures var m := Recount(Mem(v), p, -1);
      && !Counts(m) && p in m.cells && m.cells[p].refCount == |Pointers(m, p)| - 1
      && (forall q :: q in m.cells && q != p ==> m.cells[q].refCount == |Pointers(m, q)|)
      && (forall x :: x in m.handles ==> Live(m, x))
  {
    CountsRight(v, Mem(v));
    hide Inv, Counts, Pointers;
    var m := Recount(Mem(v), p, -1);
    SamePointers(Mem(v), m);
    assert m.cells[p].refCount == |Pointers(m, p)| - 1;
    NotAll(m, p);
  }

  lemma SamePointers(a: Memory, b: Memory)
    requires a.handles == b.handles
    ensures forall q :: Pointers(a, q) == Pointers(b, q)
  {
  }

  lemma NotAll(m: Memory, p: Ptr)
    requires p in m.cells && m.cells[p].refCount != |Pointers(m, p)|
    ensures !Counts(m)
  {
  }

  lemma RecountShape(v: World, p: Ptr)
    requires Shape(v) && p in v.cells
    ensures Shape(v.(cells := Recount(Mem(v), p, -1).cells))
  {
    hide KidLabels;
    var u := v.(cells := Recount(Mem(v), p, -1).cells);
    forall q | q in u.cells ensures u.tag[q] == Tree(u.cells[q].head, KidLabels(u, u.cells[q].kids)) {
      KidLabelsEqual(v, u, v.cells[q].kids);
    }
  }

  lemma RetypeShows(t: Tree)
    ensures Retyped(t, TInvalid) == t <==> t.head.typ == TInvalid
    ensures Retyped(t, TInvalid).head.typ == TInvalid
  {
  }

  /** Another variable that does not hold h sees its value changed by Clear exactly if two handles owned the data, the
      variable reaches it, and it was not invalid already. Then it finds an invalid value where h's was. */
  lemma ClearSpills(w: World, h: Handle, y: Handle) returns (v: World)
    requires Inv(w) && h in w.handles && w.handles[h] in w.cells
    requires Roots(w, y) && y != h && !Holds(w, y, h) && w.handles[y] in w.cells && w.handles[y] in w.tag
    ensures Live(Mem(w), h) && Shape(v)
    ensures v.handles == Clear(Mem(w), h).handles && v.cells == Clear(Mem(w), h).cells
    ensures y in v.handles && v.handles[y] in v.tag
    ensures v.tag[v.handles[y]] == w.tag[w.handles[y]] <==>
      !(w.cells[w.handles[h]].refCount == 2 && Reach(w, w.handles[y], w.handles[h])
        && w.cells[w.handles[h]].head.typ != TInvalid)
    ensures w.handles[h] in w.tag && (w.cells[w.handles[h]].refCount == 2 ==>
      v.tag[v.handles[y]] == Retag(w, w.handles[h], Retyped(w.tag[w.handles[h]], TInvalid), w.handles[y]))
  {
    hide Labelled, Owned, Counted, Changed, Clear, Retag, Reach;
    var p := w.handles[h];
    var u := ClearWorld(w, h);
    RootOnStack(w, y);
    OnStack(u, y);
    Shown(u, y);
    CountIsPositive(w, h);
    Shown(w, h);
    if w.cells[p].refCount == 2 {
      var t := Retyped(w.tag[p], TInvalid);
      RetypeShows(w.tag[p]);
      if Reach(w, w.handles[y], p) { RetagDiffers(w, p, t, w.handles[y]); } else { RetagIdle(w, p, t, w.handles[y]); }
    } else {
      Untouched(w, u, h, y);
    }
    v := u;
    if w.cells[p].refCount > 1 {
      RecountShape(u, p);
      v := u.(cells := Recount(Mem(u), p, -1).cells);
    }
  }

  /** With two owners, the end of the other one takes the data away under h. */
  lemma ClearDangles(w: World, h: Handle, y: Handle)
    requires Inv(w) && h in w.handles && w.handles[h] in w.cells && w.cells[w.handles[h]].refCount == 2
    requires y in w.handles && y != h && w.handles[y] == w.handles[h]
    ensures Live(Mem(w), h) && Live(Clear(Mem(w), h), y)
    ensures var e := EndOne(Clear(Mem(w), h), y); h in e.handles && !Live(e, h)
  {
    hide Labelled, Owned, Changed, Clear, Retag, Reach, EndAll;
    var v := ClearOfTwo(w, h);
    var p, m := w.handles[h], Clear(Mem(w), h);
    assert {h, y} <= Sharers(w, p) && |{h, y}| == 2;
    assert h in Pointers(Mem(v), p) && y in Pointers(Mem(v), p);
    assert Pointers(Mem(v), p) == Sharers(v, p) && Pointers(Mem(w), p) == Sharers(w, p);
  }
}
