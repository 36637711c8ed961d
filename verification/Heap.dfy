/** The memory of the JSON values (apps/jsonval.cpp): reference-counted data, the handles (wxJSONValue objects) that
    point to it, and the primitive changes every operation is made of. A handle stands on the stack or in a slot of
    the array or map of some data. Each data is labelled with the tree it stands for. */
module Heap {
  import opened Bytes
  import opened Decimal
  import opened JsonValue

  type Handle = nat
  type Ptr = nat

  datatype Type = TInvalid | TNull | TInt | TUInt | TDouble | TString | TBool | TArray | TObject | TBuffer

  /** The members of wxJSONRefData that hold no other value: the type, the word of scalar values, the string, the
      memory buffer (which may be a null pointer), and the names of an object's entries, in the order of its map. */
  datatype Head = Head(typ: Type, word: int, str: Text, buff: Option<Text>, keys: seq<Text>)

  /** One wxJSONRefData. `kids` are the handles of m_valArray, or those of m_valMap under `head.keys`. */
  datatype Cell = Cell(refCount: int, head: Head, kids: seq<Handle>)

  datatype Tree = Tree(head: Head, kids: seq<Tree>)

  /** `owner` says in which data's slot a handle lies; None is the stack. Numbers from `next` on are unused. */
  datatype World = World(handles: map<Handle, Ptr>, cells: map<Ptr, Cell>, owner: map<Handle, Option<Ptr>>,
    tag: map<Ptr, Tree>, next: nat)

  // ----- the invariant

  ghost predicate Closed(w: World) {
    && w.owner.Keys == w.handles.Keys && w.tag.Keys == w.cells.Keys
    && (forall h :: h in w.handles ==> w.handles[h] in w.cells)
    && (forall h :: h in w.handles ==> h < w.next)
    && (forall p :: p in w.cells ==> p < w.next)
    && (forall p, i :: p in w.cells && 0 <= i < |w.cells[p].kids| ==> w.cells[p].kids[i] in w.handles)
  }

  /** Every handle lies in exactly one place. */
  ghost predicate Owned(w: World)
    requires Closed(w)
  {
    && (forall p, i :: p in w.cells && 0 <= i < |w.cells[p].kids| ==> w.owner[w.cells[p].kids[i]] == Some(p))
    && (forall p, i, j :: p in w.cells && 0 <= i < j < |w.cells[p].kids| ==> w.cells[p].kids[i] != w.cells[p].kids[j])
    && (forall h :: h in w.handles && w.owner[h].Some? ==>
          w.owner[h].value in w.cells && h in w.cells[w.owner[h].value].kids)
  }

  ghost function KidLabels(w: World, kids: seq<Handle>): (ts: seq<Tree>)
    requires Closed(w) && forall i :: 0 <= i < |kids| ==> kids[i] in w.handles
    ensures |ts| == |kids| && forall i :: 0 <= i < |kids| ==> ts[i] == w.tag[w.handles[kids[i]]]
  {
    seq(|kids|, i requires 0 <= i < |kids| => w.tag[w.handles[kids[i]]])
  }

  /** Labels are finite trees, so a consistent labelling also says that the graph has no cycle. */
  ghost predicate Labelled(w: World)
    requires Closed(w)
  {
    forall p :: p in w.cells ==> w.tag[p] == Tree(w.cells[p].head, KidLabels(w, w.cells[p].kids))
  }

  ghost function Sharers(w: World, p: Ptr): set<Handle> {
    set h | h in w.handles && w.handles[h] == p
  }

  /** m_refCount is the number of handles pointing at the data, and unreferenced data is gone. */
  ghost predicate Counted(w: World) {
    forall p :: p in w.cells ==> w.cells[p].refCount == |Sharers(w, p)| && w.cells[p].refCount >= 1
  }

  ghost predicate Shape(w: World) {
    Closed(w) && Labelled(w)
  }

  ghost predicate Inv(w: World) {
    Shape(w) && Owned(w) && Counted(w)
  }

  ghost predicate Roots(w: World, h: Handle) {
    h in w.handles && h in w.owner && w.owner[h] == None
  }

  // ----- reachability

  ghost predicate Reach(w: World, p: Ptr, q: Ptr)
    requires Shape(w) && p in w.cells
    decreases w.tag[p]
  {
    p == q || exists i :: 0 <= i < |w.cells[p].kids| && KidReach(w, p, i, q)
  }

  ghost predicate KidReach(w: World, p: Ptr, i: int, q: Ptr)
    requires Shape(w) && p in w.cells && 0 <= i < |w.cells[p].kids|
    decreases w.tag[p], 0
  {
    assert w.tag[p].kids[i] == w.tag[w.handles[w.cells[p].kids[i]]];
    Reach(w, w.handles[w.cells[p].kids[i]], q)
  }

  /** The handle x holds h: h lies in some slot of the data that x reaches. */
  ghost predicate Holds(w: World, x: Handle, h: Handle)
    requires Shape(w) && x in w.handles
  {
    h in w.owner && w.owner[h].Some? && Reach(w, w.handles[x], w.owner[h].value)
  }

  function Size(t: Tree): nat
    decreases t, 0
  {
    1 + SizeAll(t.kids)
  }

  function SizeAll(ts: seq<Tree>): nat
    decreases ts, 0
  {
    if ts == [] then 0 else Size(ts[0]) + SizeAll(ts[1..])
  }

  lemma {:induction false} SizeOfKid(ts: seq<Tree>, i: nat)
    requires i < |ts|
    ensures Size(ts[i]) <= SizeAll(ts)
  {
    if i > 0 {
      SizeOfKid(ts[1..], i - 1);
    }
  }

  /** What is reached is no larger. */
  lemma {:induction false} ReachShrinks(w: World, p: Ptr, q: Ptr)
    requires Shape(w) && p in w.cells && Reach(w, p, q)
    ensures q in w.cells && Size(w.tag[q]) <= Size(w.tag[p])
    ensures p != q ==> Size(w.tag[q]) < Size(w.tag[p])
    decreases w.tag[p]
  {
    if p != q {
      var i :| 0 <= i < |w.cells[p].kids| && KidReach(w, p, i, q);
      assert w.tag[p].kids[i] == w.tag[w.handles[w.cells[p].kids[i]]];
      ReachShrinks(w, w.handles[w.cells[p].kids[i]], q);
      SizeOfKid(w.tag[p].kids, i);
    }
  }

  /** No data reaches a data that holds it. */
  lemma NoCycle(w: World, q: Ptr, i: nat)
    requires Shape(w) && q in w.cells && i < |w.cells[q].kids|
    ensures !Reach(w, w.handles[w.cells[q].kids[i]], q)
  {
    var p := w.handles[w.cells[q].kids[i]];
    SizeOfKid(w.tag[q].kids, i);
    assert w.tag[q].kids[i] == w.tag[p];
    if Reach(w, p, q) {
      ReachShrinks(w, p, q);
    }
  }

  // ----- relabelling

  /** The tree of q after the tree of p has become t. */
  ghost function Retag(w: World, p: Ptr, t: Tree, q: Ptr): Tree
    requires Shape(w) && q in w.cells
    decreases w.tag[q]
  {
    if q == p then t
    else
      var kids := w.cells[q].kids;
      Tree(w.cells[q].head, seq(|kids|, i requires 0 <= i < |kids| =>
        assert w.tag[q].kids[i] == w.tag[w.handles[kids[i]]];
        Retag(w, p, t, w.handles[kids[i]])))
  }

  /** A tree that does not reach p does not change. */
  lemma {:induction false} RetagIdle(w: World, p: Ptr, t: Tree, q: Ptr)
    requires Shape(w) && q in w.cells && !Reach(w, q, p)
    ensures Retag(w, p, t, q) == w.tag[q]
    decreases w.tag[q]
  {
    var kids := w.cells[q].kids;
    forall i | 0 <= i < |kids| ensures Retag(w, p, t, w.handles[kids[i]]) == w.tag[q].kids[i] {
      assert w.tag[q].kids[i] == w.tag[w.handles[kids[i]]];
      assert !KidReach(w, q, i, p);
      RetagIdle(w, p, t, w.handles[kids[i]]);
    }
  }

  /** If only h points at p, then whatever reaches p from elsewhere holds h. */
  lemma {:induction false} OnlyThroughOwner(w: World, p: Ptr, h: Handle, x: Ptr)
    requires Shape(w) && Owned(w) && h in w.handles && Sharers(w, p) == {h}
    requires x in w.cells && x != p && Reach(w, x, p)
    ensures w.owner[h].Some? && Reach(w, x, w.owner[h].value)
    decreases w.tag[x]
  {
    var i :| 0 <= i < |w.cells[x].kids| && KidReach(w, x, i, p);
    var k := w.cells[x].kids[i];
    assert w.tag[x].kids[i] == w.tag[w.handles[k]];
    if w.handles[k] == p {
      assert k in Sharers(w, p);
      assert k == h;
    } else {
      OnlyThroughOwner(w, p, h, w.handles[k]);
      assert KidReach(w, x, i, w.owner[h].value);
    }
  }
}
