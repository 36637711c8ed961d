/** What the operations need to know before they place handles in exclusive data. */
module Placement {
  import opened Bytes
  import opened Decimal
  import opened JsonValue
  import opened Heap
  import opened HeapSteps
  import opened Isolation
  import opened Changes
  import opened CopyOnWrite
  import opened Rewriting

  /** What every operation on h promises: no other variable changes, nothing is lost but what h held, and h itself stays
      where it was. */
  ghost predicate Done(w: World, v: World, h: Handle)
    requires Inv(w) && Inv(v)
  {
    Mutated(w, v, h) && Isolated(w, v, h) && Spares(w, v, h)
  }

  lemma OpenIsDone(w: World, v: World, h: Handle)
    requires Inv(w) && Inv(v) && Open(w, v, h, {})
    ensures Done(w, v, h)
  {
    hide Closed, Labelled, Owned, Counted, Reach, Changed, Stack, Private, Isolated;
    MutatedIsIsolated(w, v, h);
  }

  /** The tree of a handle shows the content of its data. */
  lemma Shown(u: World, h: Handle)
    requires Inv(u) && h in u.handles
    ensures u.handles[h] in u.cells && u.handles[h] in u.tag
    ensures forall i :: 0 <= i < |u.cells[u.handles[h]].kids| ==> u.cells[u.handles[h]].kids[i] in u.handles
    ensures u.tag[u.handles[h]] == Tree(u.cells[u.handles[h]].head, KidLabels(u, u.cells[u.handles[h]].kids))
  {
    hide Owned, Counted;
  }

  /** Data may keep handles it has and adopt roots that do not reach it. */
  lemma Adoptable(u: World, p: Ptr, keep: seq<Handle>)
    requires Inv(u) && p in u.cells
    requires forall i, j :: 0 <= i < j < |keep| ==> keep[i] != keep[j]
    requires forall k :: k in keep ==> k in u.cells[p].kids || NewKid(u, k, p)
    ensures MayAdopt(u, p, keep)
  {
    hide Labelled, Counted, Reach;
    forall i | 0 <= i < |keep|
      ensures keep[i] in u.handles && u.handles[keep[i]] in u.cells && (u.owner[keep[i]] == None || u.owner[keep[i]] == Some(p))
      ensures !Reach(u, u.handles[keep[i]], p)
    {
      if keep[i] in u.cells[p].kids {
        var j :| 0 <= j < |u.cells[p].kids| && u.cells[p].kids[j] == keep[i];
        KidOwner(u, p, j);
        NoCycle(u, p, j);
      } else {
        assert NewKid(u, keep[i], p);
      }
    }
  }

  ghost predicate NewKid(u: World, k: Handle, p: Ptr)
    requires Shape(u) && p in u.cells
  {
    Roots(u, k) && u.handles[k] in u.cells && !Reach(u, u.handles[k], p)
  }

  /** The handles in data are distinct. */
  lemma DistinctKids(u: World, h: Handle)
    requires Inv(u) && h in u.handles
    ensures u.handles[h] in u.cells
    ensures var kids := u.cells[u.handles[h]].kids;
      (forall i, j :: 0 <= i < j < |kids| ==> kids[i] != kids[j]) && forall k :: k in kids ==> k in u.handles && !Roots(u, k)
  {
    hide Labelled, Counted;
    var kids := u.cells[u.handles[h]].kids;
    forall k | k in kids ensures k in u.handles && !Roots(u, k) {
      var i :| 0 <= i < |kids| && kids[i] == k;
      KidOwner(u, u.handles[h], i);
    }
  }

  /** Keeping all handles, or some of them. */
  lemma KeepOwn(u: World, h: Handle, keep: seq<Handle>, lost: seq<Handle>)
    requires Inv(u) && h in u.handles && u.handles[h] in u.cells
    requires forall k :: k in keep ==> k in u.cells[u.handles[h]].kids
    requires forall i, j :: 0 <= i < j < |keep| ==> keep[i] != keep[j]
    requires forall i, j :: 0 <= i < j < |lost| ==> lost[i] != lost[j]
    requires Elements(lost) == Elements(u.cells[u.handles[h]].kids) - Elements(keep)
    ensures MayAdopt(u, u.handles[h], keep) && Loses(u, h, keep, lost)
    ensures Elements(keep) - Elements(u.cells[u.handles[h]].kids) == {}
  {
    hide Closed, Labelled, Owned, Counted, Reach, MayAdopt;
    Adoptable(u, u.handles[h], keep);
  }

  /** Adding roots at the end. */
  lemma AddNew(u: World, h: Handle, more: seq<Handle>)
    requires Inv(u) && h in u.handles && u.handles[h] in u.cells
    requires forall i, j :: 0 <= i < j < |more| ==> more[i] != more[j]
    requires forall k :: k in more ==> NewKid(u, k, u.handles[h])
    ensures var kids := u.cells[u.handles[h]].kids;
      && MayAdopt(u, u.handles[h], kids + more) && Loses(u, h, kids + more, [])
      && Elements(kids + more) - Elements(kids) == Elements(more)
  {
    var kids := u.cells[u.handles[h]].kids;
    DistinctKids(u, h);
    NewAreRoots(u, more, u.handles[h]);
    hide Closed, Labelled, Owned, Counted, Reach, MayAdopt, NewKid, Roots;
    Adoptable(u, u.handles[h], kids + more);
  }

  lemma NewAreRoots(u: World, more: seq<Handle>, p: Ptr)
    requires Shape(u) && p in u.cells && forall k :: k in more ==> NewKid(u, k, p)
    ensures forall k :: k in more ==> Roots(u, k)
  {
  }

  /** A copy of v, which is not h and does not hold it, may go into h's data. */
  lemma CopyMayGo(u: World, h: Handle, v: Handle, t: Handle)
    requires Inv(u) && h in u.handles && v in u.handles && v != h && !Holds(u, v, h)
    requires u.cells[u.handles[h]].refCount == 1 && Roots(u, t) && u.handles[t] == u.handles[v]
    ensures NewKid(u, t, u.handles[h])
  {
    hide Labelled, Owned, Counted, Reach;
    OutOfReach(u, h, v);
  }

  /** Data without handles reaches nothing. */
  lemma LeafMayGo(u: World, h: Handle, t: Handle)
    requires Inv(u) && h in u.handles && Roots(u, t) && u.handles[t] in u.cells
    requires u.handles[t] != u.handles[h] && u.cells[u.handles[t]].kids == []
    ensures u.handles[h] in u.cells && NewKid(u, t, u.handles[h])
  {
    hide Owned, Counted;
  }

  /** A handle that h does not hold is still there, and does not hold h unless it did. */
  lemma Spared(w: World, u: World, h: Handle, x: Handle)
    requires Inv(w) && Inv(u) && Open(w, u, h, {}) && x in w.handles && x != h && !Holds(w, h, x)
    ensures x in u.handles && u.handles[x] == w.handles[x]
  {
    hide Labelled, Counted, Reach, Stack;
    if w.owner[x].Some? {
      var j := SlotOf(w, x);
      ReachSelf(w, w.handles[h]);
      assert u.cells[w.owner[x].value].kids[j] == x;
    } else {
      StackStays(w, u, x);
    }
  }

  lemma StackStays(w: World, u: World, x: Handle)
    requires Roots(w, x) && Stack(u) == Stack(w) + {}
    ensures Roots(u, x)
  {
    assert x in Stack(w);
  }

  /** What the added value looks like while h is being changed. */
  lemma StillSame(w: World, u: World, h: Handle, v: Handle)
    requires Inv(w) && Inv(u) && Open(w, u, h, {}) && v in w.handles && v in u.handles && v != h && !Holds(w, v, h)
    ensures !Holds(u, v, h) && u.handles[v] in u.tag && u.tag[u.handles[v]] == w.tag[w.handles[v]] && w.handles[v] in w.tag
    ensures u.handles[v] in u.cells
  {
    hide Closed, Labelled, Owned, Counted, Reach, Stack, Changed, Private, Holds;
    PointsToData(w, v);
    PointsToData(u, v);
    Shown(u, v);
    Shown(w, v);
    Untouched(w, u, h, v);
    if Holds(u, v, h) {
      HeldBefore(w, u, h, v);
    }
  }

  /** A new root handle on the way. */
  lemma OneMore(w: World, u: World, z: World, h: Handle, t: Handle, temps: set<Handle>)
    requires Shape(w) && Open(w, u, h, temps) && Changed(w, z, h) && Stack(z) == Stack(u) + {t} && t !in Stack(u)
    requires z.handles.Keys == u.handles.Keys + {t} && z.handles[h] == u.handles[h] && z.owner.Keys == u.owner.Keys + {t}
    requires t !in u.handles && z.owner[h] == u.owner[h]
    requires u.cells.Keys <= z.cells.Keys && z.cells[u.handles[h]].refCount == 1
    ensures Open(w, z, h, temps + {t})
  {
    hide Closed, Labelled, Reach, Stack, Changed, Private;
  }
}
