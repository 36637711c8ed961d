/** The word of 64 bits that numbers and Booleans are kept in (apps/jsonval.cpp:1860-1923): what is assigned is what is
    found, and whatever is found fits 64 bits. */
module Scalars {
  import opened Bytes
  import opened Decimal
  import opened JsonValue
  import opened Heap
  import opened Isolation
  import opened Changes
  import opened Placement
  import opened Operations
  import opened TreeOps
  import opened ValueOps
  import opened Store

  /** A word read as signed is the one number of 64 signed bits that differs from it by a multiple of 2^64. */
  lemma SignedExactly(word: int, i: int)
    ensures AsSigned(word) == i <==> -TWO63 <= i < TWO63 && (word - i) % TWO64 == 0
  {
    SameRemainder(word, i);
    if -TWO63 <= i < TWO63 {
      assert i % TWO64 == if i < 0 then i + TWO64 else i by { SmallRemainder(i); }
    }
  }

  lemma SameRemainder(a: int, b: int)
    ensures (a - b) % TWO64 == 0 <==> a % TWO64 == b % TWO64
  {
  }

  lemma SmallRemainder(i: int)
    requires -TWO63 <= i < TWO63
    ensures i % TWO64 == if i < 0 then i + TWO64 else i
  {
  }

  /** What an assignment leaves in a tree, said of the number assigned. */
  lemma AssignedMeans(fp: int -> real, t: Tree, shared: bool, i: int, u: int, b: bool, word: int)
    requires -TWO63 <= i < TWO63 && 0 <= u < TWO64
    ensures Meaning(fp, WithWord(t, shared, TInt, i)) == Int(i)
    ensures Meaning(fp, WithWord(t, shared, TUInt, u)) == UInt(u)
    ensures Meaning(fp, WithWord(t, shared, TBool, if b then 1 else 0)) == Bool(b)
    ensures Meaning(fp, WithWord(t, shared, TDouble, word)) == Double(fp(word))
  {
    SignedExactly(i, i);
  }

  lemma DoneHere()
    ensures forall w, v, h :: Inv(w) && Inv(v) && Done(w, v, h) ==> h in v.handles
  {
    hide Isolated, Changed, Spares, Inv;
  }

  /** operator= for a signed integer: the handle stands for that integer. */
  method SetInt(s: ValueStore, h: Handle, i: int, ghost fp: int -> real)
    requires s.Valid() && h in s.handles && s.handles[h] in s.cells && -TWO63 <= i < TWO63
    modifies s
    ensures s.Valid() && Done(old(s.W()), s.W(), h) && h in s.handles && Meaning(fp, s.View(h)) == Int(i)
  {
    hide Closed, Labelled, Owned, Counted, Reach, Done, WithWord, Meaning;
    AssignedMeans(fp, s.View(h), s.Shared(h), i, 0, false, 0);
    s.SetScalar(h, TInt, i);
    DoneHere();
  }

  /** operator= for an unsigned integer. */
  method SetUInt(s: ValueStore, h: Handle, u: int, ghost fp: int -> real)
    requires s.Valid() && h in s.handles && s.handles[h] in s.cells && 0 <= u < TWO64
    modifies s
    ensures s.Valid() && Done(old(s.W()), s.W(), h) && h in s.handles && Meaning(fp, s.View(h)) == UInt(u)
  {
    hide Closed, Labelled, Owned, Counted, Reach, Done, WithWord, Meaning;
    AssignedMeans(fp, s.View(h), s.Shared(h), 0, u, false, 0);
    s.SetScalar(h, TUInt, u);
    DoneHere();
  }

  /** operator= for a bool. */
  method SetBool(s: ValueStore, h: Handle, b: bool, ghost fp: int -> real)
    requires s.Valid() && h in s.handles && s.handles[h] in s.cells
    modifies s
    ensures s.Valid() && Done(old(s.W()), s.W(), h) && h in s.handles && Meaning(fp, s.View(h)) == Bool(b)
  {
    hide Closed, Labelled, Owned, Counted, Reach, Done, WithWord, Meaning;
    AssignedMeans(fp, s.View(h), s.Shared(h), 0, 0, b, 0);
    s.SetScalar(h, TBool, if b then 1 else 0);
    DoneHere();
  }

  // ----- within 64 bits

  /** Whatever is in memory, the numbers it stands for fit 64 bits. */
  lemma {:induction false} MeaningIn64(fp: int -> real, t: Tree)
    ensures In64Bits(Meaning(fp, t))
    decreases t
  {
    match t.head.typ {
      case TInt => SignedExactly(t.head.word, AsSigned(t.head.word));
      case TArray =>
        forall i | 0 <= i < |t.kids| ensures In64Bits(Meaning(fp, t.kids[i])) { MeaningIn64(fp, t.kids[i]); }
      case TObject =>
        forall i | 0 <= i < |t.kids| ensures In64Bits(Meaning(fp, t.kids[i])) { MeaningIn64(fp, t.kids[i]); }
        MembersIn64(t.head.keys, Meanings(fp, t.kids));
      case _ =>
    }
  }

  lemma {:induction false} MembersIn64(keys: seq<Text>, vs: seq<JValue>)
    requires forall i :: 0 <= i < |vs| ==> In64Bits(vs[i])
    ensures In64Bits(Obj(Members(keys, vs)))
  {
    if |keys| == |vs| && keys != [] {
      var n := |keys| - 1;
      MembersIn64(keys[..n], vs[..n]);
      var m := Members(keys[..n], vs[..n]);
      assert Members(keys, vs) == m[keys[n] := vs[n]];
    }
  }
}
