/** The comparison of two values (apps/jsonval.cpp, IsSameAs). `round` is the conversion of a 64-bit integer to
    the double it is compared with. */
module SameAs {
  import opened Bytes
  import opened Decimal
  import opened JsonValue

  type Rounding = int -> real

  /** The 64 bits of an integer read as unsigned. */
  function Bits(i: int): int {
    if i < 0 then i + TWO64 else i
  }

  /** The comparison when the types of the two values differ. */
  function MixedSame(round: Rounding, a: JValue, b: JValue): bool {
    match (a, b)
    case (Int(i), UInt(u)) => Bits(i) <= TWO63 - 1 && Bits(i) == u
    case (UInt(u), Int(i)) => u <= TWO63 - 1 && u == Bits(i)
    case (Int(i), Double(d)) => round(i) == d
    case (Double(d), Int(i)) => round(i) == d
    case (UInt(u), Double(d)) => round(u) == d
    case (Double(d), UInt(u)) => round(u) == d
    case _ => false
  }

  /** The result of IsSameAs: values of one type by content, numbers of two types by MixedSame. A name missing on
      the right is compared with an invalid value. */
  ghost predicate Same(round: Rounding, a: JValue, b: JValue)
    decreases a
  {
    if a.Arr? && b.Arr? then
      |a.items| == |b.items| && forall i :: 0 <= i < |a.items| ==> Same(round, a.items[i], b.items[i])
    else if a.Obj? && b.Obj? then
      |a.members| == |b.members|
      && forall k :: k in a.members ==> Same(round, a.members[k], Lookup(b.members, k))
    else
      a == b || MixedSame(round, a, b)
  }

  method IsSameAs(round: Rounding, a: JValue, b: JValue) returns (r: bool)
    ensures r == Same(round, a, b)
    decreases a
  {
    if a.Arr? && b.Arr? {
      var x, y := a.items, b.items;
      if |x| != |y| { return false; }
      var i := 0;
      while i < |x|
        invariant 0 <= i <= |x|
        invariant forall j :: 0 <= j < i ==> Same(round, x[j], y[j])
      {
        var same := IsSameAs(round, x[i], y[i]);
        if !same { return false; }
        i := i + 1;
      }
      return true;
    } else if a.Obj? && b.Obj? {
      var m, n := a.members, b.members;
      if |m| != |n| { return false; }
      var keys := m.Keys;
      while keys != {}
        invariant keys <= m.Keys
        invariant forall k :: k in m && k !in keys ==> Same(round, m[k], Lookup(n, k))
      {
        var k :| k in keys;
        var same := IsSameAs(round, m[k], Lookup(n, k));
        if !same { return false; }
        keys := keys - {k};
      }
      return true;
    } else {
      return a == b || MixedSame(round, a, b);
    }
  }

  /** The rounding confuses no two integers that fit 64 bits (signed or unsigned). */
  ghost predicate Exact(round: Rounding) {
    forall i, j :: -TWO63 <= i < TWO64 && -TWO63 <= j < TWO64 && round(i) == round(j) ==> i == j
  }

  /** The value with every number read as the number it denotes. */
  ghost function Math(round: Rounding, v: JValue): JValue {
    match v
    case Int(i) => Double(round(i))
    case UInt(u) => Double(round(u))
    case Arr(items) => Arr(seq(|items|, i requires 0 <= i < |items| => Math(round, items[i])))
    case Obj(m) => Obj(map k | k in m :: Math(round, m[k]))
    case _ => v
  }

  /** No object in the tree holds an invalid value under one of its names. */
  ghost predicate NoInvalidMember(v: JValue) {
    match v
    case Arr(items) => forall i :: 0 <= i < |items| ==> NoInvalidMember(items[i])
    case Obj(m) => forall k :: k in m ==> m[k] != Invalid && NoInvalidMember(m[k])
    case _ => true
  }

  lemma KeysOfEqualSize<K, V>(m: map<K, V>, n: map<K, V>)
    requires |m| == |n| && m.Keys <= n.Keys
    ensures m.Keys == n.Keys
  {
    SubsetOfEqualSize(m.Keys, n.Keys);
  }

  lemma {:induction false} SubsetOfEqualSize<K>(a: set<K>, b: set<K>)
    requires a <= b && |a| == |b|
    ensures a == b
  {
    if a != {} {
      var x :| x in a;
      SubsetOfEqualSize(a - {x}, b - {x});
    }
  }

  /** Sharing the same data may answer "same" without looking. */
  lemma {:induction false} Reflexive(round: Rounding, a: JValue)
    ensures Same(round, a, a)
  {
    match a {
      case Arr(x) => forall i | 0 <= i < |x| ensures Same(round, x[i], x[i]) { Reflexive(round, x[i]); }
      case Obj(m) => forall k | k in m ensures Same(round, m[k], Lookup(m, k)) { Reflexive(round, m[k]); }
      case _ =>
    }
  }

  /** Main result: without invalid members, and with a rounding that confuses no two integers, the comparison
      is structural equality of the numbers, texts and containers the two values denote. */
  lemma {:induction false} SameIsEquality(round: Rounding, a: JValue, b: JValue)
    requires Exact(round) && In64Bits(a) && In64Bits(b) && NoInvalidMember(a)
    ensures Same(round, a, b) <==> Math(round, a) == Math(round, b)
    decreases a
  {
    if a.Arr? && b.Arr? {
      var x, y, s, t := a.items, b.items, Math(round, a).items, Math(round, b).items;
      if |x| == |y| {
        forall i | 0 <= i < |x| ensures Same(round, x[i], y[i]) <==> s[i] == t[i] {
          SameIsEquality(round, x[i], y[i]);
        }
      }
    } else if a.Obj? && b.Obj? {
      forall k | k in a.members && k in b.members
        ensures Same(round, a.members[k], b.members[k])
          <==> Math(round, a.members[k]) == Math(round, b.members[k])
      {
        SameIsEquality(round, a.members[k], b.members[k]);
      }
      SameMembers(round, a.members, b.members);
    }
  }

  lemma SameMembers(round: Rounding, m: map<Text, JValue>, n: map<Text, JValue>)
    requires forall k :: k in m ==> m[k] != Invalid
    requires forall k :: k in m && k in n ==> (Same(round, m[k], n[k]) <==> Math(round, m[k]) == Math(round, n[k]))
    ensures Same(round, Obj(m), Obj(n)) <==> Math(round, Obj(m)) == Math(round, Obj(n))
  {
    if Same(round, Obj(m), Obj(n)) {
      SameGivesEqual(round, m, n);
    }
    if Math(round, Obj(m)) == Math(round, Obj(n)) {
      EqualGivesSame(round, m, n);
    }
  }

  lemma MathMembers(round: Rounding, m: map<Text, JValue>)
    ensures Math(round, Obj(m)).Obj? && Math(round, Obj(m)).members.Keys == m.Keys
    ensures forall k :: k in m ==> Math(round, Obj(m)).members[k] == Math(round, m[k])
  {
  }

  lemma SameGivesEqual(round: Rounding, m: map<Text, JValue>, n: map<Text, JValue>)
    requires forall k :: k in m ==> m[k] != Invalid
    requires forall k :: k in m && k in n ==> (Same(round, m[k], n[k]) <==> Math(round, m[k]) == Math(round, n[k]))
    requires Same(round, Obj(m), Obj(n))
    ensures Math(round, Obj(m)) == Math(round, Obj(n))
  {
    MathMembers(round, m);
    MathMembers(round, n);
    assert |m| == |n| && forall k :: k in m ==> Same(round, m[k], Lookup(n, k));
    hide Same, Math;
    forall k | k in m ensures k in n {
      InvalidIsAlone(round, m[k], Lookup(n, k));
    }
    KeysOfEqualSize(m, n);
    SameMap(Math(round, Obj(m)).members, Math(round, Obj(n)).members);
  }

  lemma SameMap(s: map<Text, JValue>, t: map<Text, JValue>)
    requires s.Keys == t.Keys && forall k :: k in s.Keys ==> s[k] == t[k]
    ensures s == t
  {
  }

  lemma EqualGivesSame(round: Rounding, m: map<Text, JValue>, n: map<Text, JValue>)
    requires forall k :: k in m && k in n ==> (Same(round, m[k], n[k]) <==> Math(round, m[k]) == Math(round, n[k]))
    requires Math(round, Obj(m)) == Math(round, Obj(n))
    ensures Same(round, Obj(m), Obj(n))
  {
    MathMembers(round, m);
    MathMembers(round, n);
    assert m.Keys == n.Keys;
    assert |m| == |m.Keys| && |n| == |n.Keys|;
    forall k | k in m ensures Same(round, m[k], Lookup(n, k)) {
      assert k in n;
    }
  }

  lemma InvalidIsAlone(round: Rounding, a: JValue, b: JValue)
    requires Same(round, a, b)
    ensures a == Invalid <==> b == Invalid
  {
  }

  /** No double anywhere in the tree. */
  ghost predicate NoDouble(v: JValue) {
    match v
    case Arr(items) => forall i :: 0 <= i < |items| ==> NoDouble(items[i])
    case Obj(m) => forall k :: k in m ==> NoDouble(m[k])
    case Double(_) => false
    case _ => true
  }

  /** Without doubles the rounding plays no part, so the exact one may stand for it. */
  lemma {:induction false} RoundingIsIdle(r0: Rounding, r1: Rounding, a: JValue, b: JValue)
    requires NoDouble(a) && NoDouble(b)
    ensures Same(r0, a, b) <==> Same(r1, a, b)
    decreases a
  {
    if a.Arr? && b.Arr? {
      var x, y := a.items, b.items;
      if |x| == |y| {
        forall i | 0 <= i < |x| ensures Same(r0, x[i], y[i]) <==> Same(r1, x[i], y[i]) {
          RoundingIsIdle(r0, r1, x[i], y[i]);
        }
      }
    } else if a.Obj? && b.Obj? {
      var m, n := a.members, b.members;
      forall k | k in m ensures Same(r0, m[k], Lookup(n, k)) <==> Same(r1, m[k], Lookup(n, k)) {
        RoundingIsIdle(r0, r1, m[k], Lookup(n, k));
      }
    }
  }

  /** What the next two results range over. */
  ghost predicate Comparable(v: JValue) {
    In64Bits(v) && NoInvalidMember(v)
  }

  /** The comparison is an equivalence on the trees the reader builds from integers, texts and containers. */
  lemma Equivalence(round: Rounding, a: JValue, b: JValue, c: JValue)
    requires Comparable(a) && Comparable(b) && Comparable(c)
    requires NoDouble(a) && NoDouble(b) && NoDouble(c)
    ensures Same(round, a, a)
    ensures Same(round, a, b) ==> Same(round, b, a)
    ensures Same(round, a, b) && Same(round, b, c) ==> Same(round, a, c)
  {
    var r: Rounding := i => i as real;
    RoundingIsIdle(round, r, a, a); RoundingIsIdle(round, r, a, b); RoundingIsIdle(round, r, b, a);
    RoundingIsIdle(round, r, b, c); RoundingIsIdle(round, r, a, c);
    ExactEquivalence(r, a, b, c);
  }

  lemma ExactEquivalence(round: Rounding, a: JValue, b: JValue, c: JValue)
    requires Comparable(a) && Comparable(b) && Comparable(c) && Exact(round)
    ensures Same(round, a, a)
    ensures Same(round, a, b) ==> Same(round, b, a)
    ensures Transitive(round, a, b, c)
  {
    hide Same, Math, In64Bits, NoInvalidMember, Exact;
    SameIsEquality(round, a, a);
    SameIsEquality(round, a, b);
    SameIsEquality(round, b, a);
    SameIsEquality(round, b, c);
    SameIsEquality(round, a, c);
  }

  ghost predicate Transitive(round: Rounding, a: JValue, b: JValue, c: JValue) {
    Same(round, a, b) && Same(round, b, c) ==> Same(round, a, c)
  }

  /** Transitivity over integers and doubles together is exactly the absence of rounding, which 64-bit integers
      converted to doubles do not have. */
  lemma TransitiveIffExact(round: Rounding)
    ensures Exact(round) <==>
      (forall a, b, c :: Comparable(a) && Comparable(b) && Comparable(c) ==> Transitive(round, a, b, c))
  {
    if Exact(round) {
      forall a, b, c | Comparable(a) && Comparable(b) && Comparable(c) ensures Transitive(round, a, b, c) {
        ExactEquivalence(round, a, b, c);
      }
    } else {
      var i, j :| -TWO63 <= i < TWO64 && -TWO63 <= j < TWO64 && round(i) == round(j) && i != j;
      var a, b, c := IntNumber(i), Double(round(i)), IntNumber(j);
      assert Comparable(a) && Comparable(b) && Comparable(c);
      assert Same(round, a, b) && Same(round, b, c) && !Same(round, a, c);
      assert !Transitive(round, a, b, c);
    }
  }

  function IntNumber(i: int): JValue {
    if i < TWO63 then Int(i) else UInt(i)
  }

  /** A name no member carries. */
  lemma {:induction false} FreshName(names: set<Text>) returns (k: Text)
    ensures forall x :: x in names ==> |x| < |k|
  {
    if names == {} {
      k := [0];
    } else {
      var x :| x in names;
      var l := FreshName(names - {x});
      k := if |x| < |l| then l else x + [0];
      assert forall y :: y in names ==> y == x || y in names - {x};
    }
  }

  /** Symmetry fails for exactly the trees with an invalid member: such a tree is "the same as" one that is not
      the same as it. */
  lemma {:induction false} AsymmetricWitness(round: Rounding, a: JValue) returns (b: JValue)
    requires !NoInvalidMember(a)
    ensures Same(round, a, b) && !Same(round, b, a)
    decreases a
  {
    if a.Arr? {
      var x := a.items;
      var i :| 0 <= i < |x| && !NoInvalidMember(x[i]);
      var y := AsymmetricWitness(round, x[i]);
      b := Arr(x[i := y]);
      forall j | 0 <= j < |x| ensures Same(round, x[j], b.items[j]) {
        if j != i { Reflexive(round, x[j]); }
      }
      assert !Same(round, b.items[i], x[i]);
    } else {
      var m := a.members;
      var k :| k in m && (m[k] == Invalid || !NoInvalidMember(m[k]));
      if m[k] == Invalid {
        b := RenamedWitness(round, m, k);
      } else {
        var y := AsymmetricWitness(round, m[k]);
        b := ReplacedWitness(round, m, k, y);
      }
    }
  }

  lemma ReplacedWitness(round: Rounding, m: map<Text, JValue>, k: Text, y: JValue) returns (b: JValue)
    requires k in m && Same(round, m[k], y) && !Same(round, y, m[k])
    ensures Same(round, Obj(m), b) && !Same(round, b, Obj(m))
  {
    hide Same;
    var n := m[k := y];
    b := Obj(n);
    PutsAgree(round, m, k, m[k], y);
    assert m[k := m[k]] == m;
    DifferentMember(round, n, m, k);
  }

  lemma PutsAgree(round: Rounding, n: map<Text, JValue>, k: Text, x: JValue, z: JValue)
    requires k in n && Same(round, x, z)
    ensures Same(round, Obj(n[k := x]), Obj(n[k := z]))
  {
    var m, p := n[k := x], n[k := z];
    hide Same;
    forall j | j in m ensures Same(round, m[j], p[j]) { if j != k { Reflexive(round, n[j]); } }
    SameMemberwise(round, m, p);
  }

  /** The map m with its member k replaced by x under the name l. */
  function Renamed(m: map<Text, JValue>, k: Text, l: Text, x: JValue): (n: map<Text, JValue>)
    requires k in m && l !in m
    ensures n.Keys == m.Keys - {k} + {l}
    ensures forall j :: j in m && j != k ==> n[j] == m[j]
    ensures n[l] == x
  {
    (map j | j in m && j != k :: m[j])[l := x]
  }

  lemma RenamedSize(m: map<Text, JValue>, k: Text, l: Text, x: JValue)
    requires k in m && l !in m
    ensures |Renamed(m, k, l, x)| == |m|
  {
    var n := Renamed(m, k, l, x);
    assert |n| == |n.Keys| && |m| == |m.Keys|;
    assert |m.Keys - {k}| == |m.Keys| - 1 && |m.Keys - {k} + {l}| == |m.Keys|;
  }

  /** A name missing on the right is as good as the invalid member itself, whatever stands in its place. */
  lemma RenamedIsSame(round: Rounding, m: map<Text, JValue>, k: Text, l: Text, x: JValue)
    requires k in m && m[k] == Invalid && l !in m
    ensures Same(round, Obj(m), Obj(Renamed(m, k, l, x)))
    ensures In64Bits(Obj(m)) && In64Bits(x) ==> In64Bits(Obj(Renamed(m, k, l, x)))
  {
    var n := Renamed(m, k, l, x);
    RenamedSize(m, k, l, x);
    forall j | j in m ensures Same(round, m[j], Lookup(n, j)) {
      if j != k {
        Reflexive(round, m[j]);
      } else {
        assert Lookup(n, k) == Invalid;
      }
    }
  }

  lemma SameRenamed(round: Rounding, m: map<Text, JValue>, k: Text, l: Text)
    requires k in m && m[k] == Invalid && l !in m
    ensures Same(round, Obj(Renamed(m, k, l, Invalid)), Obj(m))
    ensures In64Bits(Obj(m)) ==> In64Bits(Obj(Renamed(m, k, l, Invalid)))
  {
    var n := Renamed(m, k, l, Invalid);
    RenamedSize(m, k, l, Invalid);
    forall j | j in n ensures Same(round, n[j], Lookup(m, j)) {
      if j != l {
        Reflexive(round, m[j]);
      } else {
        assert Lookup(m, l) == Invalid;
      }
    }
  }

  lemma RenamedWitness(round: Rounding, m: map<Text, JValue>, k: Text) returns (b: JValue)
    requires k in m && m[k] == Invalid
    ensures Same(round, Obj(m), b) && !Same(round, b, Obj(m))
  {
    var l := FreshName(m.Keys);
    assert l !in m;
    var n := Renamed(m, k, l, Null);
    b := Obj(n);
    RenamedIsSame(round, m, k, l, Null);
    DifferentMember(round, n, m, l);
  }

  lemma {:induction false} SymmetricFrom(round: Rounding, a: JValue, b: JValue)
    requires NoInvalidMember(a) && Same(round, a, b)
    ensures Same(round, b, a)
    decreases a
  {
    if a.Arr? && b.Arr? {
      forall i | 0 <= i < |a.items| ensures Same(round, b.items[i], a.items[i]) {
        SymmetricFrom(round, a.items[i], b.items[i]);
      }
    } else if a.Obj? && b.Obj? {
      var m, n := a.members, b.members;
      forall k | k in m ensures k in n && Same(round, n[k], m[k]) {
        InvalidIsAlone(round, m[k], Lookup(n, k));
        SymmetricFrom(round, m[k], n[k]);
      }
      KeysOfEqualSize(m, n);
    }
  }

  /** The exact condition for symmetry. */
  lemma SymmetricIffNoInvalidMember(round: Rounding, a: JValue)
    ensures NoInvalidMember(a) <==> forall b :: Same(round, a, b) ==> Same(round, b, a)
  {
    if NoInvalidMember(a) {
      forall b | Same(round, a, b) ensures Same(round, b, a) { SymmetricFrom(round, a, b); }
    } else {
      var b := AsymmetricWitness(round, a);
    }
  }

  /** At most one 64-bit integer, signed or unsigned, is converted to the double d. */
  ghost predicate OneSource(round: Rounding, d: real) {
    forall i, j :: -TWO63 <= i < TWO64 && -TWO63 <= j < TWO64 && round(i) == d && round(j) == d ==> i == j
  }

  /** Every double in the tree stands for at most one 64-bit integer. */
  ghost predicate Unambiguous(round: Rounding, v: JValue) {
    match v
    case Double(d) => OneSource(round, d)
    case Arr(items) => forall i :: 0 <= i < |items| ==> Unambiguous(round, items[i])
    case Obj(m) => forall k :: k in m ==> Unambiguous(round, m[k])
    case _ => true
  }

  /** Two numbers that are the same as a third are the same, if the third is no double of two integers. */
  lemma NumbersAgree(round: Rounding, a: JValue, b: JValue, c: JValue)
    requires In64Bits(a) && In64Bits(b) && In64Bits(c) && Unambiguous(round, b)
    requires !b.Arr? && !b.Obj? && Same(round, a, b) && Same(round, b, c)
    ensures Same(round, a, c)
  {
    match b {
      case Double(d) => assert OneSource(round, d);
      case _ =>
    }
  }

  lemma {:induction false} TransitiveThrough(round: Rounding, a: JValue, b: JValue, c: JValue)
    requires In64Bits(a) && In64Bits(b) && In64Bits(c)
    requires NoInvalidMember(b) && Unambiguous(round, b)
    requires Same(round, a, b) && Same(round, b, c)
    ensures Same(round, a, c)
    decreases b
  {
    match b {
      case Arr(y) =>
        forall i | 0 <= i < |y| ensures Same(round, a.items[i], c.items[i]) {
          TransitiveThrough(round, a.items[i], y[i], c.items[i]);
        }
      case Obj(n) =>
        MembersThrough(round, n, c.members);
        forall k | k in a.members ensures Same(round, a.members[k], Lookup(c.members, k)) {
          if k in n { TransitiveThrough(round, a.members[k], n[k], c.members[k]); }
        }
      case _ => NumbersAgree(round, a, b, c);
    }
  }

  lemma MembersThrough(round: Rounding, n: map<Text, JValue>, p: map<Text, JValue>)
    requires NoInvalidMember(Obj(n)) && Same(round, Obj(n), Obj(p))
    ensures n.Keys == p.Keys
  {
    forall k | k in n ensures k in p { InvalidIsAlone(round, n[k], Lookup(p, k)); }
    KeysOfEqualSize(n, p);
  }

  /** Two values that a tree with an invalid member or with a double of two integers is the same as, without
      their being the same. */
  lemma {:induction false} IntransitiveWitness(round: Rounding, b: JValue) returns (a: JValue, c: JValue)
    requires In64Bits(b) && !(NoInvalidMember(b) && Unambiguous(round, b))
    ensures In64Bits(a) && In64Bits(c) && !Transitive(round, a, b, c)
    ensures NoInvalidMember(b) ==> NoInvalidMember(a) && NoInvalidMember(c)
    decreases b
  {
    if b.Double? {
      var i, j :| -TWO63 <= i < TWO64 && -TWO63 <= j < TWO64 && round(i) == b.d && round(j) == b.d && i != j;
      a, c := IntNumber(i), IntNumber(j);
    } else if b.Arr? {
      var y := b.items;
      var i :| 0 <= i < |y| && !(NoInvalidMember(y[i]) && Unambiguous(round, y[i]));
      var x, z := IntransitiveWitness(round, y[i]);
      a, c := ItemBetween(round, y, i, x, z);
    } else {
      var n := b.members;
      var k :| k in n && (n[k] == Invalid || !(NoInvalidMember(n[k]) && Unambiguous(round, n[k])));
      if n[k] == Invalid {
        a, c := InvalidBetween(round, n, k);
      } else {
        var x, z := IntransitiveWitness(round, n[k]);
        a, c := ReplacedBetween(round, n, k, x, z);
      }
    }
  }

  lemma ItemBetween(round: Rounding, y: seq<JValue>, i: nat, x: JValue, z: JValue) returns (a: JValue, c: JValue)
    requires In64Bits(Arr(y)) && In64Bits(x) && In64Bits(z)
    requires i < |y| && !Transitive(round, x, y[i], z)
    ensures In64Bits(a) && In64Bits(c) && !Transitive(round, a, Arr(y), c)
    ensures NoInvalidMember(Arr(y)) && NoInvalidMember(x) && NoInvalidMember(z)
      ==> NoInvalidMember(a) && NoInvalidMember(c)
  {
    var s, t := y[i := x], y[i := z];
    a, c := Arr(s), Arr(t);
    forall j | 0 <= j < |y| ensures Same(round, s[j], y[j]) && Same(round, y[j], t[j]) {
      if j != i { Reflexive(round, y[j]); }
    }
    assert !Same(round, s[i], t[i]);
  }

  lemma ReplacedBetween(round: Rounding, n: map<Text, JValue>, k: Text, x: JValue, z: JValue)
    returns (a: JValue, c: JValue)
    requires In64Bits(Obj(n)) && In64Bits(x) && In64Bits(z)
    requires k in n && n[k] != Invalid && !Transitive(round, x, n[k], z)
    ensures In64Bits(a) && In64Bits(c) && !Transitive(round, a, Obj(n), c)
    ensures NoInvalidMember(Obj(n)) && NoInvalidMember(x) && NoInvalidMember(z)
      ==> NoInvalidMember(a) && NoInvalidMember(c)
  {
    assert Same(round, x, n[k]) && Same(round, n[k], z) && !Same(round, x, z);
    hide *;
    InvalidIsAlone(round, x, n[k]);
    InvalidIsAlone(round, n[k], z);
    a, c := Obj(n[k := x]), Obj(n[k := z]);
    PutFits(n, k, x);
    PutFits(n, k, z);
    PutsBetween(round, n, k, x, z);
  }

  lemma PutsBetween(round: Rounding, n: map<Text, JValue>, k: Text, x: JValue, z: JValue)
    requires k in n && Same(round, x, n[k]) && Same(round, n[k], z) && !Same(round, x, z)
    ensures !Transitive(round, Obj(n[k := x]), Obj(n), Obj(n[k := z]))
  {
    hide Same;
    PutsAgree(round, n, k, x, n[k]);
    PutsAgree(round, n, k, n[k], z);
    assert n[k := n[k]] == n;
    DifferentMember(round, n[k := x], n[k := z], k);
  }

  lemma PutFits(n: map<Text, JValue>, k: Text, x: JValue)
    requires k in n && In64Bits(Obj(n)) && In64Bits(x)
    ensures In64Bits(Obj(n[k := x]))
    ensures NoInvalidMember(Obj(n)) && x != Invalid && NoInvalidMember(x) ==> NoInvalidMember(Obj(n[k := x]))
  {
  }

  lemma SameMemberwise(round: Rounding, m: map<Text, JValue>, n: map<Text, JValue>)
    requires m.Keys == n.Keys && forall k :: k in m ==> Same(round, m[k], n[k])
    ensures Same(round, Obj(m), Obj(n))
  {
    assert |m| == |m.Keys| && |n| == |n.Keys|;
    assert forall k :: k in m ==> Lookup(n, k) == n[k];
  }

  lemma DifferentMember(round: Rounding, m: map<Text, JValue>, n: map<Text, JValue>, k: Text)
    requires k in m && !Same(round, m[k], Lookup(n, k))
    ensures !Same(round, Obj(m), Obj(n))
  {
  }

  /** The invalid member under another name is the same as under its own, and that as a null of the other name. */
  lemma InvalidBetween(round: Rounding, n: map<Text, JValue>, k: Text) returns (a: JValue, c: JValue)
    requires In64Bits(Obj(n)) && k in n && n[k] == Invalid
    ensures In64Bits(a) && In64Bits(c) && !Transitive(round, a, Obj(n), c)
  {
    var l := FreshName(n.Keys);
    assert l !in n;
    assert !Same(round, Invalid, Null) && In64Bits(Invalid) && In64Bits(Null);
    hide Same, In64Bits;
    var p, m := Renamed(n, k, l, Null), Renamed(n, k, l, Invalid);
    a, c := Obj(m), Obj(p);
    RenamedIsSame(round, n, k, l, Null);
    SameRenamed(round, n, k, l);
    DifferentMember(round, m, p, l);
  }

  /** The exact condition for transitivity, tree by tree: the value in the middle has no invalid member and no
      double that stands for two 64-bit integers. The second half says the same among comparable trees. */
  lemma TransitiveExactlyThrough(round: Rounding, b: JValue)
    requires In64Bits(b)
    ensures NoInvalidMember(b) && Unambiguous(round, b) <==>
      (forall a, c :: In64Bits(a) && In64Bits(c) ==> Transitive(round, a, b, c))
    ensures Comparable(b) ==>
      (Unambiguous(round, b) <==>
        (forall a, c :: Comparable(a) && Comparable(c) ==> Transitive(round, a, b, c)))
  {
    hide Same, In64Bits, NoInvalidMember, Unambiguous;
    if NoInvalidMember(b) && Unambiguous(round, b) {
      forall a, c | In64Bits(a) && In64Bits(c) ensures Transitive(round, a, b, c) {
        if Same(round, a, b) && Same(round, b, c) { TransitiveThrough(round, a, b, c); }
      }
    } else {
      var a, c := IntransitiveWitness(round, b);
    }
  }

  const TWO53: int := 0x20_0000_0000_0000

  /** What the conversion to doubles of 53 bits is known for: small integers are exact, and it keeps the order. */
  ghost predicate KeepsSmall(round: Rounding) {
    && (forall i :: -TWO53 <= i <= TWO53 ==> round(i) == i as real)
    && (forall i, j :: i <= j ==> round(i) <= round(j))
  }

  /** Every double in the tree is smaller than 2^53 in absolute value. */
  ghost predicate SmallDoubles(v: JValue) {
    match v
    case Double(d) => -(TWO53 as real) < d < TWO53 as real
    case Arr(items) => forall i :: 0 <= i < |items| ==> SmallDoubles(items[i])
    case Obj(m) => forall k :: k in m ==> SmallDoubles(m[k])
    case _ => true
  }

  /** Trees with small doubles are safe in the middle. */
  lemma {:induction false} SmallIsUnambiguous(round: Rounding, v: JValue)
    requires KeepsSmall(round) && SmallDoubles(v)
    ensures Unambiguous(round, v)
  {
    match v {
      case Double(d) =>
        forall i | round(i) == d ensures -TWO53 < i < TWO53 {
          assert round(TWO53) == TWO53 as real && round(-TWO53) == (-TWO53) as real;
        }
      case Arr(x) => forall i | 0 <= i < |x| ensures Unambiguous(round, x[i]) { SmallIsUnambiguous(round, x[i]); }
      case Obj(m) => forall k | k in m ensures Unambiguous(round, m[k]) { SmallIsUnambiguous(round, m[k]); }
      case _ =>
    }
  }

  /** The bound is sharp: a conversion to 53 bits takes 2^53 + 1 to 2^53, the double between the two. */
  lemma IntransitiveAt53Bits(round: Rounding)
    requires KeepsSmall(round) && round(TWO53 + 1) == TWO53 as real
    ensures Comparable(Int(TWO53)) && Comparable(Double(TWO53 as real)) && Comparable(Int(TWO53 + 1))
    ensures Same(round, Int(TWO53), Double(TWO53 as real))
    ensures Same(round, Double(TWO53 as real), Int(TWO53 + 1))
    ensures !Same(round, Int(TWO53), Int(TWO53 + 1))
    ensures !Unambiguous(round, Double(TWO53 as real))
  {
    assert round(TWO53) == TWO53 as real;
    assert !OneSource(round, TWO53 as real);
  }
}
