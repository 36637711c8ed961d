/** The reader's own 64-bit decimal conversion (apps/jsonreader.cpp, DoStrto_ll and its two callers). */
module Decimal {
  import opened Bytes

  datatype Option<+T> = None | Some(value: T)

  const TWO63: int := 0x8000_0000_0000_0000
  const TWO64: int := 0x1_0000_0000_0000_0000

  /** The first numeral the overflow check rejects: the last digit of the limit is never compared. */
  const FIRST_REJECTED: int := 18446744073709551620

  const SPACE_SIGN: Byte := 32

  ghost predicate AllDigits(s: seq<Byte>) {
    forall i :: 0 <= i < |s| ==> IsDigit(s[i])
  }

  /** The number a string of decimal digits denotes, most significant digit first. */
  ghost function Value(ds: seq<Byte>): (v: int)
    requires AllDigits(ds)
    ensures v >= 0
  {
    if ds == [] then 0 else 10 * Value(ds[..|ds| - 1]) + (ds[|ds| - 1] - 48)
  }

  predicate HasSign(s: seq<Byte>) {
    s != [] && (s[0] == PLUS || s[0] == MINUS)
  }

  /** The string without its optional sign. */
  function Unsigned(s: seq<Byte>): seq<Byte> {
    if HasSign(s) then s[1..] else s
  }

  function Sign(s: seq<Byte>): Byte {
    if HasSign(s) then s[0] else SPACE_SIGN
  }

  /** What the conversion accepts, said in numbers. */
  ghost predicate Accepts(s: seq<Byte>) {
    && |Unsigned(s)| <= 20
    && AllDigits(Unsigned(s))
    && Value(Unsigned(s)) < FIRST_REJECTED
  }

  ghost function Pow10(n: nat): (p: int)
    ensures p >= 1
  {
    if n == 0 then 1 else 10 * Pow10(n - 1)
  }

  /** The table of powers indexed by `exponent`. */
  const POWER10: seq<int> := [
    1, 10, 100, 1000, 10000, 100000, 1000000, 10000000, 100000000, 1000000000,
    10000000000, 100000000000, 1000000000000, 10000000000000, 100000000000000,
    1000000000000000, 10000000000000000, 100000000000000000, 1000000000000000000, 10000000000000000000]

  /** The digits of 18446744073709551615, the largest unsigned 64-bit number. */
  const ULONG_MAX: seq<Byte> := [49, 56, 52, 52, 54, 55, 52, 52, 48, 55, 51, 55, 48, 57, 53, 53, 49, 54, 49, 53]

  lemma Power10Table(n: nat)
    requires n < 20
    ensures |POWER10| == 20 && POWER10[n] == Pow10(n)
    decreases n
  {
    if n > 0 {
      Power10Table(n - 1);
      Power10Step(n - 1);
    }
  }

  lemma Power10Step(n: nat)
    requires n < 19
    ensures POWER10[n + 1] == 10 * POWER10[n]
  {
  }

  lemma {:induction false} ValueBound(ds: seq<Byte>)
    requires AllDigits(ds)
    ensures Value(ds) < Pow10(|ds|)
  {
    if ds != [] {
      ValueBound(ds[..|ds| - 1]);
    }
  }

  /** Reading a digit string from its least significant end. */
  lemma {:induction false} ValueCons(d: Byte, ds: seq<Byte>)
    requires IsDigit(d) && AllDigits(ds)
    ensures AllDigits([d] + ds)
    ensures Value([d] + ds) == (d - 48) * Pow10(|ds|) + Value(ds)
  {
    if ds == [] {
      assert [d] + ds == [d];
      assert [d][..0] == [];
    } else {
      var init := ds[..|ds| - 1];
      ValueCons(d, init);
      assert ([d] + ds)[..|ds|] == [d] + init;
      assert (d - 48) * Pow10(|ds|) == 10 * ((d - 48) * Pow10(|init|));
    }
  }

  /** Digit strings of one length compare as numbers by their first difference. */
  lemma {:induction false} LexLess(a: seq<Byte>, b: seq<Byte>, j: nat)
    requires AllDigits(a) && AllDigits(b) && |a| == |b|
    requires j < |a| && a[..j] == b[..j] && a[j] < b[j]
    ensures Value(a) < Value(b)
  {
    var n := |a| - 1;
    if j == n {
      assert a[..n] == b[..n];
    } else {
      assert a[..n][..j] == a[..j] && b[..n][..j] == b[..j];
      LexLess(a[..n], b[..n], j);
    }
  }

  lemma UlongMaxPrefix()
    ensures AllDigits(ULONG_MAX[..19]) && Value(ULONG_MAX[..19]) == 1844674407370955161
  {
    var u := ULONG_MAX;
    UlongMaxStep(1); UlongMaxStep(2); UlongMaxStep(3); UlongMaxStep(4); UlongMaxStep(5); UlongMaxStep(6);
    UlongMaxStep(7); UlongMaxStep(8); UlongMaxStep(9); UlongMaxStep(10); UlongMaxStep(11); UlongMaxStep(12);
    UlongMaxStep(13); UlongMaxStep(14); UlongMaxStep(15); UlongMaxStep(16); UlongMaxStep(17); UlongMaxStep(18);
    UlongMaxStep(19);
    assert u[..0] == [];
  }

  lemma UlongMaxStep(n: nat)
    requires 0 < n <= 20
    ensures AllDigits(ULONG_MAX[..n]) && AllDigits(ULONG_MAX[..n - 1])
    ensures Value(ULONG_MAX[..n]) == 10 * Value(ULONG_MAX[..n - 1]) + (ULONG_MAX[n - 1] - 48)
  {
    assert ULONG_MAX[..n][..n - 1] == ULONG_MAX[..n - 1];
  }

  /** What the prefix comparison decides, in numbers. */
  lemma PrefixDecides(ds: seq<Byte>, j: nat)
    requires |ds| == 20 && AllDigits(ds) && j <= 19 && ds[..j] == ULONG_MAX[..j]
    ensures j == 19 ==> Value(ds) < FIRST_REJECTED
    ensures j < 19 && ds[j] < ULONG_MAX[j] ==> Value(ds) < FIRST_REJECTED
    ensures j < 19 && ds[j] > ULONG_MAX[j] ==> Value(ds) >= FIRST_REJECTED
  {
    UlongMaxPrefix();
    var p, u := ds[..19], ULONG_MAX[..19];
    assert p[..j] == ds[..j] && u[..j] == ULONG_MAX[..j];
    assert Value(ds) == 10 * Value(p) + (ds[19] - 48);
    if j == 19 {
      assert p == u;
    } else if ds[j] < ULONG_MAX[j] {
      LexLess(p, u, j);
    } else if ds[j] > ULONG_MAX[j] {
      LexLess(u, p, j);
    }
  }

  /** The first text that is taken for another number: 18446744073709551616, or 2^64, is read as zero. */
  lemma TwoTo64IsZero()
    ensures var t := ULONG_MAX[..19] + [54];
      AllDigits(t) && Value(t) == TWO64 && Signed(t) == Some(0) && UnsignedResult(t) == Some(0)
  {
    var t := ULONG_MAX[..19] + [54];
    UlongMaxPrefix();
    assert t[..19] == ULONG_MAX[..19];
    assert AllDigits(t) && Value(t) == 10 * Value(t[..19]) + 6;
    assert Unsigned(t) == t && Sign(t) == SPACE_SIGN;
  }

  lemma ModAdd(a: int, b: int)
    ensures (a % TWO64 + b % TWO64) % TWO64 == (a + b) % TWO64
    ensures (a % TWO64 + b) % TWO64 == (a + b) % TWO64
  {
  }

  lemma NoDigits()
    ensures AllDigits([]) && Value([]) == 0
  {
  }

  /** The conversion itself: `ok` is its result, `ui64` and `sign` its two out-pointers. */
  method DoStrtoLl(str: seq<Byte>) returns (ok: bool, ui64: int, sign: Byte)
    ensures ok <==> Accepts(str)
    ensures ok ==> ui64 == Value(Unsigned(str)) % TWO64
    ensures sign == Sign(str)
  {
    hide Value, Pow10, AllDigits;
    var maxDigits := 20;
    sign := SPACE_SIGN;
    ui64 := 0;
    if |str| == 0 {
      NoDigits();
      return true, 0, sign;
    }
    var index := 0;
    if str[0] == PLUS || str[0] == MINUS {
      sign := str[0];
      index := 1;
      maxDigits := maxDigits + 1;
    }
    ghost var ds := Unsigned(str);
    assert ds == str[index..];
    if |str| > maxDigits {
      return false, 0, sign;
    }
    ghost var prefixOk := |ds| < 20;
    if |str| == maxDigits {
      var j := 0;
      var i := index;
      while i < |str| - 1
        invariant index <= i <= |str| - 1 && j == i - index
        invariant ds[..j] == ULONG_MAX[..j]
      {
        var ch := str[i];
        if ch < 48 || ch > 57 {
          NotADigit(ds, j);
          return false, 0, sign;
        }
        if ch > ULONG_MAX[j] {
          if AllDigits(ds) { PrefixDecides(ds, j); }
          return false, 0, sign;
        }
        if ch < ULONG_MAX[j] {
          break;
        }
        SamePrefix(ds, ULONG_MAX, j);
        j := j + 1;
        i := i + 1;
      }
      if AllDigits(ds) { PrefixDecides(ds, j); }
    } else if AllDigits(ds) {
      ValueBound(ds);
      Power10Small(|ds|);
    }
    assert AllDigits(ds) ==> Value(ds) < FIRST_REJECTED;
    ui64 := SumDigits(str, index);
    ok := ui64 >= 0;
  }

  lemma Power10Small(n: nat)
    requires n < 20
    ensures Pow10(n) < FIRST_REJECTED
  {
    Power10Table(n);
    assert forall i :: 0 <= i < |POWER10| ==> POWER10[i] < FIRST_REJECTED;
  }

  /** The step of the loop, from the digits after i to those from i on. */
  lemma OneDigitMore(str: seq<Byte>, i: nat, exponent: nat)
    requires i < |str| && AllDigits(str[i + 1..]) && IsDigit(str[i]) && exponent == |str| - i - 1 && exponent < 20
    ensures AllDigits(str[i..])
    ensures (Value(str[i + 1..]) % TWO64 + (str[i] - 48) * POWER10[exponent]) % TWO64 == Value(str[i..]) % TWO64
  {
    hide AllDigits, Value, Pow10;
    Power10Table(exponent);
    ValueCons(str[i], str[i + 1..]);
    FromHere(str, i);
    ModAdd(Value(str[i + 1..]), (str[i] - 48) * Pow10(exponent));
  }

  lemma FromHere(str: seq<Byte>, i: nat)
    requires i < |str|
    ensures str[i..] == [str[i]] + str[i + 1..] && |str[i + 1..]| == |str| - i - 1
  {
  }

  lemma SamePrefix(a: seq<Byte>, b: seq<Byte>, j: nat)
    requires j < |a| && j < |b| && a[..j] == b[..j] && a[j] == b[j]
    ensures a[..j + 1] == b[..j + 1]
  {
    assert a[..j + 1] == a[..j] + [a[j]] && b[..j + 1] == b[..j] + [b[j]];
  }

  lemma NotADigit(s: seq<Byte>, i: nat)
    requires i < |s| && !IsDigit(s[i])
    ensures !AllDigits(s)
  {
  }

  /** The accumulation loop: the digits from the last to the first, each times its power of ten. */
  method SumDigits(str: seq<Byte>, index: nat) returns (temp: int)
    requires index <= |str| <= index + 20
    ensures AllDigits(str[index..]) ==> temp == Value(str[index..]) % TWO64
    ensures !AllDigits(str[index..]) ==> temp == -1
  {
    temp := 0;
    var exponent := 0;
    var i := |str|;
    while i > index
      invariant index <= i <= |str| && exponent == |str| - i
      invariant AllDigits(str[i..]) && temp == Value(str[i..]) % TWO64
    {
      hide AllDigits, Value, Pow10;
      i := i - 1;
      var ch := str[i];
      if ch < 48 || ch > 57 {
        NotADigit(str[index..], i - index);
        return -1;
      }
      OneDigitMore(str, i, exponent);
      temp := (temp + (ch - 48) * POWER10[exponent]) % TWO64;
      exponent := exponent + 1;
    }
  }

  /** The signed result the reader stores, as a function of the text. */
  ghost function Signed(s: seq<Byte>): Option<int> {
    if !Accepts(s) then None
    else
      var u := Value(Unsigned(s)) % TWO64;
      if Sign(s) == MINUS then (if u > TWO63 then None else Some(-u))
      else (if u >= TWO63 then None else Some(u))
  }

  ghost function UnsignedResult(s: seq<Byte>): Option<nat> {
    if !Accepts(s) || Sign(s) == MINUS then None else Some(Value(Unsigned(s)) % TWO64)
  }

  method Strtoll(str: seq<Byte>) returns (r: Option<int>)
    ensures r == Signed(str)
  {
    var ok, ui64, sign := DoStrtoLl(str);
    if sign == MINUS {
      if ok && !(ui64 > TWO63) { return Some(-ui64); }
    } else {
      if ok && !(ui64 > TWO63 - 1) { return Some(ui64); }
    }
    return None;
  }

  method Strtoull(str: seq<Byte>) returns (r: Option<nat>)
    ensures r == UnsignedResult(str)
  {
    var ok, ui64, sign := DoStrtoLl(str);
    return if ok && sign != MINUS then Some(ui64) else None;
  }

  /** The number a signed numeral denotes. */
  ghost function Denoted(s: seq<Byte>): int
    requires AllDigits(Unsigned(s))
  {
    if Sign(s) == MINUS then -Value(Unsigned(s)) else Value(Unsigned(s))
  }

  /** The documented behaviour ("able to check numeric overflow") holds exactly below 2^64 on numerals of at
      most twenty digits; the four numbers from 2^64 to 2^64 + 3 are taken for 0 to 3, all others are refused. */
  lemma ConversionIsExact(s: seq<Byte>)
    requires AllDigits(Unsigned(s)) && |Unsigned(s)| <= 20
    ensures Signed(s) == Some(Denoted(s)) <==> -TWO63 <= Denoted(s) < TWO63
    ensures Value(Unsigned(s)) < TWO64 && !(-TWO63 <= Denoted(s) < TWO63) ==> Signed(s) == None
    ensures Sign(s) != MINUS ==> (UnsignedResult(s) == Some(Denoted(s)) <==> Denoted(s) < TWO64)
    ensures Sign(s) != MINUS && TWO64 <= Denoted(s) < TWO64 + 4 ==> UnsignedResult(s) == Some(Denoted(s) - TWO64)
    ensures Value(Unsigned(s)) >= TWO64 + 4 ==> Signed(s) == None && UnsignedResult(s) == None
  {
    var v := Value(Unsigned(s));
    if v < TWO64 {
      assert v % TWO64 == v;
    } else if v < FIRST_REJECTED {
      assert v % TWO64 == v - TWO64;
    }
  }

  /** The decimal digits of n, as printf writes them. */
  function Digits(n: nat): (ds: seq<Byte>)
    ensures ds != [] && AllDigits(ds) && Value(ds) == n
    ensures n > 0 ==> ds[0] != 48
    ensures n == 0 ==> ds == [48]
  {
    var last: Byte := 48 + n % 10;
    if n < 10 then
      assert [last][..0] == [];
      [last]
    else
      var ds := Digits(n / 10) + [last];
      assert ds[..|ds| - 1] == Digits(n / 10);
      ds
  }

  lemma {:induction false} DigitsAreShort(n: nat, k: nat)
    requires k > 0 && n < Pow10(k)
    ensures |Digits(n)| <= k
  {
    if n >= 10 {
      assert k > 1;
      DigitsAreShort(n / 10, k - 1);
    }
  }

  lemma SixtyFourBitsFit(n: nat)
    requires n < TWO64
    ensures |Digits(n)| <= 20
  {
    Power10Table(19);
    assert Pow10(20) == 10 * Pow10(19);
    DigitsAreShort(n, 20);
  }
}
