/** Multiplying by a power of a radix, and rounding the result: successive limb-size
  * multiplications or truncating divisions, with a sticky bit. */
module PowerScaling {
  import opened Limbs
  import opened Reciprocal
  import opened Rounding
  import opened BigNumber

  // ----- tables -----

  /** digits_per_limb_table: how many digits of a radix fit in a limb. */
  const DIGITS_PER_LIMB: seq<nat> :=
    [32, 20, 16, 13, 12, 11, 10, 10, 9, 9, 8, 8, 8, 8, 8, 7, 7, 7, 7, 7, 7, 7, 6, 6, 6, 6, 6, 6, 6, 6, 6, 6, 6, 6, 6]

  /** Powers of five up to 5^17, as pow5_table and pow5h_table give them. */
  const POW5: seq<nat> :=
    [0x5, 0x19, 0x7d, 0x271, 0xc35, 0x3d09, 0x1312d, 0x5f5e1, 0x1dcd65, 0x9502f9, 0x2e90edd, 0xe8d4a51, 0x48c27395,
     0x16bcc41e9, 0x71afd498d, 0x2386f26fc1, 0xb1a2bc2ec5]

  const POW5_INV: seq<limb> :=
    [0x99999999, 0x47ae147a, 0x0624dd2f, 0xa36e2eb1, 0x4f8b588e, 0x0c6f7a0b, 0xad7f29ab, 0x5798ee23,
     0x12e0be82, 0xb7cdfd9d, 0x5fd7fe17, 0x19799812, 0xc25c2684]

  function Digits(radix: nat): (d: nat)
    requires 2 <= radix <= 36
    ensures d >= 6
  {
    DIGITS_PER_LIMB[radix - 2]
  }

  lemma PowFive(b: nat)
    requires 1 <= b <= 17
    ensures POW5[b - 1] == Pow(5, b)
    decreases b
  {
    if b == 1 {
      assert Pow(5, 1) == 5 * Pow(5, 0);
    } else {
      PowFive(b - 1);
      assert POW5[b - 1] == 5 * POW5[b - 2];
    }
  }

  /** What radix1 can be: the odd part of a radix. */
  predicate OddRadix(radix1: nat) {
    1 <= radix1 <= 35 && radix1 % 2 == 1
  }

  /** Powers by squaring, quick to evaluate on given numbers. */
  function PowBin(r: nat, k: nat): nat {
    if k == 0 then 1 else
    var h := PowBin(r, k / 2);
    if k % 2 == 0 then h * h else r * (h * h)
  }

  lemma {:induction false} PowBinIs(r: nat, k: nat)
    ensures PowBin(r, k) == Pow(r, k)
  {
    if k > 0 {
      PowBinIs(r, k / 2);
      PowAdd(r, k / 2, k / 2);
    }
  }

  lemma DigitsTable0()
    ensures PowBin(3, 20) < B && PowBin(5, 13) < B && PowBin(7, 11) < B
  {
  }

  lemma DigitsTable1()
    ensures PowBin(9, 10) < B && PowBin(11, 9) < B && PowBin(13, 8) < B
  {
  }

  lemma DigitsTable2()
    ensures PowBin(15, 8) < B && PowBin(17, 7) < B && PowBin(19, 7) < B
  {
  }

  lemma DigitsTable3()
    ensures PowBin(21, 7) < B && PowBin(23, 7) < B && PowBin(25, 6) < B
  {
  }

  lemma DigitsTable4()
    ensures PowBin(27, 6) < B && PowBin(29, 6) < B && PowBin(31, 6) < B
  {
  }

  lemma DigitsTable5()
    ensures PowBin(33, 6) < B && PowBin(35, 6) < B
  {
  }

  lemma DigitsFit(radix1: nat)
    requires OddRadix(radix1) && radix1 != 1
    ensures Pow(radix1, Digits(radix1)) < B
  {
    hide Pow, PowBin;
    PowBinIs(radix1, Digits(radix1));
    if radix1 <= 7 { DigitsTable0(); }
    else if radix1 <= 13 { DigitsTable1(); }
    else if radix1 <= 19 { DigitsTable2(); }
    else if radix1 <= 25 { DigitsTable3(); }
    else if radix1 <= 31 { DigitsTable4(); }
    else { DigitsTable5(); }
  }

  lemma PowMono(b: nat, j: nat, k: nat)
    requires b >= 1 && j <= k
    ensures 1 <= Pow(b, j) <= Pow(b, k)
  {
    PowAdd(b, j, k - j);
    AtLeastOne(Pow(b, j), Pow(b, k - j));
  }

  lemma FewDigitsFit(radix1: nat, n: nat)
    requires OddRadix(radix1) && radix1 != 1 && n <= Digits(radix1)
    ensures 1 <= Pow(radix1, n) < B
  {
    DigitsFit(radix1);
    PowMono(radix1, n, Digits(radix1));
  }

  // ----- powers of a small base -----

  /** Number of significant bits. */
  function BitLen(b: nat): nat {
    if b == 0 then 0 else 1 + BitLen(b / 2)
  }

  lemma {:induction false} BitLenIs(b: nat)
    requires b >= 1
    ensures BitLen(b) >= 1 && b / Pow(2, BitLen(b) - 1) == 1
  {
    if b >= 2 {
      BitLenIs(b / 2);
      NestedDivide(b, 2, Pow(2, BitLen(b / 2) - 1));
      PowDouble(BitLen(b / 2) - 1);
    } else {
      assert BitLen(0) == 0;
    }
  }

  /** One more bit of the exponent. */
  lemma BitStep(b: nat, i: nat)
    requires i >= 1
    ensures b / Pow(2, i - 1) == 2 * (b / Pow(2, i)) + b / Pow(2, i - 1) % 2 <= b
  {
    NestedDivide(b, Pow(2, i - 1), 2);
    PowDouble(i - 1);
    QuotientAtMost(b, Pow(2, i - 1));
  }

  lemma QuotientAtMost(b: nat, p: nat)
    requires p >= 1
    ensures 0 <= b / p <= b
  {
    MulMono(1, p, b / p, b / p);
  }

  /** pow_ui: square and multiply from the top bit down; tables for 5 and 10. */
  method PowUi(a: nat, b: nat) returns (r: nat)
    requires 1 <= a < B && Pow(a, b) < BB
    ensures r == Pow(a, b)
  {
    hide Pow, BitLen;
    PowSmall(a);
    if b == 0 { return 1; }
    if b == 1 { return a; }
    if (a == 5 || a == 10) && b <= 17 {
      r := POW5[b - 1];
      PowFive(b);
      if a == 10 {
        PowTen(b);
        r := r * Pow(2, b) % BB;
        SmallRemainder(Pow(10, b));
      }
      return;
    }
    r := a;
    BitLenIs(b);
    var i: nat := BitLen(b) - 1;
    PowZero();
    PowPositive(2, i);
    ghost var half: nat := 1;
    while i > 0
      invariant Pow(2, i) > 0 && half == b / Pow(2, i) && r == Pow(a, half)
    {
      i := i - 1;
      BitStep(b, i + 1);
      PowPositive(2, i);
      PowAdd(a, half, half);
      PowMono(a, 2 * half, b);
      SmallRemainder(Pow(a, 2 * half));
      r := r * r % BB;
      if b / Pow(2, i) % 2 == 1 {
        PowMore(a, 2 * half);
        PowMono(a, 2 * half + 1, b);
        SmallRemainder(Pow(a, 2 * half + 1));
        r := r * a % BB;
      }
      half := b / Pow(2, i);
    }
    assert b / 1 == b;
  }

  lemma PowSmall(a: nat)
    ensures Pow(a, 0) == 1 && Pow(a, 1) == a
  {
    assert Pow(a, 1) == a * Pow(a, 0);
  }

  lemma PowZero()
    ensures Pow(2, 0) == 1
  {
  }

  lemma PowMore(a: nat, k: nat)
    ensures Pow(a, k + 1) == Pow(a, k) * a
  {
  }

  lemma SmallRemainder(x: nat)
    ensures x < BB ==> x % BB == x
  {
  }

  lemma {:induction false} PowTen(b: nat)
    ensures Pow(10, b) == Pow(5, b) * Pow(2, b)
  {
    if b > 0 {
      PowTen(b - 1);
      var x, y := Pow(5, b - 1), Pow(2, b - 1);
      assert 5 * x * (2 * y) == 10 * (x * y);
    }
  }

  /** Leading zeros of a limb. */
  function Clz(x: nat): nat
    requires x > 0
    decreases HALF - x
  {
    if x >= HALF then 0 else 1 + Clz(2 * x)
  }

  lemma {:induction false} ClzIs(x: nat)
    requires 0 < x < B
    ensures HALF <= x * Pow(2, Clz(x)) < B && Clz(x) <= 31
    decreases HALF - x
  {
    if x < HALF {
      ClzIs(2 * x);
      PowDouble(Clz(2 * x));
      MulAssoc(x, 2, Pow(2, Clz(2 * x)));
      PowTwo(31);
      TimesAtLeast(x, Pow(2, 32));
    }
  }

  lemma TimesAtLeast(x: nat, p: nat)
    requires x >= 1
    ensures x * p >= p
  {
  }

  /** The shift that brings the top bit to bit 31 is unique. */
  lemma ClzUnique(x: nat, s: nat)
    requires 0 < x < B && HALF <= x * Pow(2, s) < B
    ensures Clz(x) == s
    decreases s
  {
    if s > 0 {
      PowDouble(s - 1);
      MulAssoc(x, 2, Pow(2, s - 1));
      TimesAtLeast(Pow(2, s - 1), 2 * x);
      ClzUnique(2 * x, s - 1);
    }
  }

  /** pow_ui_inv: the power shifted up to fill a limb, and its reciprocal. */
  method PowUiInv(a: nat, b: nat) returns (r: limb, inv: limb, shift: nat)
    requires 1 <= a < B && Pow(a, b) < B
    ensures shift <= 31 && r == Pow(a, b) * Pow(2, shift) && r >= HALF && inv == Udiv1normInit(r)
  {
    hide Pow, Clz, Udiv1normInit;
    var p;
    PowMono(a, 0, b);
    PowSmall(a);
    if a == 5 && 1 <= b <= 13 {
      PowFive(b);
      p := POW5[b - 1];
    } else {
      p := PowUi(a, b);
    }
    ClzIs(p);
    shift := Clz(p);
    r := p * Pow(2, shift);
    if a == 5 && 1 <= b <= 13 {
      inv := POW5_INV[b - 1];
      InverseTable(b);
    } else {
      inv := Udiv1normInit(r);
    }
  }

  /** How far each power of five is shifted, and two to that power. */
  const POW5_SHIFT: seq<(nat, nat)> :=
    [(29, 0x20000000), (27, 0x8000000), (25, 0x2000000), (22, 0x400000), (20, 0x100000), (18, 0x40000), (15, 0x8000), (13, 0x2000), (11, 0x800), (8, 0x100), (6, 0x40), (4, 0x10), (1, 0x2)]

  lemma ShiftEntry(b: nat)
    requires 1 <= b <= 13
    ensures Pow(2, POW5_SHIFT[b - 1].0) == POW5_SHIFT[b - 1].1
  {
    if b <= 4 {
      assert Pow(2, 29) == 0x20000000 && Pow(2, 27) == 0x8000000 && Pow(2, 25) == 0x2000000 && Pow(2, 22) == 0x400000;
    } else {
      assert Pow(2, 20) == 0x100000 && Pow(2, 18) == 0x40000 && Pow(2, 15) == 0x8000 && Pow(2, 13) == 0x2000;
    }
  }

  /** pow5_inv_table holds the reciprocals. */
  lemma InverseTable(b: nat)
    requires 1 <= b <= 13
    ensures var d := POW5[b - 1] * Pow(2, Clz(POW5[b - 1]));
      HALF <= d < B && POW5_INV[b - 1] == Udiv1normInit(d)
  {
    hide Pow, Clz;
    ShiftEntry(b);
    ClzUnique(POW5[b - 1], POW5_SHIFT[b - 1].0);
  }

  // ----- mul_pow -----

  /** mpb_floor_log2: the position of the top bit, -1 for zero. */
  method FloorLog2(a: Mpb) returns (r: int)
    requires a.Valid() && Normal(a.tab[..a.len])
    ensures if a.Val() == 0 then r == -1 else r >= 0 && Pow(2, r) <= a.Val() < Pow(2, r + 1)
  {
    hide Value, Pow, Clz;
    ghost var s := a.tab[..a.len];
    var v := a.tab[a.len - 1];
    ZeroValue(s);
    if v == 0 {
      assert a.len == 1;
      r := -1;
    } else {
      ClzIs(v);
      r := a.len * 32 - 1 - Clz(v);
      TopBit(s, Clz(v));
    }
  }

  /** The size of a number from its top limb. */
  lemma TopBit(s: seq<limb>, c: nat)
    requires |s| >= 1 && s[|s| - 1] > 0 && c <= 31 && HALF <= s[|s| - 1] * Pow(2, c) < B
    ensures var r := |s| * 32 - 1 - c;
      r >= 0 && Pow(2, r) <= Value(s) < Pow(2, r + 1) && Value(s) != 0
  {
    hide Value, Pow;
    var n, x := |s| - 1, s[|s| - 1];
    ValueUpTo(s, n);
    assert s[..n + 1] == s;
    ValueBound(s[..n]);
    PowLimbs(n);
    PowTwo(c);
    PowTwo(31 - c);
    var lo, hi, p := Pow(2, 31 - c), Pow(2, 32 - c), Pow(B, n);
    PowDouble(31 - c);
    PowAdd(2, 31 - c, 32 * n);
    PowAdd(2, 32 - c, 32 * n);
    TopBounds(x, Pow(2, c), lo, hi, Value(s[..n]), p);
  }

  lemma TopBounds(x: nat, q: nat, lo: nat, hi: nat, v: nat, p: nat)
    requires q * hi == B && hi == 2 * lo && lo >= 1 && HALF <= x * q < B && v < p
    ensures lo * p <= v + x * p < hi * p && v + x * p != 0
  {
    Order(lo, x, q);
    Order(x, lo, q);
    Order(x, hi, q);
    assert q * lo == HALF;
    MulMono(lo, x, p, p);
    MulMono(x + 1, hi, p, p);
    assert (x + 1) * p == x * p + p;
    TimesAtLeast(lo, p);
  }

  function LimbsFor(radix1: nat, f: nat): nat
    requires 2 <= radix1 <= 36
  {
    (f + Digits(radix1) - 1) / Digits(radix1)
  }

  /** Limbs mul_pow may add; the caller provides the buffer. `low` is a bound below floor_log2. */
  function Growth(radix1: nat, radixShift: nat, f: int, isInt: bool, e: int): nat
    requires OddRadix(radix1)
  {
    if radix1 == 1 then 0
    else if f >= 0 then LimbsFor(radix1, f)
    else
      var l := LimbsFor(radix1, -f);
      l + 1 + Extra(l, radixShift, f, isInt, e, -1) / 32
  }

  /** Bits below the quotient kept for rounding. */
  function Extra(l: nat, radixShift: nat, f: int, isInt: bool, e: int, log2: int): nat {
    if isInt then (if 2 + e - (-f * radixShift + l * 32) > 0 then 2 + e - (-f * radixShift + l * 32) else 0)
    else if e - log2 > 0 then e - log2 else 0
  }

  lemma LimbsEnough(radix1: nat, f: nat, n: nat)
    requires 2 <= radix1 <= 36 && n <= f && n <= Digits(radix1) && (n == f || n == Digits(radix1)) && f > 0
    ensures n > 0 && LimbsFor(radix1, f - n) + 1 <= LimbsFor(radix1, f)
  {
    var d := Digits(radix1);
    if n == d { assert (f + d - 1) == (f - n + d - 1) + d; }
  }

  /** a *= radix1^f, one limb of digits at a time. */
  method MulUp(a: Mpb, radix1: nat, f0: nat)
    requires OddRadix(radix1) && radix1 != 1 && a.Valid() && a.len + LimbsFor(radix1, f0) <= a.tab.Length
    modifies a`len, a.tab
    ensures a.Valid() && a.Val() == old(a.Val()) * Pow(radix1, f0)
    ensures a.len <= old(a.len) + LimbsFor(radix1, f0)
    ensures Normal(old(a.tab[..a.len])) ==> Normal(a.tab[..a.len])
  {
    hide Value, Pow, LimbsFor;
    var d := Digits(radix1);
    var f: nat, b: limb, n0: nat := f0, 0, 0;
    ghost var v := a.Val();
    PowSmall(radix1);
    while f != 0
      invariant a.Valid() && f <= f0 && a.Val() == v * Pow(radix1, f0 - f)
      invariant a.len + LimbsFor(radix1, f) <= old(a.len) + LimbsFor(radix1, f0) <= a.tab.Length
      invariant n0 != 0 ==> b == Pow(radix1, n0)
      invariant Normal(old(a.tab[..a.len])) ==> Normal(a.tab[..a.len])
    {
      var n := if f < d then f else d;
      FewDigitsFit(radix1, n);
      LimbsEnough(radix1, f, n);
      if n != n0 {
        var p := PowUi(radix1, n);
        b := p;
        n0 := n;
      }
      ghost var s := a.tab[..a.len];
      var h := MpMul1(a.tab, a.tab, a.len, b, 0);
      if h != 0 {
        a.tab[a.len] := h;
        assert a.tab[..a.len + 1] == a.tab[..a.len] + [h];
        ValueSnoc(a.tab[..a.len], h);
        a.len := a.len + 1;
      } else {
        NoTop(Pow(B, a.len));
        StillNormal(s, a.tab[..a.len], b);
      }
      PowAdd(radix1, f0 - f, n);
      MulAssoc(v, Pow(radix1, f0 - f), Pow(radix1, n));
      f := f - n;
    }
  }

  lemma NoTop(p: nat)
    ensures 0 * p == 0
  {
  }

  /** Multiplying without a carry keeps the top limb nonzero. */
  lemma StillNormal(s: seq<limb>, t: seq<limb>, b: nat)
    requires |s| == |t| >= 1 && b >= 1 && Value(t) == Value(s) * b + 0
    ensures Normal(s) ==> Normal(t)
  {
    hide Value, Pow;
    if Normal(s) && |s| > 1 {
      var n := |s| - 1;
      ValueUpTo(s, n);
      ValueUpTo(t, n);
      assert s[..n + 1] == s && t[..n + 1] == t;
      ValueBound(t[..n]);
      TimesAtLeast(s[n], Pow(B, n));
      TimesAtLeast(b, Value(s));
      NoTop(Pow(B, n));
    }
  }

  /** a /= radix1^f, truncating once per limb of digits; did any division leave a remainder? */
  method DivideDown(a: Mpb, radix1: nat, f0: nat) returns (inexact: bool)
    requires OddRadix(radix1) && radix1 != 1 && a.Valid()
    modifies a`len, a.tab
    ensures Pow(radix1, f0) > 0 && a.Valid() && a.len <= old(a.len)
    ensures a.Val() == old(a.Val()) / Pow(radix1, f0) && inexact == (old(a.Val()) % Pow(radix1, f0) != 0)
    ensures f0 > 0 ==> Normal(a.tab[..a.len])
  {
    hide Value, Pow, High, Udiv1normInit;
    var d := Digits(radix1);
    var f: nat, b: limb, bInv: limb, shift: nat, n0: nat := f0, 0, 0, 0, 0;
    ghost var v := a.Val();
    ghost var done: nat := 1;
    PowSmall(radix1);
    DivideByOneNat(v);
    inexact := false;
    while f != 0
      invariant a.Valid() && a.len <= old(a.len) && f <= f0 && done == Pow(radix1, f0 - f) && done > 0
      invariant a.Val() == v / done && inexact == (v % done != 0)
      invariant n0 != 0 ==> shift <= 31 && b == Pow(radix1, n0) * Pow(2, shift) && b >= HALF && bInv == Udiv1normInit(b)
      invariant f < f0 ==> Normal(a.tab[..a.len])
    {
      var n := if f < d then f else d;
      FewDigitsFit(radix1, n);
      if n != n0 {
        b, bInv, shift := PowUiInv(radix1, n);
        n0 := n;
      }
      PowTwo(shift);
      ghost var p := Pow(radix1, n);
      MultipleOf(b, p, Pow(2, shift));
      ghost var s := a.tab[..a.len];
      var r := MpDiv1norm(a.tab, a.tab, a.len, b, 0, bInv, shift);
      HighIs(s, 0);
      RemainderIs(v / done, p, Value(a.tab[..a.len]), r);
      inexact := inexact || r != 0;
      a.Renorm();
      PowAdd(radix1, f0 - f, n);
      NestedDivide(v, done, p);
      SumZero(v / done % p, done, v % done);
      done := done * p;
      f := f - n;
    }
  }

  lemma DivideByOneNat(v: nat)
    ensures v / 1 == v && v % 1 == 0
  {
  }

  lemma MultipleOf(b: nat, p: nat, q: nat)
    requires b == p * q && p >= 1 && q >= 1
    ensures b % q == 0 && b / q == p
  {
    RemainderIs(b, q, p, 0);
  }

  /** The lowest bit is set when something was cut off. */
  method SetSticky(a: Mpb, inexact: bool)
    requires a.Valid()
    modifies a.tab
    ensures a.Valid() && a.Val() == if inexact && old(a.Val()) % 2 == 0 then old(a.Val()) + 1 else old(a.Val())
    ensures Normal(old(a.tab[..a.len])) ==> Normal(a.tab[..a.len])
  {
    hide Value;
    ghost var s := a.tab[..a.len];
    LowestBit(s);
    if inexact && a.tab[0] % 2 == 0 {
      a.tab[0] := a.tab[0] + 1;
      assert a.tab[..a.len] == s[0 := s[0] + 1];
    }
  }

  lemma LowestBit(s: seq<limb>)
    requires |s| >= 1
    ensures Value(s) % 2 == s[0] % 2
    ensures s[0] % 2 == 0 ==> s[0] + 1 < B && Value(s[0 := s[0] + 1]) == Value(s) + 1
  {
    EvenBase(s[0], Value(s[1..]));
    if s[0] % 2 == 0 { assert s[0 := s[0] + 1][1..] == s[1..]; }
  }

  lemma EvenBase(x: nat, v: nat)
    ensures (x + B * v) % 2 == x % 2
  {
    EvenTerm(x, HALF, v);
  }

  /** What mul_pow leaves, for a value v: `v * radix1^f`, or for negative f the sticky quotient of
    * v * 2^k, where k = `offset` + f * radixShift bits were added below. */
  ghost predicate Scaled(v: nat, radix1: nat, radixShift: nat, f: int, offset: int, r: nat)
    requires radix1 >= 1
  {
    if radix1 == 1 then offset == -f * radixShift && r == v
    else if f >= 0 then offset == -f * radixShift && r == v * Pow(radix1, f)
    else
      var k := offset + f * radixShift;
      k >= 0 && Pow(radix1, -f) > 0 && r == Sticky(v * Pow(2, k), Pow(radix1, -f))
  }

  /** mul_pow: a * (radix1 * 2^radixShift)^f, up to the power of two 2^-offset. */
  method MulPow(a: Mpb, radix1: nat, radixShift: nat, f: int, isInt: bool, e: int) returns (offset: int)
    requires OddRadix(radix1) && a.Valid() && Normal(a.tab[..a.len])
    requires a.len + Growth(radix1, radixShift, f, isInt, e) <= a.tab.Length
    modifies a`len, a.tab
    ensures a.Valid() && Scaled(old(a.Val()), radix1, radixShift, f, offset, a.Val())
    ensures a.len <= old(a.len) + Growth(radix1, radixShift, f, isInt, e) && Normal(a.tab[..a.len])
    ensures isInt && radix1 != 1 && f < 0 ==> offset - e >= 2
    ensures !isInt && radix1 != 1 && f < 0 && old(a.Val()) != 0 && e >= 0 ==>
      Pow(radix1, -f) > 0 && old(a.Val()) * Pow(2, offset + f * radixShift) / Pow(radix1, -f) >= Pow(2, e)
  {
    hide Value, Pow, LimbsFor, Normal;
    offset := -f * radixShift;
    if radix1 != 1 {
      if f >= 0 {
        MulUp(a, radix1, f);
      } else {
        var l := LimbsFor(radix1, -f);
        LimbsPositive(radix1, -f);
        offset := offset + l * 32;
        var log2 := -1;
        if !isInt { log2 := FloorLog2(a); }
        var extra := Extra(l, radixShift, f, isInt, e, log2);
        offset := offset + extra;
        ghost var v := a.Val();
        ExtraRoom(l, radixShift, f, isInt, e, log2, extra);
        a.ShiftUp(l * 32 + extra);
        var inexact := DivideDown(a, radix1, -f);
        SetSticky(a, inexact);
        if v != 0 && !isInt && e >= 0 { EnoughBits(v, radix1, -f, l, extra, e, log2); }
      }
    }
  }

  lemma LimbsPositive(radix1: nat, f: nat)
    requires 2 <= radix1 <= 36 && f > 0
    ensures LimbsFor(radix1, f) > 0
  {
  }

  lemma ExtraRoom(l: nat, radixShift: nat, f: int, isInt: bool, e: int, log2: int, extra: nat)
    requires log2 >= -1 && extra == Extra(l, radixShift, f, isInt, e, log2)
    ensures (l * 32 + extra) / 32 + 1 <= l + 1 + Extra(l, radixShift, f, isInt, e, -1) / 32
    ensures isInt ==> (-f * radixShift + l * 32 + extra) - e >= 2
  {
  }

  /** The divisor is below B^l, so shifting by l limbs and the missing bits leaves enough of them. */
  lemma EnoughBits(v: nat, radix1: nat, f: nat, l: nat, extra: nat, e: nat, log2: int)
    requires OddRadix(radix1) && radix1 != 1 && l == LimbsFor(radix1, f)
    requires log2 >= 0 && Pow(2, log2) <= v && extra >= e - log2
    ensures Pow(radix1, f) > 0 && v * Pow(2, l * 32 + extra) / Pow(radix1, f) >= Pow(2, e)
  {
    hide Pow, LimbsFor;
    PowerBelow(radix1, f);
    PowPositive(radix1, f);
    PowLimbs(l);
    PowAdd(2, l * 32, extra);
    PowAdd(2, log2, extra);
    PowMono(2, e, log2 + extra);
    var p, q, d := Pow(B, l), Pow(2, extra), Pow(radix1, f);
    MulMono(Pow(2, log2), v, q, q);
    AtLeastQuotient(v, p, q, d, Pow(2, e));
  }

  lemma AtLeastQuotient(v: nat, p: nat, q: nat, d: nat, w: nat)
    requires d > 0 && d <= p && w <= v * q
    ensures v * (p * q) / d >= w
  {
    MulMono(w, v * q, d, p);
    assert v * q * p == v * (p * q);
    MulAssoc(v, q, p);
    if v * (p * q) / d < w {
      MulMono(v * (p * q) / d + 1, w, d, d);
    }
  }

  lemma {:induction false} PowerBelow(radix1: nat, f: nat)
    requires OddRadix(radix1) && radix1 != 1
    ensures Pow(radix1, f) <= Pow(B, LimbsFor(radix1, f))
    decreases f
  {
    hide Pow, LimbsFor;
    var d := Digits(radix1);
    PowSmall(radix1);
    PowPositive(B, LimbsFor(radix1, f));
    if f > 0 {
      var n := if f < d then f else d;
      LimbsEnough(radix1, f, n);
      PowerBelow(radix1, f - n);
      FewDigitsFit(radix1, n);
      PowAdd(radix1, n, f - n);
      var l := LimbsFor(radix1, f - n);
      PowMono(B, l + 1, LimbsFor(radix1, f));
      PowAdd(B, 1, l);
      PowSmall(B);
      MulMono(Pow(radix1, n), B, Pow(radix1, f - n), Pow(B, l));
    }
  }
}
