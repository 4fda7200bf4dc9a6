/** Correctly rounded results of mul_pow: to an integer, and to a 53-bit floating-point number. */
module RoundDouble {
  import opened Limbs
  import opened Reciprocal
  import opened Rounding
  import opened BigNumber
  import opened PowerScaling

  /** 2^k for k >= 0, else 1: half of a power with a signed exponent. */
  function Up(k: int): (r: nat)
    ensures r > 0
  {
    if k > 0 then Pow(2, k) else 1
  }

  function RadixUp(radix1: nat, f: int): (r: nat)
    requires radix1 >= 1
    ensures r > 0
  {
    if f > 0 then Pow(radix1, f) else 1
  }

  /** The exact rational m * 2^e * (radix1 * 2^radixShift)^f. */
  function Num(m: nat, e: int, radix1: nat, radixShift: nat, f: int): nat
    requires radix1 >= 1
  {
    m * (Up(e + f * radixShift) * RadixUp(radix1, f))
  }

  function Den(e: int, radix1: nat, radixShift: nat, f: int): (r: nat)
    requires radix1 >= 1
    ensures r > 0
  {
    TimesPositive(Up(-(e + f * radixShift)), RadixUp(radix1, -f));
    Up(-(e + f * radixShift)) * RadixUp(radix1, -f)
  }

  lemma TimesPositive(a: nat, b: nat)
    requires a > 0 && b > 0
    ensures a * b > 0
  {
  }

  /** mpb_shr_round: divide by 2^shift and round, or multiply by 2^-shift. */
  method ShrRound(a: Mpb, shift: int, mode: Mode)
    requires a.Valid() && (shift < 0 ==> a.len + (-shift) / 32 + 1 <= a.tab.Length)
    modifies a`len, a.tab
    ensures a.Valid() && a.Val() == Rounded(old(a.Val()) * Up(-shift), Up(shift), mode)
  {
    hide Pow, Rounded;
    ghost var v := a.Val();
    if shift > 0 {
      a.ShiftDown(shift, mode);
      assert v * 1 == v;
    } else {
      if shift < 0 { a.ShiftUp(-shift); }
      RoundedExact(v * Up(-shift), mode);
      assert v * 1 == v;
    }
  }

  /** Limbs mul_pow_round needs for a two-limb argument. After a division the result is only shifted down. */
  function Needs(e: int, radix1: nat, radixShift: nat, f: int): nat
    requires OddRadix(radix1)
  {
    var e2 := e + f * radixShift;
    2 + Growth(radix1, radixShift, f, true, e) + (if (radix1 == 1 || f >= 0) && e2 > 0 then e2 / 32 + 1 else 0)
  }

  /** mul_pow_round: round(m * 2^e * radix^f), exactly. */
  method MulPowRound(a: Mpb, m: nat, e: int, radix1: nat, radixShift: nat, f: int, mode: Mode)
    requires OddRadix(radix1) && m < BB && a.tab.Length >= Needs(e, radix1, radixShift, f)
    modifies a`len, a.tab
    ensures a.Valid() && a.Val() == Rounded(Num(m, e, radix1, radixShift, f), Den(e, radix1, radixShift, f), mode)
  {
    hide Value, Pow, Growth, Rounded, Scaled;
    a.SetU64(m);
    var offset := MulPow(a, radix1, radixShift, f, true, e);
    ghost var v := a.Val();
    ScaledOffset(m, e, radix1, radixShift, f, offset, v);
    ShrRound(a, -e + offset, mode);
    ScaledRounds(m, e, radix1, radixShift, f, offset, v, mode);
  }

  /** Multiplication up is left to the shift only when nothing was divided. */
  lemma ScaledOffset(m: nat, e: int, radix1: nat, radixShift: nat, f: int, offset: int, v: nat)
    requires radix1 >= 1 && Scaled(m, radix1, radixShift, f, offset, v)
    requires radix1 != 1 && f < 0 ==> offset - e >= 2
    ensures e - offset > 0 ==> e - offset == e + f * radixShift
  {
    hide Pow, Sticky;
    assert -f * radixShift == -(f * radixShift);
  }

  lemma {:induction false} PowOnes(k: nat)
    ensures Pow(1, k) == 1
  {
    if k > 0 { PowOnes(k - 1); }
  }

  /** Rounding what mul_pow leaves is rounding the exact product. */
  lemma ScaledRounds(m: nat, e: int, radix1: nat, radixShift: nat, f: int, offset: int, v: nat, mode: Mode)
    requires radix1 >= 1 && Scaled(m, radix1, radixShift, f, offset, v)
    requires radix1 != 1 && f < 0 ==> offset - e >= 2
    ensures Rounded(v * Up(e - offset), Up(offset - e), mode) == Rounded(Num(m, e, radix1, radixShift, f), Den(e, radix1, radixShift, f), mode)
  {
    hide Pow, Rounded, Sticky;
    var e2 := e + f * radixShift;
    assert -f * radixShift == -(f * radixShift);
    if radix1 == 1 {
      PowOnes(if f > 0 then f else 0);
      PowOnes(if f < 0 then -f else 0);
      assert Num(m, e, radix1, radixShift, f) == m * (Up(e2) * 1) && Den(e, radix1, radixShift, f) == Up(-e2) * 1;
    } else if f >= 0 {
      PowerFirst(m, Up(e2), RadixUp(radix1, f));
      PowSmall(radix1);
      assert RadixUp(radix1, f) == Pow(radix1, f) && Den(e, radix1, radixShift, f) == Up(-e2) * 1;
    } else {
      var k, s, r := offset + f * radixShift, offset - e, Pow(radix1, -f);
      StickyRounds(m * Pow(2, k), r, s, mode);
      assert v * 1 == v;
      ExactScale(m, e2, k, s, r, mode);
      assert RadixUp(radix1, f) == 1 && RadixUp(radix1, -f) == r;
    }
  }

  lemma PowerFirst(m: nat, u: nat, r: nat)
    ensures m * r * u == m * (u * r)
  {
    MulAssoc(m, r, u);
  }

  /** The bits added below cancel. */
  lemma ExactScale(m: nat, e2: int, k: nat, s: nat, r: nat, mode: Mode)
    requires s == k - e2 && r > 0
    ensures r * Pow(2, s) > 0 && Up(-e2) * r > 0
    ensures Rounded(m * Pow(2, k), r * Pow(2, s), mode) == Rounded(m * (Up(e2) * 1), Up(-e2) * r, mode)
  {
    hide Pow, Rounded;
    PowPositive(2, s);
    PowPositive(2, k);
    if e2 >= 0 {
      PowAdd(2, s, e2);
      PowZero();
      ScaleUp(m, Pow(2, s), Pow(2, e2), r, mode);
    } else {
      PowAdd(2, k, -e2);
      ScaleDownBy(m, Pow(2, k), Pow(2, -e2), r, mode);
    }
  }

  lemma ScaleUp(m: nat, p: nat, q: nat, r: nat, mode: Mode)
    requires p > 0 && r > 0
    ensures r * p > 0 && 1 * r > 0 && Rounded(m * (p * q), r * p, mode) == Rounded(m * (q * 1), 1 * r, mode)
  {
    hide Rounded;
    RoundedScale(m * q, r, p, mode);
    Rotate(p, m, q, r);
  }

  lemma Rotate(p: nat, m: nat, q: nat, r: nat)
    ensures p * (m * q) == m * (p * q) && p * r == r * p && m * (q * 1) == m * q && 1 * r == r
  {
    MulAssoc(p, m, q);
    MulAssoc(m, p, q);
  }

  lemma ScaleDownBy(m: nat, p: nat, q: nat, r: nat, mode: Mode)
    requires p > 0 && r > 0 && q > 0
    ensures r * (p * q) > 0 && q * r > 0 && Rounded(m * p, r * (p * q), mode) == Rounded(m * (1 * 1), q * r, mode)
  {
    hide Rounded;
    TimesPositive(q, r);
    RoundedScale(m, q * r, p, mode);
    assert p * (q * r) == r * (p * q) by { MulAssoc(p, q, r); }
  }

  // ----- ratios up to a power of two -----

  /** n1 / d1 == (n2 / d2) * 2^k */
  predicate Ratio(n1: nat, d1: nat, n2: nat, d2: nat, k: int) {
    d1 > 0 && d2 > 0 && n1 * d2 * Up(-k) == n2 * d1 * Up(k)
  }

  lemma UpAdd(a: int, b: int)
    ensures Up(a) * Up(b) * Up(-(a + b)) == Up(-a) * Up(-b) * Up(a + b)
  {
    hide Pow;
    PowZero();
    if a >= 0 && b >= 0 {
      PowAdd(2, a, b);
    } else if a < 0 && b < 0 {
      PowAdd(2, -a, -b);
    } else if a >= 0 {
      if a + b >= 0 { PowAdd(2, a + b, -b); } else { PowAdd(2, a, -(a + b)); }
    } else {
      if a + b >= 0 { PowAdd(2, -a, a + b); } else { PowAdd(2, b, -(a + b)); }
    }
  }

  lemma RatioShift(n1: nat, d1: nat, n2: nat, d2: nat, k: int, j: int)
    requires Ratio(n1, d1, n2, d2, k)
    ensures Ratio(n1 * Up(j), d1 * Up(-j), n2, d2, k + j)
  {
    hide Up;
    TimesPositive(d1, Up(-j));
    UpAdd(k, j);
    ShiftArith(n1 * d2, n2 * d1, Up(k), Up(-k), Up(j), Up(-j), Up(k + j), Up(-(k + j)));
    Regroup(n1, Up(j), d2, Up(-(k + j)));
    Regroup(n2, d1, Up(-j), Up(k + j));
  }

  lemma Regroup(a: nat, b: nat, c: nat, d: nat)
    ensures a * b * c * d == a * c * (b * d) && a * (b * c) * d == a * b * (c * d)
  {
    MulAssoc(a, b, c);
    assert a * b * c == a * c * b;
    MulAssoc(a * c, b, d);
    MulAssoc(a * b, c, d);
  }

  lemma ShiftArith(x: nat, y: nat, uk: nat, vk: nat, uj: nat, vj: nat, us: nat, vs: nat)
    requires x * vk == y * uk && uk * uj * vs == vk * vj * us && uk > 0 && vk > 0
    ensures x * (uj * vs) == y * (vj * us)
  {
    MulAssoc(uk, uj, vs);
    MulAssoc(vk, vj, us);
    var p, q := uj * vs, vj * us;
    assert uk * p == vk * q;
    assert x * p * uk == x * (p * uk) == x * (uk * p) == x * (vk * q) == x * vk * q == y * uk * q by {
      MulAssoc(x, p, uk);
      MulAssoc(x, vk, q);
    }
    assert y * uk * q == y * q * uk;
    Cancel(x * p, y * q, uk);
  }

  lemma Cancel(a: int, b: int, c: nat)
    requires a * c == b * c && c > 0
    ensures a == b
  {
    assert (a - b) * c == 0;
    TimesSign(a - b, c);
  }

  lemma TimesSign(x: int, c: nat)
    requires c > 0
    ensures x > 0 ==> x * c > 0
    ensures x < 0 ==> x * c < 0
  {
  }

  lemma RatioRounds(n1: nat, d1: nat, n2: nat, d2: nat, mode: Mode)
    requires Ratio(n1, d1, n2, d2, 0)
    ensures Rounded(n1, d1, mode) == Rounded(n2, d2, mode)
  {
    hide Rounded;
    RoundedScale(n1, d1, d2, mode);
    RoundedScale(n2, d2, d1, mode);
    assert n1 * d2 * 1 == n2 * d1 * 1;
  }

  /** n / d >= 2^j */
  predicate AtLeast(n: nat, d: nat, j: int) {
    d * Up(j) <= n * Up(-j)
  }

  lemma RatioAtLeast(n1: nat, d1: nat, n2: nat, d2: nat, k: int, j: int)
    requires Ratio(n1, d1, n2, d2, k)
    ensures AtLeast(n1, d1, j) <==> AtLeast(n2, d2, j - k)
  {
    hide Up;
    UpAdd(j - k, k);
    var a, b, c, d := Up(j), Up(-j), Up(j - k), Up(k - j);
    // multiply the first by d2 Up(-k), the second by d1 Up(k)
    AtLeastArith(n1, d1, n2, d2, Up(k), Up(-k), a, b, c, d);
  }

  lemma AtLeastArith(n1: nat, d1: nat, n2: nat, d2: nat, uk: nat, vk: nat, a: nat, b: nat, c: nat, d: nat)
    requires n1 * d2 * vk == n2 * d1 * uk && c * uk * b == d * vk * a
    requires uk > 0 && vk > 0 && d1 > 0 && d2 > 0 && a > 0 && b > 0 && c > 0 && d > 0
    ensures d1 * a <= n1 * b <==> d2 * c <= n2 * d
  {
    // d1 a <= n1 b  <=>  d1 d2 vk a d <= n1 d2 vk b d = n2 d1 uk b d  <=>  d2 (vk a d) <= n2 (uk b d)
    var g := d2 * vk * d;
    TimesPositive(d2, vk);
    TimesPositive(d2 * vk, d);
    Order(n1 * b + 0, d1 * a, g);
    Order(d1 * a, n1 * b, g);
    var h := d1 * uk * b;
    TimesPositive(d1, uk);
    TimesPositive(d1 * uk, b);
    Order(n2 * d, d2 * c, h);
    Order(d2 * c, n2 * d, h);
    CrossLeft(d1, d2, a, vk, d, c, uk, b);
    CrossRight(n1, d2, vk, n2, d1, uk, b, d);
  }

  lemma CrossLeft(d1: nat, d2: nat, a: nat, vk: nat, d: nat, c: nat, uk: nat, b: nat)
    requires c * uk * b == d * vk * a
    ensures d2 * vk * d * (d1 * a) == d1 * uk * b * (d2 * c)
  {
    assert d2 * vk * d * (d1 * a) == d1 * d2 * (d * vk * a);
    assert d1 * uk * b * (d2 * c) == d1 * d2 * (c * uk * b);
  }

  lemma CrossRight(n1: nat, d2: nat, vk: nat, n2: nat, d1: nat, uk: nat, b: nat, d: nat)
    requires n1 * d2 * vk == n2 * d1 * uk
    ensures d2 * vk * d * (n1 * b) == d1 * uk * b * (n2 * d)
  {
    assert d2 * vk * d * (n1 * b) == n1 * d2 * vk * (b * d);
    assert d1 * uk * b * (n2 * d) == n2 * d1 * uk * (b * d);
  }

  // ----- rounding to a double -----

  const TWO52: nat := 0x10_0000_0000_0000
  const TWO53: nat := 0x20_0000_0000_0000
  const E_MIN: int := -1021

  /** 2^(e-1) <= n / d < 2^e */
  predicate InBinade(n: nat, d: nat, e: int) {
    AtLeast(n, d, e - 1) && !AtLeast(n, d, e)
  }

  lemma AtLeastMono(n: nat, d: nat, j: int, k: int)
    requires k <= j && AtLeast(n, d, j)
    ensures AtLeast(n, d, k)
  {
    hide Pow;
    UpAdd(k - j, j);
    assert Up(k - j) == 1;
    MonoArith(n, d, Up(j), Up(-j), Up(k), Up(-k), Up(j - k));
  }

  lemma MonoArith(n: nat, d: nat, a: nat, b: nat, a': nat, b': nat, c: nat)
    requires d * a <= n * b && 1 * a * b' == c * b * a' && b > 0 && c > 0
    ensures d * a' <= n * b'
  {
    MonoProducts(n, d, a, b, a', b', c);
    MulMono(d * a, n * b, b', b');
    MulMono(1, c, n * b * b', n * b * b');
    TimesPositive(c, b);
    Order(n * b', d * a', c * b);
  }

  lemma MonoProducts(n: nat, d: nat, a: nat, b: nat, a': nat, b': nat, c: nat)
    requires 1 * a * b' == c * b * a'
    ensures c * b * (d * a') == d * a * b' && c * b * (n * b') == c * (n * b * b')
  {
    assert c * b * (d * a') == d * (c * b * a');
    assert d * a * b' == d * (1 * a * b');
  }

  /** A number has one binade, and rounds to one double. */
  lemma RoundsToUnique(n: nat, d: nat, mode: Mode, m: nat, e: int, m': nat, e': int)
    requires RoundsTo(n, d, mode, m, e) && RoundsTo(n, d, mode, m', e')
    ensures m == m' && e == e'
  {
    hide AtLeast, Round53;
    var e0 :| InBinade(n, d, e0) && Round53(n, d, e0, mode) == (m, e);
    var e1 :| InBinade(n, d, e1) && Round53(n, d, e1, mode) == (m', e');
    if e0 < e1 { AtLeastMono(n, d, e1 - 1, e0); }
    if e1 < e0 { AtLeastMono(n, d, e0 - 1, e1); }
  }

  /** Bits of precision in binade e: 53, fewer for subnormal numbers. */
  function Prec(e: int): int {
    if e < E_MIN then 53 - (E_MIN - e) else 53
  }

  /** The number m * 2^(e-53) that n / d, in binade e0, rounds to; 2^52 <= m < 2^53 or m == 0. */
  function Round53(n: nat, d: nat, e0: int, mode: Mode): (nat, int)
    requires d > 0
  {
    TimesPositive(d, Up(e0 - Prec(e0)));
    var r := Rounded(n * Up(Prec(e0) - e0), d * Up(e0 - Prec(e0)), mode);
    var m := r * Up(53 - Prec(e0));
    if m >= TWO53 then (m / 2, e0 + 1) else (m, e0)
  }

  ghost predicate RoundsTo(n: nat, d: nat, mode: Mode, m: nat, e: int) {
    d > 0 && exists e0 :: InBinade(n, d, e0) && Round53(n, d, e0, mode) == (m, e)
  }

  lemma RatioMove(n1: nat, d1: nat, n2: nat, d2: nat, k: int)
    requires Ratio(n1, d1, n2, d2, k)
    ensures Ratio(n1, d1, n2 * Up(k), d2 * Up(-k), 0)
  {
    hide Pow;
    TimesPositive(d2, Up(-k));
    MulAssoc(n1, d2, Up(-k));
    MoveArith(n2, d1, Up(k));
  }

  lemma MoveArith(a: nat, b: nat, c: nat)
    ensures a * b * c == a * c * b && a * c * b * 1 == a * c * b
  {
  }

  /** The exact quotient has the size of the sticky one. */
  lemma SizeOf(n: nat, d: nat, l: nat, exact: bool)
    requires d > 0 && (exact ==> d == 1) && (!exact ==> n / d >= Pow(2, 55))
    requires var v := if exact then n else Sticky(n, d); Pow(2, l) <= v < Pow(2, l + 1)
    ensures d * Pow(2, l) <= n < d * Pow(2, l + 1)
    ensures !exact ==> l >= 55
  {
    hide Pow;
    if !exact {
      if l < 55 { PowMono(2, l + 1, 55); }
      PowDouble(l - 1);
      PowDouble(l);
      DivMod(n, d);
      var q := n / d;
      assert Pow(2, l) <= q < Pow(2, l + 1);
      MulMono(Pow(2, l), q, d, d);
      MulMono(q + 1, Pow(2, l + 1), d, d);
      assert (q + 1) * d == q * d + d;
    }
  }

  /** Rounding what is in the buffer rounds the exact quotient. */
  lemma RoundedHere(n: nat, d: nat, s: int, exact: bool, mode: Mode)
    requires d > 0 && (exact ==> d == 1) && (!exact ==> s >= 2)
    ensures var v := if exact then n else Sticky(n, d);
      d * Up(s) > 0 && Rounded(v * Up(-s), Up(s), mode) == Rounded(n * Up(-s), d * Up(s), mode)
  {
    hide Pow, Rounded, Sticky;
    TimesPositive(d, Up(s));
    if exact {
      assert 1 * Up(s) == Up(s);
    } else {
      StickyRounds(n, d, s, mode);
      assert Sticky(n, d) * 1 == Sticky(n, d) && n * 1 == n;
    }
  }

  /** The rounded mantissa fits: at most 2^53 once brought to 53 bits. */
  lemma MantissaFits(v: nat, l: nat, prec: int, mode: Mode)
    requires v < Pow(2, l + 1) && prec <= 53
    ensures var s := l + 1 - prec;
      Rounded(v * Up(-s), Up(s), mode) * Up(53 - prec) <= TWO53
  {
    hide Pow, Rounded;
    if prec >= 0 { MantissaNormal(v, l, prec, mode); } else { MantissaTiny(v, l, prec, mode); }
  }

  lemma MantissaNormal(v: nat, l: nat, prec: int, mode: Mode)
    requires v < Pow(2, l + 1) && 0 <= prec <= 53
    ensures var s := l + 1 - prec;
      Rounded(v * Up(-s), Up(s), mode) * Up(53 - prec) <= TWO53
  {
    hide *;
    var s := l + 1 - prec;
    FitsIn(v, l, prec);
    RoundedBelow(v * Up(-s), Up(s), Pow(2, prec), mode);
    PowFiftyThree();
    PowAdd(2, prec, 53 - prec);
    UpIs(53 - prec);
    MulMono(Rounded(v * Up(-s), Up(s), mode), Pow(2, prec), Up(53 - prec), Up(53 - prec));
  }

  lemma UpIs(k: nat)
    ensures Up(k) == Pow(2, k)
  {
    PowZero();
  }

  lemma MantissaTiny(v: nat, l: nat, prec: int, mode: Mode)
    requires v < Pow(2, l + 1) && prec < 0
    ensures var s := l + 1 - prec;
      Rounded(v * Up(-s), Up(s), mode) * Up(53 - prec) <= TWO53
  {
    hide Pow, Rounded;
    var s := l + 1 - prec;
    PowAdd(2, l + 1, -prec);
    PowDouble(-prec - 1);
    PowPositive(2, -prec - 1);
    AtLeastOne(Pow(2, l + 1), Pow(2, -prec - 1));
    MulAssoc(Pow(2, l + 1), 2, Pow(2, -prec - 1));
    TinyRounds(v, Up(s), mode);
  }

  lemma PowFiftyThree()
    ensures Pow(2, 53) == TWO53 && Pow(2, 52) == TWO52 && Pow(2, 0) == 1
  {
    PowTwo(0);
    assert Pow(2, 10) == 1024;
    PowAdd(2, 10, 10);
    PowAdd(2, 32, 20);
    assert Pow(2, 53) == 2 * Pow(2, 52);
  }

  lemma FitsIn(v: nat, l: nat, prec: nat)
    requires v < Pow(2, l + 1)
    ensures v * Up(-(l + 1 - prec)) < Pow(2, prec) * Up(l + 1 - prec)
  {
    hide Pow;
    var s := l + 1 - prec;
    PowZero();
    if s >= 0 {
      PowAdd(2, prec, s);
    } else {
      PowAdd(2, l + 1, -s);
      MulMono(v + 1, Pow(2, l + 1), Pow(2, -s), Pow(2, -s));
      assert (v + 1) * Pow(2, -s) == v * Pow(2, -s) + Pow(2, -s);
      PowPositive(2, -s);
    }
  }

  lemma RoundedBelow(n: nat, d: nat, w: nat, mode: Mode)
    requires d > 0 && n < w * d
    ensures Rounded(n, d, mode) <= w
  {
    QuotientBelow(n, d, w);
  }

  lemma TinyRounds(v: nat, d: nat, mode: Mode)
    requires d > 0 && 2 * v < d
    ensures v * 1 == v && Rounded(v * 1, d, mode) == 0
  {
    RemainderIs(v, d, 0, v);
  }

  /** From the buffer to the number asked for. */
  lemma RoundsToBy(n: nat, d: nat, num: nat, den: nat, offset: int, l: nat, mode: Mode)
    requires Ratio(n, d, num, den, offset) && d * Pow(2, l) <= n < d * Pow(2, l + 1)
    ensures var e0 := l + 1 - offset;
      var s := l + 1 - Prec(e0);
      && InBinade(num, den, e0)
      && d * Up(s) > 0 && den * Up(e0 - Prec(e0)) > 0
      && Rounded(n * Up(-s), d * Up(s), mode) == Rounded(num * Up(Prec(e0) - e0), den * Up(e0 - Prec(e0)), mode)
  {
    hide Pow, Rounded;
    var e0 := l + 1 - offset;
    var s := l + 1 - Prec(e0);
    PowZero();
    assert n * 1 == n;
    assert AtLeast(n, d, l) && !AtLeast(n, d, l + 1);
    RatioAtLeast(n, d, num, den, offset, l);
    RatioAtLeast(n, d, num, den, offset, l + 1);
    TimesPositive(d, Up(s));
    TimesPositive(den, Up(e0 - Prec(e0)));
    RatioShift(n, d, num, den, offset, -s);
    RatioMove(n * Up(-s), d * Up(s), num, den, offset - s);
    RatioRounds(n * Up(-s), d * Up(s), num * Up(Prec(e0) - e0), den * Up(e0 - Prec(e0)), mode);
  }

  /** round_to_d: the buffer holds n / d, exactly or with a sticky bit, and n / d is num / den times
    * 2^offset. The result is num / den rounded to a double. */
  method RoundToD(a: Mpb, offset: int, mode: Mode, ghost n: nat, ghost d: nat, ghost exact: bool, ghost num: nat, ghost den: nat)
    returns (m: nat, e: int)
    requires a.Valid() && Normal(a.tab[..a.len]) && a.len + 3 <= a.tab.Length
    requires d > 0 && a.Val() == (if exact then n else Sticky(n, d)) && (exact ==> d == 1)
    requires !exact ==> n / d >= Pow(2, 55)
    requires Ratio(n, d, num, den, offset)
    modifies a`len, a.tab
    ensures old(a.Val()) == 0 ==> m == 0
    ensures old(a.Val()) != 0 ==> RoundsTo(num, den, mode, m, e)
  {
    hide Value, Pow, Rounded, Sticky, Ratio, InBinade, Normal, Up;
    ghost var v := a.Val();
    IsZero(a.tab[..a.len]);
    if a.tab[0] == 0 && a.len == 1 {
      return 0, 0;
    }
    var l := FloorLog2(a);
    SizeOf(n, d, l, exact);
    e := l + 1 - offset;
    var prec := 53;
    if e < E_MIN { prec := 53 - (E_MIN - e); }
    var s := e + offset - prec;
    ShrRound(a, s, mode);
    RoundedHere(n, d, s, exact, mode);
    MantissaFits(v, l, prec, mode);
    RoundsToBy(n, d, num, den, offset, l, mode);
    var w := a.GetU64();
    ShiftFits64(a.Val(), Up(53 - prec));
    m := w * Up(53 - prec);
    if m >= TWO53 {
      m := m / 2;
      e := e + 1;
    }
    assert InBinade(num, den, l + 1 - offset) && Round53(num, den, l + 1 - offset, mode) == (m, e);
  }

  lemma ShiftFits64(r: nat, u: nat)
    requires u > 0 && r * u <= TWO53
    ensures r % BB == r
  {
    TimesAtLeastLeft(r, u);
  }

  lemma TimesAtLeastLeft(r: nat, u: nat)
    requires u > 0
    ensures r <= r * u
  {
  }

  lemma IsZero(s: seq<limb>)
    requires |s| >= 1 && Normal(s)
    ensures Value(s) == 0 <==> s[0] == 0 && |s| == 1
  {
    ZeroValue(s);
  }

  /** What mul_pow leaves, as a ratio to the exact product. */
  lemma ScaledRatio(m: nat, radix1: nat, radixShift: nat, f: int, offset: int, v: nat) returns (n: nat, d: nat, exact: bool)
    requires radix1 >= 1 && Scaled(m, radix1, radixShift, f, offset, v)
    ensures d > 0 && v == (if exact then n else Sticky(n, d)) && (exact ==> d == 1)
    ensures !exact ==>
      (radix1 != 1 && f < 0 && offset + f * radixShift >= 0
       && n == m * Pow(2, offset + f * radixShift) && d == Pow(radix1, -f))
    ensures Ratio(n, d, Num(m, 0, radix1, radixShift, f), Den(0, radix1, radixShift, f), offset)
  {
    hide Pow, Sticky;
    var e2 := f * radixShift;
    assert -f * radixShift == -e2;
    PowOnes(if f > 0 then f else 0);
    PowOnes(if f < 0 then -f else 0);
    PowSmall(radix1);
    if radix1 == 1 || f >= 0 {
      n, d, exact := v, 1, true;
      var r := if radix1 == 1 then 1 else Pow(radix1, f);
      assert Num(m, 0, radix1, radixShift, f) == m * (Up(e2) * r) && Den(0, radix1, radixShift, f) == Up(-e2) * 1;
      ExactRatio(m, Up(e2), r, Up(-e2));
      assert m * 1 == m;
    } else {
      var k := offset + e2;
      n, d, exact := m * Pow(2, k), Pow(radix1, -f), false;
      PowZero();
      UpAdd(e2, offset);
      assert Num(m, 0, radix1, radixShift, f) == m * (Up(e2) * 1) && Den(0, radix1, radixShift, f) == Up(-e2) * d;
      assert Up(k) == Pow(2, k) && Up(-k) == 1;
      DividedRatio(m, Pow(2, k), d, Up(e2), Up(-e2), Up(offset), Up(-offset));
    }
  }

  lemma ExactRatio(m: nat, u: nat, r: nat, w: nat)
    ensures m * r * (w * 1) * u == m * (u * r) * 1 * w
  {
    assert m * r * w * u == m * (u * r) * w;
  }

  lemma DividedRatio(m: nat, p: nat, d: nat, u: nat, w: nat, uo: nat, wo: nat)
    requires u * uo * 1 == w * wo * p
    ensures m * p * (w * d) * wo == m * (u * 1) * d * uo
  {
    assert m * p * (w * d) * wo == m * d * (w * wo * p);
    assert m * (u * 1) * d * uo == m * d * (u * uo * 1);
  }

  lemma ScaledZero(radix1: nat, radixShift: nat, f: int, offset: int, v: nat)
    requires radix1 >= 1 && Scaled(0, radix1, radixShift, f, offset, v)
    ensures v == 0 && Ratio(0, 1, 0, 1, offset)
  {
    hide Pow;
    if radix1 != 1 && f < 0 {
      ZeroTimes(Pow(2, offset + f * radixShift));
      ZeroDivided(Pow(radix1, -f));
    } else if radix1 != 1 {
      ZeroTimes(Pow(radix1, f));
    }
  }

  lemma ScaledNonZero(m: nat, radix1: nat, radixShift: nat, f: int, offset: int, v: nat)
    requires radix1 >= 1 && m > 0 && Scaled(m, radix1, radixShift, f, offset, v)
    requires radix1 != 1 && f < 0 && offset + f * radixShift >= 0 ==>
      Pow(radix1, -f) > 0 && m * Pow(2, offset + f * radixShift) / Pow(radix1, -f) >= Pow(2, 55)
    ensures v > 0
  {
    hide Pow;
    PowPositive(2, 55);
    if radix1 != 1 && f >= 0 {
      PowPositive(radix1, f);
      TimesPositive(m, Pow(radix1, f));
    }
  }

  lemma ZeroTimes(p: nat)
    ensures 0 * p == 0
  {
  }

  /** Limbs mul_pow_round_to_d needs for a two-limb argument. */
  function NeedsToD(radix1: nat, radixShift: nat, f: int): nat
    requires OddRadix(radix1)
  {
    5 + Growth(radix1, radixShift, f, false, 55)
  }

  /** mul_pow_round_to_d: a * radix^f rounded to a double, exactly. */
  method MulPowRoundToD(a: Mpb, radix1: nat, radixShift: nat, f: int, mode: Mode) returns (m: nat, e: int)
    requires OddRadix(radix1) && a.Valid() && Normal(a.tab[..a.len]) && a.len <= 2
    requires a.tab.Length >= NeedsToD(radix1, radixShift, f)
    modifies a`len, a.tab
    ensures old(a.Val()) == 0 ==> m == 0
    ensures old(a.Val()) != 0 ==> RoundsTo(Num(old(a.Val()), 0, radix1, radixShift, f), Den(0, radix1, radixShift, f), mode, m, e)
  {
    hide Value, Pow, Growth, Scaled, RoundsTo, Num, Den, Normal, Sticky;
    ghost var v := a.Val();
    var offset := MulPow(a, radix1, radixShift, f, false, 55);
    ghost var n, d, exact := ScaledRatio(v, radix1, radixShift, f, offset, a.Val());
    ghost var num, den := Num(v, 0, radix1, radixShift, f), Den(0, radix1, radixShift, f);
    if v == 0 {
      ScaledZero(radix1, radixShift, f, offset, a.Val());
      n, d, exact := 0, 1, true;
    } else {
      ScaledNonZero(v, radix1, radixShift, f, offset, a.Val());
    }
    m, e := RoundToD(a, offset, mode, n, d, exact, if v == 0 then 0 else num, if v == 0 then 1 else den);
  }
}
