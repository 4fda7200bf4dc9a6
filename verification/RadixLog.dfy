/** The exponent in radix r of a power of two: mul_log2_radix multiplies by a table entry of 24 bits and rounds down. That
  * is exact on the whole range, because the entry and log_r 2 lie between the same two neighbouring fractions. */
module RadixLog {
  import opened Limbs
  import opened Rounding
  import opened BigNumber
  import opened PowerScaling
  import opened RoundDouble
  import opened FreeFormat

  // mul_log2_radix_table
  const LOG2_RADIX: seq<nat> :=
    [0x000000, 0xa1849d, 0x000000, 0x6e40d2, 0x6308c9, 0x5b3065, 0x000000, 0x50c24e, 0x4d104d, 0x4a0027, 0x4768ce, 0x452e54,
     0x433d00, 0x418677, 0x000000, 0x3ea16b, 0x3d645a, 0x3c43c2, 0x3b3b9a, 0x3a4899, 0x39680b, 0x3897b3, 0x37d5af, 0x372069,
     0x367686, 0x35d6df, 0x354072, 0x34b261, 0x342bea, 0x33ac62, 0x000000, 0x32bfd9, 0x3251dd, 0x31e8d6, 0x318465]

  function Entry(radix: nat): nat
    requires 2 <= radix <= 36
  {
    LOG2_RADIX[radix - 2]
  }

  predicate PowerOfTwo(r: nat) {
    r == 2 || r == 4 || r == 8 || r == 16 || r == 32
  }

  /** 31 - clz32(r) */
  function RadixBits(r: nat): (bits: nat)
    requires PowerOfTwo(r)
    ensures bits > 0
  {
    if r == 2 then 1 else if r == 4 then 2 else if r == 8 then 3 else if r == 16 then 4 else 5
  }

  /** The division of the source drops the fraction. */
  function Truncated(a: int, b: nat): int
    requires b > 0
  {
    if a >= 0 then a / b else -(-a / b)
  }

  /** mul_log2_radix */
  function MulLog2Radix(a: int, radix: nat): int
    requires 2 <= radix <= 36
  {
    if PowerOfTwo(radix) then
      var bits := RadixBits(radix);
      Truncated(if a < 0 then a - (bits - 1) else a, bits)
    else a * Entry(radix) / 0x100_0000
  }

  // ----- neighbouring fractions -----

  /** k1 / a1 and k2 / a2 are neighbours around x / 2^24 and around log_r 2, where log_2 r is between lo / 2^24 and
    * hi / 2^24. */
  predicate Bracket(lo: nat, hi: nat, x: nat, k1: nat, a1: nat, k2: nat, a2: nat) {
    && k2 * a1 == k1 * a2 + 1 && a1 + a2 > 2048 && a1 > 0 && a2 > 0
    && k1 * 0x100_0000 < x * a1 && x * a2 < k2 * 0x100_0000
    && k1 * hi < 0x100_0000 * a1 && 0x100_0000 * a2 < k2 * lo
  }

  /** No fraction with a smaller denominator lies between neighbours. */
  lemma Neighbours(j: nat, b: nat, k1: nat, a1: nat, k2: nat, a2: nat)
    requires k2 * a1 == k1 * a2 + 1 && b < a1 + a2
    ensures j * a1 <= k1 * b || k2 * b <= j * a2
  {
    Combine(j, b, k1, a1, k2, a2);
    TooMuch(k2 * b - j * a2, j * a1 - k1 * b, a1, a2);
  }

  lemma TooMuch(v: int, u: int, a1: nat, a2: nat)
    requires v * a1 + u * a2 < a1 + a2
    ensures v <= 0 || u <= 0
  {
    TimesAtLeast(v, a1);
    TimesAtLeast(u, a2);
  }

  lemma TimesAtLeast(x: int, c: nat)
    ensures x >= 1 ==> x * c >= c
  {
    if x >= 1 { MulMono(1, x, c, c); }
  }

  lemma Combine(j: int, b: int, k1: int, a1: int, k2: int, a2: int)
    requires k2 * a1 == k1 * a2 + 1
    ensures (k2 * b - j * a2) * a1 + (j * a1 - k1 * b) * a2 == b
  {
    assert (k2 * b - j * a2) * a1 == k2 * b * a1 - j * a2 * a1;
    assert (j * a1 - k1 * b) * a2 == j * a1 * a2 - k1 * b * a2;
    assert k2 * b * a1 == b * (k2 * a1) && k1 * b * a2 == b * (k1 * a2);
    assert b * (k1 * a2 + 1) == b * (k1 * a2) + b;
  }

  /** j / b <= k / a < x / c */
  lemma LowSide(x: nat, c: nat, k: nat, a: nat, j: nat, b: nat)
    requires j * a <= k * b && k * c < x * a && b > 0 && a > 0
    ensures j * c < x * b
  {
    MulMono(k * c + 1, x * a, b, b);
    assert (k * c + 1) * b == k * b * c + b;
    MulMono(j * a, k * b, c, c);
    assert x * a * b == a * (x * b) && j * a * c == a * (j * c);
    Order(j * c, x * b, a);
  }

  /** x / c < k / a <= j / b */
  lemma HighSide(x: nat, c: nat, k: nat, a: nat, j: nat, b: nat)
    requires k * b <= j * a && x * a < k * c && b > 0 && a > 0
    ensures x * b < j * c
  {
    MulMono(x * a + 1, k * c, b, b);
    assert (x * a + 1) * b == a * (x * b) + b;
    MulMono(k * b, j * a, c, c);
    assert k * c * b == k * b * c && j * a * c == a * (j * c);
    Order(x * b, j * c, a);
  }

  // ----- powers and fractions -----

  /** lo / n <= log_2 r <= hi / n */
  ghost predicate LogWithin(r: nat, n: nat, lo: nat, hi: nat) {
    n > 0 && Pow(2, lo) <= Pow(r, n) <= Pow(2, hi)
  }

  lemma StrictProduct(a: nat, x: nat, b: nat, y: nat)
    requires a < b && x <= y && y > 0
    ensures a * x < b * y
  {
    MulMono(a, a, x, y);
    MulMono(a + 1, b, y, y);
    StepUp(a, y);
  }

  lemma PowGrows(y: nat, a: nat, b: nat)
    requires y >= 2 && a < b
    ensures Pow(y, a) < Pow(y, b)
  {
    hide Pow;
    PowPositive(y, a);
    PowMore(y, a);
    StrictProduct(1, Pow(y, a), y, Pow(y, a));
    PowMono(y, a + 1, b);
  }

  /** From x^s <= y^t to x^i < y^j, when i / j is less than s / t. */
  lemma PowerOrder(x: nat, s: nat, y: nat, t: nat, i: nat, j: nat)
    requires y >= 2 && Pow(x, s) <= Pow(y, t) && i * t < s * j
    ensures Pow(x, i) < Pow(y, j)
  {
    hide *;
    PowSwap(x, s, i);
    PowBase(Pow(x, s), Pow(y, t), i);
    PowNest(y, t, i);
    PowNest(y, j, s);
    PowGrows(y, i * t, s * j);
    PowReflects(Pow(x, i), Pow(y, j), s);
  }

  lemma PowSwap(x: nat, s: nat, i: nat)
    ensures Pow(Pow(x, s), i) == Pow(Pow(x, i), s)
  {
    hide Pow;
    PowNest(x, s, i);
    PowNest(x, i, s);
    TimesCommute(s, i);
  }

  lemma PowReflects(a: nat, b: nat, k: nat)
    requires Pow(a, k) < Pow(b, k)
    ensures a < b
  {
    hide Pow;
    if b <= a { PowBase(b, a, k); }
  }

  /** The table entry decides on which side of log_r 2 a fraction j / b lies. */
  lemma EntryDecides(r: nat, lo: nat, hi: nat, x: nat, k1: nat, a1: nat, k2: nat, a2: nat, j: nat, b: nat)
    requires r >= 2 && LogWithin(r, 0x100_0000, lo, hi) && Bracket(lo, hi, x, k1, a1, k2, a2) && 1 <= b <= 2048
    ensures j * 0x100_0000 <= x * b ==> Pow(r, j) < Pow(2, b)
    ensures j * 0x100_0000 >= x * b ==> Pow(2, b) < Pow(r, j)
  {
    hide Pow;
    Neighbours(j, b, k1, a1, k2, a2);
    if j * a1 <= k1 * b {
      LowSide(x, 0x100_0000, k1, a1, j, b);
      LowSide(0x100_0000, hi, k1, a1, j, b);
      PowerOrder(r, 0x100_0000, 2, hi, j, b);
    } else {
      HighSide(x, 0x100_0000, k2, a2, j, b);
      HighSide(0x100_0000, lo, k2, a2, j, b);
      TimesCommute(0x100_0000, b);
      TimesCommute(lo, j);
      PowerOrder(2, lo, r, 0x100_0000, b, j);
    }
  }

  // ----- logarithms of the primes -----

  /** r^n is between lo and hi times 2^(e-32). */
  ghost predicate Within(r: nat, n: nat, e: nat, lo: nat, hi: nat) {
    lo * Pow(2, e) <= Pow(r, n) * 0x1_0000_0000 <= hi * Pow(2, e)
  }

  function Square(x: nat): nat { x * x }

  function Sixteenth(x: nat): nat { Square(Square(Square(Square(x)))) }

  // 2^480
  const SCALE: nat := 0x1_00000000_00000000_00000000_00000000_00000000_00000000_00000000_00000000_00000000_00000000_00000000_00000000_00000000_00000000_00000000

  lemma SixteenthIs(x: nat)
    ensures Sixteenth(x) == Pow(x, 16)
  {
    hide Pow;
    PowSmall(x);
    PowAdd(x, 1, 1);
    PowAdd(x, 2, 2);
    PowAdd(x, 4, 4);
    PowAdd(x, 8, 8);
  }

  lemma SquareProduct(a: nat, x: nat, b: nat, y: nat)
    requires a * x <= b * y
    ensures Square(a) * Square(x) <= Square(b) * Square(y)
  {
    MulMono(a * x, b * y, a * x, b * y);
    assert Square(a) * Square(x) == a * x * (a * x) && Square(b) * Square(y) == b * y * (b * y);
  }

  lemma SixteenthProduct(a: nat, x: nat, b: nat, y: nat)
    requires a * x <= b * y
    ensures Sixteenth(a) * Sixteenth(x) <= Sixteenth(b) * Sixteenth(y)
  {
    hide Square;
    SquareProduct(a, x, b, y);
    SquareProduct(Square(a), Square(x), Square(b), Square(y));
    SquareProduct(Square(Square(a)), Square(Square(x)), Square(Square(b)), Square(Square(y)));
    SquareProduct(Square(Square(Square(a))), Square(Square(Square(x))), Square(Square(Square(b))), Square(Square(Square(y))));
  }

  lemma SixteenthOne()
    ensures Sixteenth(0x1_0000_0000) == 0x1_0000_0000 * SCALE && SCALE > 0
  {
  }

  lemma SmallPowers()
    ensures Pow(2, 1) == 2 && Pow(2, 2) == 4 && Pow(2, 3) == 8 && Pow(2, 4) == 16 && Pow(2, 5) == 0x20 && Pow(2, 6) == 0x40
    ensures Pow(2, 7) == 0x80 && Pow(2, 8) == 0x100 && Pow(2, 9) == 0x200 && Pow(2, 10) == 0x400 && Pow(2, 11) == 0x800
    ensures Pow(2, 12) == 0x1000 && Pow(2, 13) == 0x2000 && Pow(2, 14) == 0x4000 && Pow(2, 15) == 0x8000 && Pow(2, 0) == 1
  {
  }

  lemma StartLog(r: nat, e: nat, p: nat, m: nat)
    requires p == Pow(2, e) && m * p == r * 0x1_0000_0000
    ensures Within(r, 1, e, m, m)
  {
    hide Pow;
    PowSmall(r);
  }

  /** To the sixteenth power, rounded outwards to 32 bits. */
  lemma Step(r: nat, n: nat, e: nat, lo: nat, hi: nat, d: nat, p: nat, lo1: nat, hi1: nat)
    requires Within(r, n, e, lo, hi) && p == Pow(2, d)
    requires lo1 * p * SCALE <= Sixteenth(lo) && Sixteenth(hi) <= hi1 * p * SCALE
    ensures Within(r, 16 * n, 16 * e + d, lo1, hi1)
  {
    hide *;
    WithinParts(r, n, e, lo, hi);
    var x, y := Pow(2, e), Pow(r, n);
    PowNest(2, e, 16);
    PowNest(r, n, 16);
    SixteenthIs(x);
    SixteenthIs(y);
    SixteenthOne();
    PowAdd(2, 16 * e, d);
    SixteenthProduct(lo, x, y, 0x1_0000_0000);
    SixteenthProduct(y, 0x1_0000_0000, hi, x);
    StepLow(Pow(x, 16), Pow(y, 16), p, SCALE, Sixteenth(lo), lo1);
    StepHigh(Pow(x, 16), Pow(y, 16), p, SCALE, Sixteenth(hi), hi1);
    WithinFrom(r, 16 * n, 16 * e + d, lo1, hi1);
  }

  lemma WithinParts(r: nat, n: nat, e: nat, lo: nat, hi: nat)
    requires Within(r, n, e, lo, hi)
    ensures lo * Pow(2, e) <= Pow(r, n) * 0x1_0000_0000 <= hi * Pow(2, e)
  {
    hide Pow;
  }

  lemma WithinFrom(r: nat, n: nat, e: nat, lo: nat, hi: nat)
    requires lo * Pow(2, e) <= Pow(r, n) * 0x1_0000_0000 <= hi * Pow(2, e)
    ensures Within(r, n, e, lo, hi)
  {
    hide Pow;
  }

  lemma StepLow(x: nat, y: nat, p: nat, s: nat, q: nat, lo: nat)
    requires lo * p * s <= q && q * x <= y * (0x1_0000_0000 * s) && s > 0
    ensures lo * (x * p) <= y * 0x1_0000_0000
  {
    MulMono(lo * p * s, q, x, x);
    assert lo * p * s * x == s * (lo * (x * p));
    assert y * (0x1_0000_0000 * s) == s * (y * 0x1_0000_0000);
    Order(y * 0x1_0000_0000, lo * (x * p), s);
  }

  lemma StepHigh(x: nat, y: nat, p: nat, s: nat, q: nat, hi: nat)
    requires q <= hi * p * s && y * (0x1_0000_0000 * s) <= q * x && s > 0
    ensures y * 0x1_0000_0000 <= hi * (x * p)
  {
    MulMono(q, hi * p * s, x, x);
    assert hi * p * s * x == s * (hi * (x * p));
    assert y * (0x1_0000_0000 * s) == s * (y * 0x1_0000_0000);
    Order(hi * (x * p), y * 0x1_0000_0000, s);
  }

  lemma EndLog(r: nat, n: nat, e: nat, lo: nat, hi: nat)
    requires Within(r, n, e, lo, hi) && n > 0 && 0x1_0000_0000 <= lo && hi <= 0x2_0000_0000
    ensures LogWithin(r, n, e, e + 1)
  {
    hide Pow;
    PowDouble(e);
    MulMono(0x1_0000_0000, lo, Pow(2, e), Pow(2, e));
    MulMono(hi, 0x2_0000_0000, Pow(2, e), Pow(2, e));
  }

  lemma Log2()
    ensures LogWithin(2, 0x100_0000, 16777216, 16777216)
  {
    hide Pow;
  }

  lemma Log3()
    ensures LogWithin(3, 0x100_0000, 26591258, 26591259)
  {
    hide Pow, LogWithin, Within;
    SmallPowers();
    StartLog(3, 1, 2, 0x180000000);
    Step(3, 0x1, 1, 0x180000000, 0x180000000, 9, 0x200, 0x1486ba080, 0x1486ba080);
    Step(3, 0x10, 25, 0x1486ba080, 0x1486ba080, 5, 0x20, 0x1aea88d5c, 0x1aea88d5d);
    Step(3, 0x100, 405, 0x1aea88d5c, 0x1aea88d5d, 12, 0x1000, 0x1012381ea, 0x1012381f4);
    Step(3, 0x1000, 6492, 0x1012381ea, 0x1012381f4, 0, 0x1, 0x112d6fe52, 0x112d6fefe);
    Step(3, 0x10000, 103872, 0x112d6fe52, 0x112d6fefe, 1, 0x2, 0x18eb2e6b2, 0x18eb2f64c);
    Step(3, 0x100000, 1661953, 0x18eb2e6b2, 0x18eb2f64c, 10, 0x400, 0x12b8416d8, 0x12b84d260);
    EndLog(3, 0x1000000, 26591258, 0x12b8416d8, 0x12b84d260);
  }

  lemma Log5()
    ensures LogWithin(5, 0x100_0000, 38955489, 38955490)
  {
    hide Pow, LogWithin, Within;
    SmallPowers();
    StartLog(5, 2, 4, 0x140000000);
    Step(5, 0x1, 2, 0x140000000, 0x140000000, 5, 0x20, 0x11c37937e, 0x11c37937f);
    Step(5, 0x10, 37, 0x11c37937e, 0x11c37937f, 2, 0x4, 0x154fdd7f6, 0x154fdd80a);
    Step(5, 0x100, 594, 0x154fdd7f6, 0x154fdd80a, 6, 0x40, 0x188c0a3ee, 0x188c0a55f);
    Step(5, 0x1000, 9510, 0x188c0a3ee, 0x188c0a55f, 9, 0x200, 0x1d7039c79, 0x1d703b822);
    Step(5, 0x10000, 152169, 0x1d7039c79, 0x1d703b822, 14, 0x4000, 0x10d7a59ae, 0x10d7b56e3);
    Step(5, 0x100000, 2434718, 0x10d7a59ae, 0x10d7b56e3, 1, 0x2, 0x122e611a3, 0x122f72777);
    EndLog(5, 0x1000000, 38955489, 0x122e611a3, 0x122f72777);
  }

  lemma Log7()
    ensures LogWithin(7, 0x100_0000, 47099599, 47099600)
  {
    hide Pow, LogWithin, Within;
    SmallPowers();
    StartLog(7, 2, 4, 0x1c0000000);
    Step(7, 0x1, 2, 0x1c0000000, 0x1c0000000, 12, 0x1000, 0x1e39a5057, 0x1e39a5058);
    Step(7, 0x10, 44, 0x1e39a5057, 0x1e39a5058, 14, 0x4000, 0x19af63040, 0x19af6304e);
    Step(7, 0x100, 718, 0x19af63040, 0x19af6304e, 10, 0x400, 0x1e651cc7b, 0x1e651cd85);
    Step(7, 0x1000, 11498, 0x1e651cc7b, 0x1e651cd85, 14, 0x4000, 0x1c17f8627, 0x1c17f9585);
    Step(7, 0x10000, 183982, 0x1c17f8627, 0x1c17f9585, 12, 0x1000, 0x1fe231d82, 0x1fe24348e);
    Step(7, 0x100000, 2943724, 0x1fe231d82, 0x1fe24348e, 15, 0x8000, 0x1e2fe8f12, 0x1e30f1289);
    EndLog(7, 0x1000000, 47099599, 0x1e2fe8f12, 0x1e30f1289);
  }

  lemma Log11()
    ensures LogWithin(11, 0x100_0000, 58039631, 58039632)
  {
    hide Pow, LogWithin, Within;
    SmallPowers();
    StartLog(11, 3, 8, 0x160000000);
    Step(11, 0x1, 3, 0x160000000, 0x160000000, 7, 0x80, 0x1467e125c, 0x1467e125d);
    Step(11, 0x10, 55, 0x1467e125c, 0x1467e125d, 5, 0x20, 0x187f10358, 0x187f1036c);
    Step(11, 0x100, 885, 0x187f10358, 0x187f1036c, 9, 0x200, 0x1c7b0b922, 0x1c7b0ba97);
    Step(11, 0x1000, 14169, 0x1c7b0b922, 0x1c7b0ba97, 13, 0x2000, 0x13d7cf68a, 0x13d7d06c9);
    Step(11, 0x10000, 226717, 0x13d7cf68a, 0x13d7d06c9, 4, 0x10, 0x1f518781a, 0x1f51a125f);
    Step(11, 0x100000, 3627476, 0x1f518781a, 0x1f51a125f, 15, 0x8000, 0x16acf78df, 0x16ae20a1c);
    EndLog(11, 0x1000000, 58039631, 0x16acf78df, 0x16ae20a1c);
  }

  lemma Log13()
    ensures LogWithin(13, 0x100_0000, 62083076, 62083077)
  {
    hide Pow, LogWithin, Within;
    SmallPowers();
    StartLog(13, 3, 8, 0x1a0000000);
    Step(13, 0x1, 3, 0x1a0000000, 0x1a0000000, 11, 0x800, 0x127811c2d, 0x127811c2e);
    Step(13, 0x10, 59, 0x127811c2d, 0x127811c2e, 3, 0x8, 0x13dee388a, 0x13dee389d);
    Step(13, 0x100, 947, 0x13dee388a, 0x13dee389d, 5, 0x20, 0x1003153ec, 0x1003154e2);
    Step(13, 0x1000, 15157, 0x1003153ec, 0x1003154e2, 0, 0x1, 0x10319b758, 0x10319c6e5);
    Step(13, 0x10000, 242512, 0x10319b758, 0x10319c6e5, 0, 0x1, 0x13660d5ea, 0x13661fff9);
    Step(13, 0x100000, 3880192, 0x13660d5ea, 0x13661fff9, 4, 0x10, 0x15cc59335, 0x15cda82a6);
    EndLog(13, 0x1000000, 62083076, 0x15cc59335, 0x15cda82a6);
  }

  lemma Log17()
    ensures LogWithin(17, 0x100_0000, 68576246, 68576247)
  {
    hide Pow, LogWithin, Within;
    SmallPowers();
    StartLog(17, 4, 16, 0x110000000);
    Step(17, 0x1, 4, 0x110000000, 0x110000000, 1, 0x2, 0x151a7a418, 0x151a7a419);
    Step(17, 0x10, 65, 0x151a7a418, 0x151a7a419, 6, 0x40, 0x14f92f51c, 0x14f92f52d);
    Step(17, 0x100, 1046, 0x14f92f51c, 0x14f92f52d, 6, 0x40, 0x12ff8ff98, 0x12ff90090);
    Step(17, 0x1000, 16742, 0x12ff8ff98, 0x12ff90090, 3, 0x8, 0x1f3a574e4, 0x1f3a58e5f);
    Step(17, 0x10000, 267875, 0x1f3a574e4, 0x1f3a58e5f, 15, 0x8000, 0x15a617141, 0x15a628be4);
    Step(17, 0x100000, 4286015, 0x15a617141, 0x15a628be4, 6, 0x40, 0x1f8c08e7f, 0x1f8da4cee);
    EndLog(17, 0x1000000, 68576246, 0x1f8c08e7f, 0x1f8da4cee);
  }

  lemma Log19()
    ensures LogWithin(19, 0x100_0000, 71268397, 71268398)
  {
    hide Pow, LogWithin, Within;
    SmallPowers();
    StartLog(19, 4, 16, 0x130000000);
    Step(19, 0x1, 4, 0x130000000, 0x130000000, 3, 0x8, 0x1f45db82d, 0x1f45db82e);
    Step(19, 0x10, 67, 0x1f45db82d, 0x1f45db82e, 15, 0x8000, 0x1627385a8, 0x1627385b5);
    Step(19, 0x100, 1087, 0x1627385a8, 0x1627385b5, 7, 0x80, 0x16cd56b24, 0x16cd56bfb);
    Step(19, 0x1000, 17399, 0x16cd56b24, 0x16cd56bfb, 8, 0x100, 0x1218534a1, 0x121853f4c);
    Step(19, 0x10000, 278392, 0x1218534a1, 0x121853f4c, 2, 0x4, 0x1ca5be142, 0x1ca5cef7d);
    Step(19, 0x100000, 4454274, 0x1ca5be142, 0x1ca5cef7d, 13, 0x2000, 0x15c9440da, 0x15ca11937);
    EndLog(19, 0x1000000, 71268397, 0x15c9440da, 0x15ca11937);
  }

  lemma Log23()
    ensures LogWithin(23, 0x100_0000, 75892776, 75892777)
  {
    hide Pow, LogWithin, Within;
    SmallPowers();
    StartLog(23, 4, 16, 0x170000000);
    Step(23, 0x1, 4, 0x170000000, 0x170000000, 8, 0x100, 0x14c7310e9, 0x14c7310ea);
    Step(23, 0x10, 72, 0x14c7310e9, 0x14c7310ea, 6, 0x40, 0x105b768b7, 0x105b768c4);
    Step(23, 0x100, 1158, 0x105b768b7, 0x105b768c4, 0, 0x1, 0x16c7fce48, 0x16c7fcf6b);
    Step(23, 0x1000, 18528, 0x16c7fce48, 0x16c7fcf6b, 8, 0x100, 0x11d4d9d4f, 0x11d4dab8d);
    Step(23, 0x10000, 296456, 0x11d4d9d4f, 0x11d4dab8d, 2, 0x4, 0x16a72d418, 0x16a73f597);
    Step(23, 0x100000, 4743298, 0x16a72d418, 0x16a73f597, 8, 0x100, 0x104ad4373, 0x104ba4719);
    EndLog(23, 0x1000000, 75892776, 0x104ad4373, 0x104ba4719);
  }

  lemma Log29()
    ensures LogWithin(29, 0x100_0000, 81503396, 81503397)
  {
    hide Pow, LogWithin, Within;
    SmallPowers();
    StartLog(29, 4, 16, 0x1d0000000);
    Step(29, 0x1, 4, 0x1d0000000, 0x1d0000000, 13, 0x2000, 0x1a7ef1bb0, 0x1a7ef1bb1);
    Step(29, 0x10, 77, 0x1a7ef1bb0, 0x1a7ef1bb1, 11, 0x800, 0x18fccce64, 0x18fccce75);
    Step(29, 0x100, 1243, 0x18fccce64, 0x18fccce75, 10, 0x400, 0x139079e0e, 0x139079ee4);
    Step(29, 0x1000, 19898, 0x139079e0e, 0x139079ee4, 4, 0x10, 0x18f9f7dbb, 0x18f9f8ed0);
    Step(29, 0x10000, 318372, 0x18f9f7dbb, 0x18f9f8ed0, 10, 0x400, 0x136d1d0e9, 0x136d2a57e);
    Step(29, 0x100000, 5093962, 0x136d1d0e9, 0x136d2a57e, 4, 0x10, 0x164caadab, 0x164d9ee5d);
    EndLog(29, 0x1000000, 81503396, 0x164caadab, 0x164d9ee5d);
  }

  lemma Log31()
    ensures LogWithin(31, 0x100_0000, 83117621, 83117622)
  {
    hide Pow, LogWithin, Within;
    SmallPowers();
    StartLog(31, 4, 16, 0x1f0000000);
    Step(31, 0x1, 4, 0x1f0000000, 0x1f0000000, 15, 0x8000, 0x134135f75, 0x134135f76);
    Step(31, 0x10, 79, 0x134135f75, 0x134135f76, 4, 0x10, 0x135994252, 0x135994263);
    Step(31, 0x100, 1268, 0x135994252, 0x135994263, 4, 0x10, 0x14f042943, 0x14f042a6a);
    Step(31, 0x1000, 20292, 0x14f042943, 0x14f042a6a, 6, 0x40, 0x127fd0430, 0x127fd147b);
    Step(31, 0x10000, 324678, 0x127fd0430, 0x127fd147b, 3, 0x8, 0x1465d9455, 0x1465eb3c8);
    Step(31, 0x100000, 5194851, 0x1465d9455, 0x1465eb3c8, 5, 0x20, 0x18582bcd9, 0x185982e71);
    EndLog(31, 0x1000000, 83117621, 0x18582bcd9, 0x185982e71);
  }

  /** Logarithms of a product. */
  lemma Product(r: nat, lo: nat, hi: nat, r': nat, lo': nat, hi': nat, n: nat)
    requires LogWithin(r, n, lo, hi) && LogWithin(r', n, lo', hi')
    ensures LogWithin(r * r', n, lo + lo', hi + hi')
  {
    hide Pow;
    PowTimes(r, r', n);
    PowAdd(2, lo, lo');
    PowAdd(2, hi, hi');
    MulMono(Pow(2, lo), Pow(r, n), Pow(2, lo'), Pow(r', n));
    MulMono(Pow(r, n), Pow(2, hi), Pow(r', n), Pow(2, hi'));
  }

  // ----- the table -----

  ghost predicate HasBracket(r: nat)
    requires 2 <= r <= 36
  {
    exists lo: nat, hi: nat, k1: nat, a1: nat, k2: nat, a2: nat ::
      Bracket(lo, hi, Entry(r), k1, a1, k2, a2) && LogWithin(r, 0x100_0000, lo, hi)
  }

  lemma BracketFrom(r: nat, x: nat, lo: nat, hi: nat, k1: nat, a1: nat, k2: nat, a2: nat)
    requires 2 <= r <= 36 && x == LOG2_RADIX[r - 2] && LogWithin(r, 0x100_0000, lo, hi)
    requires k2 * a1 == k1 * a2 + 1 && a1 + a2 > 2048 && a1 > 0 && a2 > 0
    requires k1 * 0x100_0000 < x * a1 && x * a2 < k2 * 0x100_0000
    requires k1 * hi < 0x100_0000 * a1 && 0x100_0000 * a2 < k2 * lo
    ensures HasBracket(r)
  {
    hide LogWithin;
    assert Bracket(lo, hi, Entry(r), k1, a1, k2, a2);
  }

  lemma Brackets3To9(r: nat)
    requires r == 3 || r == 5 || r == 6 || r == 7 || r == 9
    ensures HasBracket(r)
  {
    hide Pow, HasBracket, LogWithin, Within;
    if r == 3 {
      Log3();
      BracketFrom(3, 0xa1849d, 26591258, 26591259, 971, 1539, 665, 1054);
    } else if r == 5 {
      Log5();
      BracketFrom(5, 0x6e40d2, 38955489, 38955490, 643, 1493, 789, 1832);
    } else if r == 6 {
      Log2();
      Log3();
      Product(2, 16777216, 16777216, 3, 26591258, 26591259, 0x100_0000);
      BracketFrom(6, 0x6308c9, 43368474, 43368475, 306, 791, 665, 1719);
    } else if r == 7 {
      Log7();
      BracketFrom(7, 0x5b3065, 47099599, 47099600, 571, 1603, 680, 1909);
    } else {
      Log3();
      Product(3, 26591258, 26591259, 3, 26591258, 26591259, 0x100_0000);
      BracketFrom(9, 0x50c24e, 53182516, 53182518, 153, 485, 512, 1623);
    }
  }

  lemma Brackets10To14(r: nat)
    requires r == 10 || r == 11 || r == 12 || r == 13 || r == 14
    ensures HasBracket(r)
  {
    hide Pow, HasBracket, LogWithin, Within;
    if r == 10 {
      Log2();
      Log5();
      Product(2, 16777216, 16777216, 5, 38955489, 38955490, 0x100_0000);
      BracketFrom(10, 0x4d104d, 55732705, 55732706, 497, 1651, 146, 485);
    } else if r == 11 {
      Log11();
      BracketFrom(11, 0x4a0027, 58039631, 58039632, 37, 128, 579, 2003);
    } else if r == 12 {
      Log2();
      Log3();
      Product(2, 16777216, 16777216, 3, 26591258, 26591259, 0x100_0000);
      Product(2, 16777216, 16777216, 6, 43368474, 43368475, 0x100_0000);
      BracketFrom(12, 0x4768ce, 60145690, 60145691, 306, 1097, 359, 1287);
    } else if r == 13 {
      Log13();
      BracketFrom(13, 0x452e54, 62083076, 62083077, 227, 840, 464, 1717);
    } else {
      Log2();
      Log7();
      Product(2, 16777216, 16777216, 7, 47099599, 47099600, 0x100_0000);
      BracketFrom(14, 0x433d00, 63876815, 63876816, 462, 1759, 109, 415);
    }
  }

  lemma Brackets15To20(r: nat)
    requires r == 15 || r == 17 || r == 18 || r == 19 || r == 20
    ensures HasBracket(r)
  {
    hide Pow, HasBracket, LogWithin, Within;
    if r == 15 {
      Log3();
      Log5();
      Product(3, 26591258, 26591259, 5, 38955489, 38955490, 0x100_0000);
      BracketFrom(15, 0x418677, 65546747, 65546749, 290, 1133, 247, 965);
    } else if r == 17 {
      Log17();
      BracketFrom(17, 0x3ea16b, 68576246, 68576247, 343, 1402, 263, 1075);
    } else if r == 18 {
      Log2();
      Log3();
      Product(3, 26591258, 26591259, 3, 26591258, 26591259, 0x100_0000);
      Product(2, 16777216, 16777216, 9, 53182516, 53182518, 0x100_0000);
      BracketFrom(18, 0x3d645a, 69959732, 69959734, 153, 638, 359, 1497);
    } else if r == 19 {
      Log19();
      BracketFrom(19, 0x3c43c2, 71268397, 71268398, 121, 514, 480, 2039);
    } else {
      Log2();
      Log5();
      Product(2, 16777216, 16777216, 5, 38955489, 38955490, 0x100_0000);
      Product(2, 16777216, 16777216, 10, 55732705, 55732706, 0x100_0000);
      BracketFrom(20, 0x3b3b9a, 72509921, 72509922, 351, 1517, 146, 631);
    }
  }

  lemma Brackets21To25(r: nat)
    requires r == 21 || r == 22 || r == 23 || r == 24 || r == 25
    ensures HasBracket(r)
  {
    hide Pow, HasBracket, LogWithin, Within;
    if r == 21 {
      Log3();
      Log7();
      Product(3, 26591258, 26591259, 7, 47099599, 47099600, 0x100_0000);
      BracketFrom(21, 0x3a4899, 73690857, 73690859, 339, 1489, 130, 571);
    } else if r == 22 {
      Log2();
      Log11();
      Product(2, 16777216, 16777216, 11, 58039631, 58039632, 0x100_0000);
      BracketFrom(22, 0x39680b, 74816847, 74816848, 37, 165, 431, 1922);
    } else if r == 23 {
      Log23();
      BracketFrom(23, 0x3897b3, 75892776, 75892777, 403, 1823, 191, 864);
    } else if r == 24 {
      Log2();
      Log3();
      Product(2, 16777216, 16777216, 3, 26591258, 26591259, 0x100_0000);
      Product(2, 16777216, 16777216, 6, 43368474, 43368475, 0x100_0000);
      Product(2, 16777216, 16777216, 12, 60145690, 60145691, 0x100_0000);
      BracketFrom(24, 0x37d5af, 76922906, 76922907, 306, 1403, 359, 1646);
    } else {
      Log5();
      Product(5, 38955489, 38955490, 5, 38955489, 38955490, 0x100_0000);
      BracketFrom(25, 0x372069, 77910978, 77910980, 424, 1969, 73, 339);
    }
  }

  lemma Brackets26To30(r: nat)
    requires r == 26 || r == 27 || r == 28 || r == 29 || r == 30
    ensures HasBracket(r)
  {
    hide Pow, HasBracket, LogWithin, Within;
    if r == 26 {
      Log2();
      Log13();
      Product(2, 16777216, 16777216, 13, 62083076, 62083077, 0x100_0000);
      BracketFrom(26, 0x367686, 78860292, 78860293, 227, 1067, 237, 1114);
    } else if r == 27 {
      Log3();
      Product(3, 26591258, 26591259, 3, 26591258, 26591259, 0x100_0000);
      Product(3, 26591258, 26591259, 9, 53182516, 53182518, 0x100_0000);
      BracketFrom(27, 0x35d6df, 79773774, 79773777, 102, 485, 359, 1707);
    } else if r == 28 {
      Log2();
      Log7();
      Product(2, 16777216, 16777216, 7, 47099599, 47099600, 0x100_0000);
      Product(2, 16777216, 16777216, 14, 63876815, 63876816, 0x100_0000);
      BracketFrom(28, 0x354072, 80654031, 80654032, 353, 1697, 109, 524);
    } else if r == 29 {
      Log29();
      BracketFrom(29, 0x34b261, 81503396, 81503397, 169, 821, 345, 1676);
    } else {
      Log2();
      Log3();
      Log5();
      Product(3, 26591258, 26591259, 5, 38955489, 38955490, 0x100_0000);
      Product(2, 16777216, 16777216, 15, 65546747, 65546749, 0x100_0000);
      BracketFrom(30, 0x342bea, 82323963, 82323965, 290, 1423, 247, 1212);
    }
  }

  lemma Brackets31To36(r: nat)
    requires r == 31 || r == 33 || r == 34 || r == 35 || r == 36
    ensures HasBracket(r)
  {
    hide Pow, HasBracket, LogWithin, Within;
    if r == 31 {
      Log31();
      BracketFrom(31, 0x33ac62, 83117621, 83117622, 131, 649, 371, 1838);
    } else if r == 33 {
      Log3();
      Log11();
      Product(3, 26591258, 26591259, 11, 58039631, 58039632, 0x100_0000);
      BracketFrom(33, 0x32bfd9, 84630889, 84630891, 45, 227, 383, 1932);
    } else if r == 34 {
      Log2();
      Log17();
      Product(2, 16777216, 16777216, 17, 68576246, 68576247, 0x100_0000);
      BracketFrom(34, 0x3251dd, 85353462, 85353463, 343, 1745, 263, 1338);
    } else if r == 35 {
      Log5();
      Log7();
      Product(5, 38955489, 38955490, 7, 47099599, 47099600, 0x100_0000);
      BracketFrom(35, 0x31e8d6, 86055088, 86055090, 379, 1944, 263, 1349);
    } else {
      Log2();
      Log3();
      Product(3, 26591258, 26591259, 3, 26591258, 26591259, 0x100_0000);
      Product(2, 16777216, 16777216, 9, 53182516, 53182518, 0x100_0000);
      Product(2, 16777216, 16777216, 18, 69959732, 69959734, 0x100_0000);
      BracketFrom(36, 0x318465, 86736948, 86736950, 153, 791, 359, 1856);
    }
  }

  lemma EveryBracket(r: nat)
    requires 2 <= r <= 36 && !PowerOfTwo(r)
    ensures HasBracket(r)
  {
    hide HasBracket;
    if r <= 9 { Brackets3To9(r); } else if r <= 14 { Brackets10To14(r); } else if r <= 20 { Brackets15To20(r); }
    else if r <= 25 { Brackets21To25(r); } else if r <= 30 { Brackets26To30(r); } else { Brackets31To36(r); }
  }

  // ----- the exponent -----

  /** The exponent is exact on the range the source gives for it: radix^q <= 2^a < radix^(q+1). */
  lemma MulLog2RadixIs(a: int, radix: nat)
    requires 2 <= radix <= 36 && -2048 <= a <= 2047
    ensures ExponentOf(radix, a + 1, MulLog2Radix(a, radix) + 1)
  {
    hide ExponentOf, Entry, Bracket, LogWithin;
    if PowerOfTwo(radix) {
      BinaryLog(a, radix);
    } else {
      EveryBracket(radix);
      var lo: nat, hi: nat, k1: nat, a1: nat, k2: nat, a2: nat :|
        Bracket(lo, hi, Entry(radix), k1, a1, k2, a2) && LogWithin(radix, 0x100_0000, lo, hi);
      EntryLog(a, radix, lo, hi, Entry(radix), k1, a1, k2, a2);
    }
  }

  lemma EntryLog(a: int, r: nat, lo: nat, hi: nat, x: nat, k1: nat, a1: nat, k2: nat, a2: nat)
    requires r >= 2 && -2048 <= a <= 2047 && LogWithin(r, 0x100_0000, lo, hi) && Bracket(lo, hi, x, k1, a1, k2, a2)
    ensures ExponentOf(r, a + 1, a * x / 0x100_0000 + 1)
  {
    hide Pow, ExponentOf, LogWithin;
    var q := a * x / 0x100_0000;
    QuotientOf(a * x, 0x100_0000);
    PowSmall(r);
    PowZero();
    if a == 0 {
      ZeroTimes(x);
      FromPowers(r, 0, 0);
    } else if a > 0 {
      NonNegativeProduct(a, x);
      EntryDecides(r, lo, hi, x, k1, a1, k2, a2, q, a);
      EntryDecides(r, lo, hi, x, k1, a1, k2, a2, q + 1, a);
      FromPowers(r, a, q);
    } else {
      NegatedProduct(a, x);
      PositiveEntry(x, k1, a1, -a);
      EntryDecides(r, lo, hi, x, k1, a1, k2, a2, -q, -a);
      EntryDecides(r, lo, hi, x, k1, a1, k2, a2, -q - 1, -a);
      FromInverses(r, -a, -q);
    }
  }

  lemma NegatedProduct(a: int, x: int)
    ensures a * x == -(x * -a)
  {
  }

  lemma QuotientOf(n: int, d: nat)
    requires d > 0
    ensures n / d * d <= n < (n / d + 1) * d
    ensures n >= 0 ==> n / d >= 0
    ensures n < 0 ==> n / d < 0
  {
  }

  lemma PositiveEntry(x: nat, k1: nat, a1: nat, b: nat)
    requires k1 * 0x100_0000 < x * a1 && b > 0
    ensures x * b > 0
  {
    if x == 0 { ZeroTimes(a1); }
    TimesPositive(x, b);
  }

  lemma FromPowers(r: nat, a: nat, q: nat)
    requires r >= 1 && Pow(r, q) <= Pow(2, a) < Pow(r, q + 1)
    ensures ExponentOf(r, a + 1, q + 1)
  {
    hide Pow, Up, RadixUp;
    UpPow(a);
    RadixPow(r, q);
    RadixPow(r, q + 1);
  }

  lemma FromInverses(r: nat, b: nat, c: nat)
    requires r >= 1 && c >= 1 && Pow(r, c - 1) < Pow(2, b) < Pow(r, c)
    ensures ExponentOf(r, 1 - b, 1 - c)
  {
    hide Pow, Up, RadixUp;
    UpPow(b);
    RadixPow(r, c);
    RadixPow(r, c - 1);
  }

  // ----- powers of two -----

  lemma BinaryLog(a: int, radix: nat)
    requires PowerOfTwo(radix)
    ensures ExponentOf(radix, a + 1, MulLog2Radix(a, radix) + 1)
  {
    hide Pow, Up, RadixUp, Radix;
    var s := RadixBits(radix);
    var q := MulLog2Radix(a, radix);
    BitsOf(radix);
    FlooredBits(a, s);
    BinaryPower(radix, s, q);
    BinaryPower(radix, s, q + 1);
    UpOrder(s * q, a);
    UpOrder(s * (q + 1), a);
  }

  lemma BitsOf(radix: nat)
    requires PowerOfTwo(radix)
    ensures Radix(1, RadixBits(radix)) == radix
  {
    assert Pow(2, 2) == 4 && Pow(2, 3) == 8 && Pow(2, 5) == 32;
  }

  /** Shifted first, the truncating division rounds down. */
  lemma FlooredBits(a: int, s: nat)
    requires s > 0
    ensures var q := Truncated(if a < 0 then a - (s - 1) else a, s); s * q <= a < s * (q + 1)
  {
    if a >= 0 {
      DivMod(a, s);
    } else {
      DivMod(s - 1 - a, s);
    }
  }

  lemma BinaryPower(radix: nat, s: nat, k: int)
    requires radix >= 1 && Radix(1, s) == radix
    ensures RadixUp(radix, k) == Up(s * k) && RadixUp(radix, -k) == Up(-(s * k))
  {
    hide Pow, Up, Radix;
    RadixPower(1, s, k);
    RadixPower(1, s, -k);
    if k > 0 { PowOnes(k); } else { PowOnes(-k); }
    assert k * s == s * k && -k * s == -(s * k);
  }
}
