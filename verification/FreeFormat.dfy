/** Free-format printing: the search for few digits that read back as the same double. */
module FreeFormat {
  import opened Limbs
  import opened Reciprocal
  import opened Rounding
  import opened BigNumber
  import opened PowerScaling
  import opened RoundDouble
  import opened DoubleRounding

  /** A finite positive double, m * 2^(e-53); subnormal ones are kept normalized, with zeros below the unit. */
  predicate FiniteDouble(m: nat, e: int) {
    0x10_0000_0000_0000 <= m < 0x20_0000_0000_0000 && -1073 <= e <= 1024 && WholeUnits(m, e)
  }

  // ----- reading back a number close to a double -----

  function Gap(a: nat, b: nat): nat {
    if a >= b then a - b else b - a
  }

  /** A number within a 2^54th of a double rounds to it. `n1 / d1` is n / d scaled so that the double
    * becomes its mantissa m. */
  lemma CloseRounds(n1: nat, d1: nat, m: nat)
    requires d1 > 0 && TWO52 <= m < TWO53 && Gap(n1, m * d1) * (2 * TWO53) < m * d1
    ensures Rounded(n1, d1, NearestEven) == m
    ensures n1 < TWO53 * d1 && d1 <= n1
    ensures n1 < TWO52 * d1 ==> m == TWO52 && (TWO52 / 2) * d1 <= n1 && Rounded(2 * n1, d1, NearestEven) == TWO53
  {
    MulMono(m, TWO53 - 1, d1, d1);
    assert (TWO53 - 1) * d1 == TWO53 * d1 - d1;
    var gap := Gap(n1, m * d1);
    assert 2 * gap < d1;
    NearestIs(n1, d1, m);
    MulMono(TWO52, m, d1, d1);
    if n1 < TWO52 * d1 {
      MulMono(TWO52 + 1, m, d1, d1);
      assert (TWO52 + 1) * d1 == TWO52 * d1 + d1;
      assert m == TWO52;
      assert 2 * (2 * gap) < d1;
      NearestIs(2 * n1, d1, TWO53);
    }
  }

  lemma NearestIs(n: nat, d: nat, m: nat)
    requires d > 0 && 2 * Gap(n, m * d) < d
    ensures Rounded(n, d, NearestEven) == m
  {
    if n >= m * d {
      RemainderIs(n, d, m, n - m * d);
    } else {
      TimesSign(m, d);
      assert (m - 1) * d == m * d - d;
      RemainderIs(n, d, m - 1, n - (m - 1) * d);
    }
  }

  lemma AtLeastIs(n: nat, d: nat, j: nat)
    ensures AtLeast(n, d, j) <==> d * Pow(2, j) <= n
  {
    hide Pow;
    PowZero();
    assert n * 1 == n;
  }

  lemma RoundsToIntro(n: nat, d: nat, m: nat, e: int, e0: int)
    requires d > 0 && AtLeast(n, d, e0 - 1) && !AtLeast(n, d, e0) && Round53(n, d, e0, NearestEven) == (m, e)
    ensures RoundsTo(n, d, NearestEven, m, e)
  {
    hide AtLeast, Round53;
    assert InBinade(n, d, e0);
  }

  lemma Round53Normal(n: nat, d: nat, m: nat, e: int)
    requires d > 0 && FiniteDouble(m, e) && e >= -1021 && d * Up(e - 53) > 0 && Rounded(n * Up(53 - e), d * Up(e - 53), NearestEven) == m
    ensures Round53(n, d, e, NearestEven) == (m, e)
  {
    hide Pow, Rounded;
    assert Up(0) == 1;
  }

  lemma ReadsBack(n: nat, d: nat, m: nat, e: int)
    requires d > 0 && FiniteDouble(m, e)
    requires Gap(n * Up(53 - e), m * (d * Up(e - 53))) * (2 * TWO53) < m * (d * Up(e - 53))
    ensures RoundsTo(n, d, NearestEven, m, e)
  {
    hide *;
    var n1, d1 := n * Up(53 - e), d * Up(e - 53);
    NormalFacts(m, e);
    TimesPositive(d, Up(e - 53));
    CloseRounds(n1, d1, m);
    NearBinade(n, d, e);
    var here := n1 >= TWO52 * d1;
    if e < -1021 {
      ReadsBackTiny(n, d, m, e, here);
    } else if here {
      Round53Normal(n, d, m, e);
    } else {
      BelowBinade(n, d, m, e);
    }
    RoundsToIntro(n, d, m, e, if here then e else e - 1);
  }

  lemma NearBinade(n: nat, d: nat, e: int)
    requires d > 0
    requires n * Up(53 - e) < TWO53 * (d * Up(e - 53)) && (TWO52 / 2) * (d * Up(e - 53)) <= n * Up(53 - e)
    ensures !AtLeast(n, d, e) && (AtLeast(n, d, e - 1) <==> n * Up(53 - e) >= TWO52 * (d * Up(e - 53))) && AtLeast(n, d, e - 2)
  {
    hide *;
    var n1, d1 := n * Up(53 - e), d * Up(e - 53);
    TimesPositive(d, Up(e - 53));
    ScaledSelf(n, d, 53 - e);
    RatioAtLeast(n1, d1, n, d, 53 - e, 53);
    RatioAtLeast(n1, d1, n, d, 53 - e, 52);
    RatioAtLeast(n1, d1, n, d, 53 - e, 51);
    AtLeastIs(n1, d1, 53);
    AtLeastIs(n1, d1, 52);
    AtLeastIs(n1, d1, 51);
    Commuted(d1);
  }

  lemma NormalFacts(m: nat, e: int)
    requires FiniteDouble(m, e)
    ensures 0 < TWO52 <= m < TWO53 == 2 * TWO52 && -1073 <= e <= 1024 && (e >= -1021 ==> E_MIN <= e)
  {
  }

  /** Below the normal range the steps stay those of the unit 2^-1074. */
  lemma ReadsBackTiny(n: nat, d: nat, m: nat, e: int, here: bool)
    requires d > 0 && FiniteDouble(m, e) && e < -1021 && (!here ==> m == TWO52)
    requires Gap(n * Up(53 - e), m * (d * Up(e - 53))) * (2 * TWO53) < m * (d * Up(e - 53))
    ensures Round53(n, d, if here then e else e - 1, NearestEven) == (m, e)
  {
    hide *;
    hide Up;
    var j: nat := -1021 - e;
    var u, s := m / Pow(2, j), Pow(2, j);
    PowPositive(2, j);
    WholeParts(m, e);
    TinyRatio(n, d, u, e);
    TinyNear(n * Pow(2, 1074), d, u, s, m);
    NearestIs(n * Pow(2, 1074), d, u);
    if here { TinyHere(n, d, m, e, u); } else { TinyBelow(n, d, m, e, u); }
  }

  lemma WholeParts(m: nat, e: int)
    requires FiniteDouble(m, e) && e < -1021
    ensures -1073 <= e && Pow(2, -1021 - e) > 0 && m == (m / Pow(2, -1021 - e)) * Pow(2, -1021 - e) && 0 < m / Pow(2, -1021 - e) <= m < TWO53
  {
    hide Pow;
    PowPositive(2, -1021 - e);
    DivMod(m, Pow(2, -1021 - e));
    var u := m / Pow(2, -1021 - e);
    if u == 0 { ZeroTimes(Pow(2, -1021 - e)); }
    MulMono(u, u, 1, Pow(2, -1021 - e));
  }

  lemma TinyRatio(n: nat, d: nat, u: nat, e: int)
    requires -1073 <= e < -1021
    ensures n * Up(53 - e) == n * Pow(2, 1074) * Pow(2, -1021 - e) && d * Up(e - 53) == d
  {
    hide Pow;
    PowAdd(2, 1074, -1021 - e);
    MulAssoc(n, Pow(2, 1074), Pow(2, -1021 - e));
  }

  lemma TinyNear(a: nat, d: nat, u: nat, s: nat, m: nat)
    requires Gap(a * s, m * d) * (2 * TWO53) < m * d && m == u * s && s > 0 && d > 0 && u < TWO53
    ensures 2 * Gap(a, u * d) < d
  {
    hide Gap;
    var g := Gap(a, u * d);
    assert m * d == u * d * s;
    GapTimes(a, u * d, s);
    assert g * s * (2 * TWO53) == s * (g * (2 * TWO53));
    Order(g * (2 * TWO53), u * d, s);
    MulMono(u, TWO53, d, d);
    assert TWO53 * (2 * g) == g * (2 * TWO53);
    Order(2 * g, d, TWO53);
  }

  lemma GapTimes(a: nat, b: nat, s: nat)
    ensures Gap(a * s, b * s) == Gap(a, b) * s
  {
    MulMono(a, b, s, s);
    MulMono(b, a, s, s);
    assert a >= b ==> (a - b) * s == a * s - b * s;
    assert a <= b ==> (b - a) * s == b * s - a * s;
  }

  lemma TinyStep(n: nat, d: nat, e0: int, u: nat)
    requires d > 0 && e0 < -1021 && Rounded(n * Pow(2, 1074), d, NearestEven) == u
    ensures var m := u * Pow(2, -1021 - e0); Round53(n, d, e0, NearestEven) == if m >= TWO53 then (m / 2, e0 + 1) else (m, e0)
  {
    hide Pow, Rounded;
    PrecStep(e0, -1074);
    assert d * 1 == d;
  }

  lemma TinyHere(n: nat, d: nat, m: nat, e: int, u: nat)
    requires d > 0 && e < -1021 && Rounded(n * Pow(2, 1074), d, NearestEven) == u && m == u * Pow(2, -1021 - e) < TWO53
    ensures Round53(n, d, e, NearestEven) == (m, e)
  {
    hide *;
    TinyStep(n, d, e, u);
  }

  /** One binade lower the steps are the same. */
  lemma TinyBelow(n: nat, d: nat, m: nat, e: int, u: nat)
    requires d > 0 && FiniteDouble(m, e) && e < -1021 && Rounded(n * Pow(2, 1074), d, NearestEven) == u && m == u * Pow(2, -1021 - e) == TWO52
    ensures Round53(n, d, e - 1, NearestEven) == (m, e)
  {
    hide *;
    var j: nat := -1021 - e;
    TinyStep(n, d, e - 1, u);
    PowDouble(j);
    TwiceHalf(u, Pow(2, j));
    MulAssoc(2, u, Pow(2, j));
    assert -1021 - (e - 1) == j + 1;
    NormalFacts(m, e);
  }

  lemma Commuted(d: nat)
    ensures d * Pow(2, 53) == TWO53 * d && d * Pow(2, 52) == TWO52 * d && d * Pow(2, 51) == (TWO52 / 2) * d
  {
    hide Pow;
    PowFiftyThree();
    PowTwoSmall();
  }

  lemma PowTwoSmall()
    ensures Pow(2, 51) == TWO52 / 2
  {
    PowFiftyThree();
    assert Pow(2, 52) == 2 * Pow(2, 51);
  }

  lemma ScaledSelf(n: nat, d: nat, k: int)
    requires d > 0
    ensures d * Up(-k) > 0 && Ratio(n * Up(k), d * Up(-k), n, d, k)
  {
    hide Pow;
    TimesPositive(d, Up(-k));
    assert n * Up(k) * d * Up(-k) == n * (d * Up(-k)) * Up(k) by { SelfArith(n, Up(k), d, Up(-k)); }
  }

  lemma SelfArith(n: nat, a: nat, d: nat, b: nat)
    ensures n * a * d * b == n * (d * b) * a
  {
  }

  /** Just below a power of two the next binade has finer steps; the rounding carries back up. */
  lemma BelowBinade(n: nat, d: nat, m: nat, e: int)
    requires d > 0 && m == TWO52 && E_MIN <= e
    requires Rounded(2 * (n * Up(53 - e)), d * Up(e - 53), NearestEven) == TWO53
    requires Rounded(n * Up(53 - e), d * Up(e - 53), NearestEven) == TWO52
    ensures d * Up((e - 1) - Prec(e - 1)) > 0 && Round53(n, d, e - 1, NearestEven) == (TWO52, e)
  {
    hide Pow, Rounded;
    TimesPositive(d, Up(e - 53));
    TimesPositive(d, Up((e - 1) - Prec(e - 1)));
    PowZero();
    if e - 1 >= E_MIN {
      ScaledSelf(n, d, 54 - e);
      ScaledSelf(n, d, 53 - e);
      RatioMove(n * Up(54 - e), d * Up(e - 54), n, d, 54 - e);
      DoubleRatio(n, d, e);
      RatioRounds(n * Up(54 - e), d * Up(e - 54), 2 * (n * Up(53 - e)), d * Up(e - 53), NearestEven);
    } else {
      PowOneBit();
    }
  }

  lemma PowOneBit()
    ensures Pow(2, 1) == 2
  {
    assert Pow(2, 0) == 1;
  }

  lemma DoubleRatio(n: nat, d: nat, e: int)
    requires d > 0
    ensures d * Up(e - 54) > 0 && d * Up(e - 53) > 0
    ensures Ratio(n * Up(54 - e), d * Up(e - 54), 2 * (n * Up(53 - e)), d * Up(e - 53), 0)
  {
    hide Pow;
    TimesPositive(d, Up(e - 54));
    TimesPositive(d, Up(e - 53));
    PowZero();
    PowOneBit();
    UpAdd(53 - e, 1);
    DoubleArith(n, d, Up(54 - e), Up(e - 54), Up(53 - e), Up(e - 53));
  }

  lemma DoubleArith(n: nat, d: nat, a: nat, b: nat, a': nat, b': nat)
    requires a' * 2 * b == b' * 1 * a
    ensures n * a * (d * b') * 1 == 2 * (n * a') * (d * b) * 1
  {
    assert n * a * (d * b') == n * d * (b' * a);
    assert 2 * (n * a') * (d * b) == n * d * (a' * 2 * b);
  }

  // ----- signed powers of the radix -----

  function Radix(radix1: nat, radixShift: nat): (r: nat)
    requires radix1 >= 1
    ensures r >= 1
  {
    PowPositive(2, radixShift);
    TimesPositive(radix1, Pow(2, radixShift));
    radix1 * Pow(2, radixShift)
  }

  lemma {:induction false} PowTimes(a: nat, b: nat, k: nat)
    ensures Pow(a * b, k) == Pow(a, k) * Pow(b, k)
  {
    hide Pow;
    PowSmall(a);
    PowSmall(b);
    PowSmall(a * b);
    if k > 0 {
      PowTimes(a, b, k - 1);
      PowMore(a, k - 1);
      PowMore(b, k - 1);
      PowMore(a * b, k - 1);
      FourTimes(Pow(a, k - 1), Pow(b, k - 1), a, b);
    }
  }

  lemma FourTimes(x: nat, y: nat, a: nat, b: nat)
    ensures x * y * (a * b) == x * a * (y * b)
  {
    MulAssoc(x, y, a * b);
    MulAssoc(x, a, y * b);
    assert y * (a * b) == a * (y * b);
  }

  lemma {:induction false} PowNest(x: nat, s: nat, k: nat)
    ensures Pow(Pow(x, s), k) == Pow(x, k * s)
  {
    hide Pow;
    PowSmall(Pow(x, s));
    PowSmall(x);
    if k > 0 {
      PowNest(x, s, k - 1);
      PowAdd(x, s, (k - 1) * s);
      PowMore(Pow(x, s), k - 1);
      assert s + (k - 1) * s == k * s;
    }
  }

  /** radix^k is RadixUp(r, k) / RadixUp(r, -k). */
  lemma NumIs(v: nat, radix1: nat, radixShift: nat, k: int)
    requires radix1 >= 1
    ensures var r := Radix(radix1, radixShift);
      Num(v, 0, radix1, radixShift, k) == v * RadixUp(r, k) && Den(0, radix1, radixShift, k) == RadixUp(r, -k)
  {
    hide Pow;
    RadixPower(radix1, radixShift, k);
    RadixPower(radix1, radixShift, -k);
    assert -(k * radixShift) == -k * radixShift;
  }

  lemma RadixPower(radix1: nat, radixShift: nat, k: int)
    requires radix1 >= 1
    ensures Up(k * radixShift) * RadixUp(radix1, k) == RadixUp(Radix(radix1, radixShift), k)
  {
    hide Pow;
    PowZero();
    if k > 0 {
      PowTimes(radix1, Pow(2, radixShift), k);
      PowNest(2, radixShift, k);
    } else {
      NotPositive(k, radixShift);
    }
  }

  lemma NotPositive(k: int, s: nat)
    requires k <= 0
    ensures k * s <= 0
  {
  }

  lemma RadixAdd(r: nat, a: int, b: int)
    requires r >= 1
    ensures RadixUp(r, a) * RadixUp(r, b) * RadixUp(r, -(a + b)) == RadixUp(r, -a) * RadixUp(r, -b) * RadixUp(r, a + b)
  {
    hide Pow;
    PowSmall(r);
    if a >= 0 && b >= 0 {
      PowAdd(r, a, b);
    } else if a < 0 && b < 0 {
      PowAdd(r, -a, -b);
    } else if a >= 0 {
      if a + b >= 0 { PowAdd(r, a + b, -b); } else { PowAdd(r, a, -(a + b)); }
    } else {
      if a + b >= 0 { PowAdd(r, -a, a + b); } else { PowAdd(r, b, -(a + b)); }
    }
  }

  // ----- a candidate: round(x * radix^(P - E)) -----

  /** The double and the candidate over the common denominator: x is m * Up(e-53) * h and the
    * candidate is mant * g * Up(53-e), where radix^(E-P) is g / h. */
  predicate Near(m: nat, e: int, mant: nat, g: nat, h: nat) {
    2 * Gap(mant * (g * Up(53 - e)), m * Up(e - 53) * h) <= g * Up(53 - e)
  }

  /** round(x * r^(P - E)), over the common denominator. */
  function DigitsAt(m: nat, e: int, r: nat, p: int, exp: int): nat
    requires r >= 1
  {
    TimesPositive(RadixUp(r, exp - p), Up(53 - e));
    Rounded(m * Up(e - 53) * RadixUp(r, p - exp), RadixUp(r, exp - p) * Up(53 - e), NearestEven)
  }

  /** The double rounded to p digits, and its exponent: E, or E + 1 when p digits at E are not enough. */
  function Candidate(m: nat, e: int, r: nat, exp0: int, p: nat): (nat, int)
    requires r >= 1
  {
    if DigitsAt(m, e, r, p, exp0) < Pow(r, p) then (DigitsAt(m, e, r, p, exp0), exp0)
    else (DigitsAt(m, e, r, p, exp0 + 1), exp0 + 1)
  }

  /** The candidate of p digits gives the double back. */
  ghost predicate Works(m: nat, e: int, r: nat, exp0: int, p: nat)
    requires r >= 1
  {
    var (mant, exp) := Candidate(m, e, r, exp0, p);
    RoundsTo(mant * RadixUp(r, exp - p), RadixUp(r, p - exp), NearestEven, m, e)
  }

  /** No other digits at this exponent are closer to the double; of two as close, the even ones are taken. */
  lemma DigitsNearest(m: nat, e: int, r: nat, p: int, exp: int, other: nat)
    requires r >= 1
    ensures var unit, x, mant := RadixUp(r, exp - p) * Up(53 - e), m * Up(e - 53) * RadixUp(r, p - exp), DigitsAt(m, e, r, p, exp);
      && Gap(mant * unit, x) <= Gap(other * unit, x)
      && (Gap(mant * unit, x) == Gap(other * unit, x) && other != mant ==> mant % 2 == 0)
  {
    hide Rounded, Up, RadixUp;
    TimesPositive(RadixUp(r, exp - p), Up(53 - e));
    RoundedIsNearest(m * Up(e - 53) * RadixUp(r, p - exp), RadixUp(r, exp - p) * Up(53 - e), other);
  }

  lemma DigitsNear(m: nat, e: int, r: nat, p: int, exp: int)
    requires r >= 1
    ensures Near(m, e, DigitsAt(m, e, r, p, exp), RadixUp(r, exp - p), RadixUp(r, p - exp))
  {
    hide Rounded, Gap, Up, RadixUp;
    TimesPositive(RadixUp(r, exp - p), Up(53 - e));
    RoundedWithin(m * Up(e - 53) * RadixUp(r, p - exp), RadixUp(r, exp - p) * Up(53 - e), NearestEven);
  }

  /** It is what mul_pow_round computes. */
  lemma CandidateIs(m: nat, e: int, radix1: nat, radixShift: nat, p: int, exp: int)
    requires radix1 >= 1
    ensures Rounded(Num(m, e - 53, radix1, radixShift, p - exp), Den(e - 53, radix1, radixShift, p - exp), NearestEven)
      == DigitsAt(m, e, Radix(radix1, radixShift), p, exp)
  {
    hide Pow, Rounded;
    var f := p - exp;
    var a, b := Num(m, e - 53, radix1, radixShift, f), Den(e - 53, radix1, radixShift, f);
    var r := Radix(radix1, radixShift);
    var g, h := RadixUp(r, -f), RadixUp(r, f);
    RadixPower(radix1, radixShift, f);
    RadixPower(radix1, radixShift, -f);
    assert -f * radixShift == -(f * radixShift);
    UpAdd(e - 53, f * radixShift);
    CandidateRatio(m, Up(e - 53), Up(53 - e), Up(f * radixShift), Up(-(f * radixShift)),
      Up(e - 53 + f * radixShift), Up(-(e - 53 + f * radixShift)), RadixUp(radix1, f), RadixUp(radix1, -f));
    TimesPositive(g, Up(53 - e));
    SameQuotient(a, b, m * Up(e - 53) * h, g * Up(53 - e));
  }

  lemma SameQuotient(a: nat, b: nat, x: nat, s: nat)
    requires a * s == b * x && b > 0 && s > 0
    ensures Rounded(a, b, NearestEven) == Rounded(x, s, NearestEven)
  {
    hide Rounded;
    RatioRounds(a, b, x, s, NearestEven);
  }

  // ----- candidates of fewer digits -----

  /** Rounding to one digit less. */
  lemma RoundedCoarser(num: nat, den: nat, r: nat, k: nat)
    requires den > 0 && r >= 2
    ensures r * den > 0
    ensures Rounded(num, den, NearestEven) >= k * r ==> Rounded(num, r * den, NearestEven) >= k
    ensures Rounded(num, den, NearestEven) <= k * r ==> Rounded(num, r * den, NearestEven) <= k
  {
    hide *;
    TimesPositive(r, den);
    MulMono(2, r, den, den);
    var j, i := Rounded(num, r * den, NearestEven), Rounded(num, den, NearestEven);
    RoundedWithin(num, r * den, NearestEven);
    RoundedWithin(num, den, NearestEven);
    GapMeans(j * (r * den), num);
    GapMeans(i * den, num);
    MulAssoc(k, r, den);
    if i >= k * r { MulMono(k * r, i, den, den); if j < k { MulMono(j + 1, k, r * den, r * den); StepUp(j, r * den); } }
    if i <= k * r { MulMono(i, k * r, den, den); if j > k { MulMono(k + 1, j, r * den, r * den); StepUp(k, r * den); } }
  }

  lemma GapMeans(a: nat, b: nat)
    ensures Gap(a, b) >= a - b && Gap(a, b) >= b - a
  {
  }

  lemma StepUp(a: nat, c: nat)
    ensures (a + 1) * c == a * c + c
  {
  }

  lemma DigitsCoarser(m: nat, e: int, r: nat, p: int, exp: int, k: nat)
    requires r >= 2
    ensures DigitsAt(m, e, r, p, exp) >= k * r ==> DigitsAt(m, e, r, p - 1, exp) >= k
    ensures DigitsAt(m, e, r, p, exp) <= k * r ==> DigitsAt(m, e, r, p - 1, exp) <= k
  {
    hide Pow, Rounded, RadixUp, Up;
    var x, w := m * Up(e - 53), Up(53 - e);
    var h, g, h', g' := RadixUp(r, p - exp), RadixUp(r, exp - p), RadixUp(r, p - 1 - exp), RadixUp(r, exp - p + 1);
    TimesPositive(g, w);
    TimesPositive(g', w);
    RoundedCoarser(x * h, g * w, r, k);
    TimesPositive(r, g * w);
    LessDigit(r, p - exp);
    CoarserArith(x, h, g, h', g', r, w);
    SameQuotient(x * h, r * (g * w), x * h', g' * w);
  }

  lemma LessDigit(r: nat, f: int)
    requires r >= 1
    ensures RadixUp(r, f) * RadixUp(r, 1 - f) == r * RadixUp(r, -f) * RadixUp(r, f - 1)
  {
    hide Pow;
    PowSmall(r);
    RadixAdd(r, 1, f - 1);
    assert RadixUp(r, 1) == r && RadixUp(r, -1) == 1;
  }

  lemma CoarserArith(x: nat, h: nat, g: nat, h': nat, g': nat, r: nat, w: nat)
    requires h * g' == r * g * h'
    ensures x * h * (g' * w) == r * (g * w) * (x * h')
  {
    assert x * h * (g' * w) == x * w * (h * g');
    assert r * (g * w) * (x * h') == x * w * (r * g * h');
  }

  /** Without its last digit, when that is zero, a candidate is the candidate of one digit less, and the same number. */
  lemma ZeroDropped(m: nat, e: int, r: nat, exp0: int, p: nat, mant: nat, exp: int)
    requires r >= 2 && p >= 2 && (mant, exp) == Candidate(m, e, r, exp0, p) && mant % r == 0
    ensures Candidate(m, e, r, exp0, p - 1) == (mant / r, exp)
    ensures Works(m, e, r, exp0, p) <==> Works(m, e, r, exp0, p - 1)
  {
    hide *;
    CandidateParts(m, e, r, exp0, p);
    CandidateParts(m, e, r, exp0, p - 1);
    PowMore(r, p - 1);
    var k, q := mant / r, Pow(r, p - 1);
    DivMod(mant, r);
    DigitsCoarser(m, e, r, p, exp0, q);
    DigitsCoarser(m, e, r, p, exp, k);
    if exp == exp0 {
      PowPositive(r, p - 1);
      Order(k, q, r);
      TimesCommute(k, r);
      TimesCommute(q, r);
    } else {
      TimesCommute(q, r);
    }
    WorksMeans(m, e, r, exp0, p);
    WorksMeans(m, e, r, exp0, p - 1);
    SameNumber(m, e, r, k, exp, p);
  }

  lemma TimesCommute(a: nat, b: nat)
    ensures a * b == b * a
  {
  }

  lemma CandidateParts(m: nat, e: int, r: nat, exp0: int, p: nat)
    requires r >= 1
    ensures DigitsAt(m, e, r, p, exp0) < Pow(r, p) ==> Candidate(m, e, r, exp0, p) == (DigitsAt(m, e, r, p, exp0), exp0)
    ensures DigitsAt(m, e, r, p, exp0) >= Pow(r, p) ==> Candidate(m, e, r, exp0, p) == (DigitsAt(m, e, r, p, exp0 + 1), exp0 + 1)
  {
    hide DigitsAt, Pow;
  }

  lemma WorksMeans(m: nat, e: int, r: nat, exp0: int, p: nat)
    requires r >= 1
    ensures var c := Candidate(m, e, r, exp0, p);
      Works(m, e, r, exp0, p) <==> RoundsTo(c.0 * RadixUp(r, c.1 - p), RadixUp(r, p - c.1), NearestEven, m, e)
  {
    hide Candidate, RoundsTo, RadixUp;
  }

  /** A zero at the end does not change what digits are read as. */
  lemma SameNumber(m: nat, e: int, r: nat, k: nat, exp: int, p: int)
    requires r >= 1
    ensures RoundsTo(k * r * RadixUp(r, exp - p), RadixUp(r, p - exp), NearestEven, m, e)
      <==> RoundsTo(k * RadixUp(r, exp - p + 1), RadixUp(r, p - exp - 1), NearestEven, m, e)
  {
    hide *;
    ShiftDigit(k, r, exp - p);
    var n1, d1, n2, d2 := k * r * RadixUp(r, exp - p), RadixUp(r, p - exp), k * RadixUp(r, exp - p + 1), RadixUp(r, p - exp - 1);
    RatioSwap(n1, d1, n2, d2);
    if RoundsTo(n1, d1, NearestEven, m, e) { RoundsToRatio(n1, d1, n2, d2, m, e); }
    if RoundsTo(n2, d2, NearestEven, m, e) { RoundsToRatio(n2, d2, n1, d1, m, e); }
  }

  lemma RatioSwap(n1: nat, d1: nat, n2: nat, d2: nat)
    requires Ratio(n1, d1, n2, d2, 0)
    ensures Ratio(n2, d2, n1, d1, 0)
  {
  }

  lemma CandidateRatio(m: nat, u: nat, w: nat, us: nat, ws: nat, uk: nat, wk: nat, p: nat, q: nat)
    requires u * us * wk == w * ws * uk
    ensures m * (uk * p) * ((ws * q) * w) == (wk * q) * (m * u * (us * p))
  {
    assert m * (uk * p) * ((ws * q) * w) == m * p * q * (w * ws * uk);
    assert (wk * q) * (m * u * (us * p)) == m * p * q * (u * us * wk);
  }

  lemma RoundedWithin(a: nat, b: nat, mode: Mode)
    requires b > 0 && mode == NearestEven
    ensures 2 * Gap(Rounded(a, b, mode) * b, a) <= b
  {
    DivMod(a, b);
    assert (a / b + 1) * b == (a / b) * b + b;
  }

  lemma Divides(x: int, s: nat, b: nat)
    requires b > 0
    ensures b * x <= b * s ==> x <= s
  {
    if x > s { TimesSign(x - s, b); assert (x - s) * b == b * x - b * s; }
  }

  // ----- the decimal exponent -----

  /** What mul_log2_radix promises: exp0 - 1 is floor((e - 1) / log2 r), so
    * r^(exp0-1) <= 2^(e-1) < r^exp0. */
  predicate ExponentOf(r: nat, e: int, exp0: int)
    requires r >= 1
  {
    && RadixUp(r, exp0 - 1) * Up(1 - e) <= Up(e - 1) * RadixUp(r, 1 - exp0)
    && Up(e - 1) * RadixUp(r, -exp0) < RadixUp(r, exp0) * Up(1 - e)
  }

  /** 2^53 * radix^(E-P) < x: one unit of the last digit is below half a step of the double. */
  predicate Fine(m: nat, e: int, g: nat, h: nat) {
    TWO53 * (g * Up(53 - e)) < m * Up(e - 53) * h
  }

  lemma FineReadsBack(m: nat, e: int, mant: nat, g: nat, h: nat)
    requires FiniteDouble(m, e) && Near(m, e, mant, g, h) && Fine(m, e, g, h) && h > 0
    ensures RoundsTo(mant * g, h, NearestEven, m, e)
  {
    hide Up, RoundsTo;
    FineArith(mant, g, Up(53 - e), m, Up(e - 53), h);
    ReadsBack(mant * g, h, m, e);
  }

  lemma FineArith(mant: nat, g: nat, w: nat, m: nat, u: nat, h: nat)
    requires 2 * Gap(mant * (g * w), m * u * h) <= g * w && TWO53 * (g * w) < m * u * h
    ensures Gap(mant * g * w, m * (h * u)) * (2 * TWO53) < m * (h * u)
  {
    MulAssoc(mant, g, w);
    assert m * u * h == m * (h * u);
  }

  /** x >= 2^(e-1). */
  lemma AtLeastHalf(m: nat, e: int)
    requires FiniteDouble(m, e)
    ensures Up(e - 1) * Up(53 - e) <= m * Up(e - 53) * Up(1 - e)
    ensures m * Up(e - 53) * Up(1 - e) < 2 * (Up(e - 1) * Up(53 - e))
  {
    hide Pow;
    PowFiftyThree();
    UpAdd(e - 53, 52);
    assert Up(52) == TWO52 && Up(-52) == 1;
    HalfArith(m, Up(e - 53), Up(53 - e), Up(e - 1), Up(1 - e));
    TimesPositive(Up(e - 53), Up(1 - e));
  }

  lemma HalfArith(m: nat, u: nat, w: nat, a: nat, b: nat)
    requires u * TWO52 * b == w * 1 * a && TWO52 <= m < TWO53 && u > 0 && b > 0
    ensures a * w <= m * u * b < 2 * (a * w)
  {
    assert a * w == TWO52 * (u * b) && m * u * b == m * (u * b);
    TimesPositive(u, b);
    MulMono(TWO52, m, u * b, u * b);
    MulMono(m + 1, TWO53, u * b, u * b);
    assert (m + 1) * (u * b) == m * (u * b) + u * b;
  }

  /** x against the powers of the radix around it. */
  lemma Between(m: nat, e: int, r: nat, exp0: int)
    requires FiniteDouble(m, e) && r >= 1 && ExponentOf(r, e, exp0)
    ensures RadixUp(r, exp0 - 1) * Up(53 - e) <= m * Up(e - 53) * RadixUp(r, 1 - exp0)
    ensures m * Up(e - 53) * RadixUp(r, -exp0) < 2 * (RadixUp(r, exp0) * Up(53 - e))
  {
    hide Up, RadixUp;
    AtLeastHalf(m, e);
    BetweenLow(RadixUp(r, exp0 - 1), Up(1 - e), Up(e - 1), RadixUp(r, 1 - exp0), Up(53 - e), m * Up(e - 53));
    BetweenHigh(RadixUp(r, exp0), Up(1 - e), Up(e - 1), RadixUp(r, -exp0), Up(53 - e), m * Up(e - 53));
  }

  lemma BetweenLow(a: nat, b: nat, c: nat, d: nat, w: nat, x: nat)
    requires a * b <= c * d && c * w <= x * b && b > 0
    ensures a * w <= x * d
  {
    MulMono(a * b, c * d, w, w);
    MulMono(c * w, x * b, d, d);
    assert a * b * w == b * (a * w) && c * d * w == c * w * d && x * b * d == b * (x * d);
    Divides(a * w, x * d, b);
  }

  lemma BetweenHigh(a: nat, b: nat, c: nat, d: nat, w: nat, x: nat)
    requires c * d < a * b && x * b < 2 * (c * w) && b > 0 && w > 0
    ensures x * d < 2 * (a * w)
  {
    MulMono(x * b, 2 * (c * w), d, d);
    MulMono(c * d + 1, a * b, w, w);
    assert (c * d + 1) * w == c * d * w + w;
    assert x * b * d == b * (x * d) && 2 * (c * w) * d == 2 * (c * d * w) && 2 * (a * b * w) == b * (2 * (a * w));
    assert b * (x * d) < b * (2 * (a * w));
    Order(x * d, 2 * (a * w), b);
  }

  /** With the exponent from mul_log2_radix the last of P digits is fine enough. */
  lemma FirstFine(m: nat, e: int, r: nat, p: nat, exp0: int)
    requires FiniteDouble(m, e) && r >= 1 && ExponentOf(r, e, exp0) && p >= 1 && Pow(r, p - 1) > TWO53
    ensures Fine(m, e, RadixUp(r, exp0 - p), RadixUp(r, p - exp0))
  {
    hide Pow;
    Between(m, e, r, exp0);
    PowSmall(r);
    var q := Pow(r, p - 1);
    assert RadixUp(r, p - 1) == q && RadixUp(r, 1 - p) == 1;
    RadixAdd(r, exp0 - p, p - 1);
    FirstFineArith(RadixUp(r, exp0 - p), RadixUp(r, p - exp0), q, RadixUp(r, exp0 - 1), RadixUp(r, 1 - exp0), Up(53 - e), m * Up(e - 53));
  }

  lemma FirstFineArith(g: nat, h: nat, q: nat, a: nat, b: nat, w: nat, x: nat)
    requires g * q * b == h * 1 * a && a * w <= x * b && q > TWO53
    requires g > 0 && h > 0 && b > 0 && w > 0
    ensures TWO53 * (g * w) < x * h
  {
    // TWO53 g w b < q g w b = h a w <= h x b
    LowProducts(g, h, q, a, b, w, x);
    FineOrder(g * w, q, b, h, a * w, x * b, x * h);
  }

  lemma FineOrder(c: nat, q: nat, b: nat, h: nat, aw: nat, xb: nat, xh: nat)
    requires q * (c * b) == h * aw && aw <= xb && h * xb == b * xh && q > TWO53 && b > 0 && c > 0
    ensures TWO53 * c < xh
  {
    TimesPositive(c, b);
    MulMono(TWO53 + 1, q, c * b, c * b);
    PlusOne(TWO53, c * b);
    MulMono(h, h, aw, xb);
    FineSwap(c, b);
    Order(TWO53 * c, xh, b);
  }

  lemma FineSwap(c: nat, b: nat)
    ensures TWO53 * (c * b) == b * (TWO53 * c)
  {
  }

  /** When rounding at exp0 gave P + 1 digits, the next exponent is fine enough too. */
  lemma SecondFine(m: nat, e: int, r: nat, p: nat, exp0: int, mant0: nat)
    requires r >= 2 && p >= 1 && Pow(r, p - 1) > TWO53
    requires Near(m, e, mant0, RadixUp(r, exp0 - p), RadixUp(r, p - exp0)) && mant0 >= Pow(r, p)
    ensures Fine(m, e, RadixUp(r, exp0 + 1 - p), RadixUp(r, p - exp0 - 1))
  {
    hide Pow;
    PowMore(r, p - 1);
    PowSmall(r);
    assert RadixUp(r, 1) == r && RadixUp(r, -1) == 1;
    RadixAdd(r, 1, exp0 - p);
    MulMono(TWO53 + 1, Pow(r, p - 1), r, r);
    assert (TWO53 + 1) * r == TWO53 * r + r;
    SecondFineArith(mant0, RadixUp(r, exp0 - p), RadixUp(r, p - exp0), RadixUp(r, exp0 + 1 - p), RadixUp(r, p - exp0 - 1), r, Up(53 - e), m * Up(e - 53), TWO53 * r);
    assert TWO53 * r * 1 == TWO53 * r;
  }

  lemma SecondFineArith(mant0: nat, g0: nat, h0: nat, g: nat, h: nat, r: nat, w: nat, x: nat, t: nat)
    requires 2 * Gap(mant0 * (g0 * w), x * h0) <= g0 * w && mant0 >= t + r && r >= 2 && t == TWO53 * r
    requires r * g0 * h == 1 * h0 * g && g0 > 0 && h0 > 0 && h > 0 && w > 0
    ensures TWO53 * (g * w) < x * h
  {
    // 2 x h0 >= 2 mant0 g0 w - g0 w > 2 t g0 w, and TWO53 g w h0 = TWO53 r g0 h w = t g0 w h
    TimesPositive(g0, w);
    WellAbove(mant0, g0 * w, x * h0, t, r);
    SecondProducts(g0, h0, g, h, r, w, x);
    StepOrder(t, g0 * w, h, x * h0, x * h, g * w, h0, r);
  }

  lemma WellAbove(mant0: nat, c: nat, xh0: nat, t: nat, r: nat)
    requires 2 * Gap(mant0 * c, xh0) <= c && mant0 >= t + r && r >= 2 && c > 0
    ensures t * c < xh0
  {
    MulMono(t + r, mant0, c, c);
    assert (t + r) * c == t * c + r * c;
    MulMono(2, r, c, c);
  }

  lemma StepOrder(t: nat, c: nat, h: nat, xh0: nat, xh: nat, gw: nat, h0: nat, r: nat)
    requires t * c < xh0 && h > 0 && h0 > 0 && xh0 * h == h0 * xh && r * c * h == h0 * gw && t == TWO53 * r
    ensures TWO53 * gw < xh
  {
    MulMono(t * c + 1, xh0, h, h);
    PlusOne(t * c, h);
    StepSwap(r, c, h, h0, gw);
    Order(TWO53 * gw, xh, h0);
  }

  lemma StepSwap(r: nat, c: nat, h: nat, h0: nat, gw: nat)
    requires r * c * h == h0 * gw
    ensures TWO53 * r * c * h == h0 * (TWO53 * gw)
  {
    assert TWO53 * r * c * h == TWO53 * (r * c * h);
  }

  // ----- the number of digits that always works -----

  /** dtoa_max_digits_table */
  const MAX_DIGITS: seq<nat> :=
    [54, 35, 28, 24, 22, 20, 19, 18, 17, 17, 16, 16, 15, 15, 15, 14, 14, 14, 14, 14, 13, 13, 13, 13, 13, 13, 13, 12, 12, 12, 12, 12, 12, 12, 12]

  const LIMIT: nat := 0x8000_0000_0000_0000

  lemma MaxDigits0()
    ensures PowBin(2, 53) >= TWO53 && PowBin(3, 34) > TWO53 && PowBin(4, 27) > TWO53
    ensures PowBin(2, 54) < LIMIT && PowBin(3, 35) < LIMIT && PowBin(4, 28) < LIMIT
  {
  }

  lemma MaxDigits1()
    ensures PowBin(5, 23) > TWO53 && PowBin(6, 21) > TWO53 && PowBin(5, 24) < LIMIT && PowBin(6, 22) < LIMIT
  {
  }

  lemma MaxDigitsEight()
    ensures PowBin(7, 19) > TWO53 && PowBin(8, 18) > TWO53 && PowBin(7, 20) < LIMIT && PowBin(8, 19) < LIMIT
  {
  }

  lemma MaxDigits2()
    ensures PowBin(9, 17) > TWO53 && PowBin(10, 16) > TWO53 && PowBin(11, 16) > TWO53 && PowBin(12, 15) > TWO53
    ensures PowBin(9, 18) < LIMIT && PowBin(10, 17) < LIMIT && PowBin(11, 17) < LIMIT && PowBin(12, 16) < LIMIT
  {
  }

  lemma MaxDigits3()
    ensures PowBin(13, 15) > TWO53 && PowBin(14, 14) > TWO53 && PowBin(15, 14) > TWO53 && PowBin(16, 14) > TWO53
    ensures PowBin(13, 16) < LIMIT && PowBin(14, 15) < LIMIT && PowBin(15, 15) < LIMIT && PowBin(16, 15) < LIMIT
  {
  }

  lemma MaxDigits4()
    ensures PowBin(17, 13) > TWO53 && PowBin(18, 13) > TWO53 && PowBin(19, 13) > TWO53 && PowBin(20, 13) > TWO53
    ensures PowBin(17, 14) < LIMIT && PowBin(18, 14) < LIMIT && PowBin(19, 14) < LIMIT && PowBin(20, 14) < LIMIT
  {
  }

  lemma MaxDigits5()
    ensures PowBin(21, 13) > TWO53 && PowBin(22, 12) > TWO53 && PowBin(23, 12) > TWO53 && PowBin(24, 12) > TWO53
    ensures PowBin(21, 14) < LIMIT && PowBin(22, 13) < LIMIT && PowBin(23, 13) < LIMIT && PowBin(24, 13) < LIMIT
  {
  }

  lemma MaxDigits6()
    ensures PowBin(25, 12) > TWO53 && PowBin(26, 12) > TWO53 && PowBin(27, 12) > TWO53 && PowBin(28, 12) > TWO53
    ensures PowBin(25, 13) < LIMIT && PowBin(26, 13) < LIMIT && PowBin(27, 13) < LIMIT && PowBin(28, 13) < LIMIT
  {
  }

  lemma MaxDigits7()
    ensures PowBin(29, 11) > TWO53 && PowBin(30, 11) > TWO53 && PowBin(31, 11) > TWO53 && PowBin(32, 11) > TWO53
    ensures PowBin(29, 12) < LIMIT && PowBin(30, 12) < LIMIT && PowBin(31, 12) < LIMIT && PowBin(32, 12) < LIMIT
  {
  }

  lemma MaxDigits8()
    ensures PowBin(33, 11) > TWO53 && PowBin(34, 11) > TWO53 && PowBin(35, 11) > TWO53 && PowBin(36, 11) > TWO53
    ensures PowBin(33, 12) < LIMIT && PowBin(34, 12) < LIMIT && PowBin(35, 12) < LIMIT && PowBin(36, 12) < LIMIT
  {
  }

  function MaxP(r: nat): nat
    requires 2 <= r <= 36
  {
    MAX_DIGITS[r - 2]
  }

  /** One digit less than the maximum is already more than 53 bits, and mantissas fit 64 bits. */
  lemma MaxDigits(r: nat)
    requires 2 <= r <= 36
    ensures MaxP(r) >= 12 && Pow(r, MaxP(r)) < LIMIT
    ensures r != 2 ==> Pow(r, MaxP(r) - 1) > TWO53
  {
    hide Pow, PowBin;
    PowBinIs(r, MaxP(r));
    PowBinIs(r, MaxP(r) - 1);
    if r <= 4 { MaxDigits0(); }
    else if r <= 8 { MaxDigits1(); MaxDigitsEight(); }
    else if r <= 12 { MaxDigits2(); }
    else if r <= 16 { MaxDigits3(); }
    else if r <= 20 { MaxDigits4(); }
    else if r <= 24 { MaxDigits5(); }
    else if r <= 28 { MaxDigits6(); }
    else if r <= 32 { MaxDigits7(); }
    else { MaxDigits8(); }
  }

  // ----- bounds on a candidate -----

  lemma LeastTops1()
    ensures PowBin(2, 52) < TWO53 && PowBin(3, 33) < TWO53 && PowBin(4, 26) < TWO53 && PowBin(5, 22) < TWO53
    ensures PowBin(6, 20) < TWO53 && PowBin(7, 18) < TWO53 && PowBin(8, 17) < TWO53
  {
  }

  lemma LeastTops2()
    ensures PowBin(9, 16) < TWO53 && PowBin(11, 15) < TWO53 && PowBin(13, 14) < TWO53 && PowBin(16, 13) < TWO53
    ensures PowBin(21, 12) < TWO53 && PowBin(28, 11) < TWO53 && PowBin(36, 10) < TWO53
  {
  }

  /** The largest radix with the same digit limit. */
  function Top(r: nat): nat {
    if r <= 9 then r else if r <= 11 then 11 else if r <= 13 then 13 else if r <= 16 then 16 else if r <= 21 then 21
    else if r <= 28 then 28 else 36
  }

  lemma LeastEntry(r: nat)
    requires 2 <= r <= 36
    ensures r <= Top(r) && MaxP(r) >= 2 && PowBin(Top(r), MaxP(r) - 2) < TWO53
  {
    hide PowBin;
    LeastTops1();
    LeastTops2();
  }

  /** The digit limit of a radix is the least p with radix^(p-1) >= 2^53. */
  lemma MaxDigitsLeast(r: nat)
    requires 2 <= r <= 36
    ensures 2 <= MaxP(r) && Pow(r, MaxP(r) - 2) < 0x20_0000_0000_0000 <= Pow(r, MaxP(r) - 1)
  {
    hide Pow, PowBin, MaxP, Top;
    MaxDigits(r);
    LeastEntry(r);
    PowBinIs(Top(r), MaxP(r) - 2);
    PowBase(r, Top(r), MaxP(r) - 2);
    PowFiftyThree();
    if r == 2 { BinaryDigits(); }
  }

  lemma RadixPow(r: nat, k: nat)
    requires r >= 1
    ensures RadixUp(r, k) == Pow(r, k) && RadixUp(r, -(k as int)) == 1 && Pow(r, k) > 0
  {
    PowPositive(r, k);
  }

  lemma FirstBounds(m: nat, e: int, r: nat, p: nat, exp0: int, mant: nat)
    requires FiniteDouble(m, e) && r >= 1 && ExponentOf(r, e, exp0) && p >= 1
    requires Near(m, e, mant, RadixUp(r, exp0 - p), RadixUp(r, p - exp0))
    ensures 0 < mant <= 2 * Pow(r, p)
  {
    hide *;
    Between(m, e, r, exp0);
    RadixPow(r, p - 1);
    RadixPow(r, p);
    RadixAdd(r, exp0 - p, p - 1);
    RadixAdd(r, exp0 - p, p);
    var g, h, w, x := RadixUp(r, exp0 - p), RadixUp(r, p - exp0), Up(53 - e), m * Up(e - 53);
    NearIs(m, e, mant, g, h);
    LowBound(mant, g, h, Pow(r, p - 1), RadixUp(r, exp0 - 1), RadixUp(r, 1 - exp0), w, x);
    HighBound(mant, g, h, Pow(r, p), RadixUp(r, exp0), RadixUp(r, -exp0), w, x);
  }

  lemma NearIs(m: nat, e: int, mant: nat, g: nat, h: nat)
    requires Near(m, e, mant, g, h)
    ensures 2 * Gap(mant * (g * Up(53 - e)), m * Up(e - 53) * h) <= g * Up(53 - e)
  {
    hide Up, Gap;
  }

  lemma LowBound(mant: nat, g: nat, h: nat, q: nat, a: nat, b: nat, w: nat, x: nat)
    requires 2 * Gap(mant * (g * w), x * h) <= g * w && g * q * b == h * 1 * a && a * w <= x * b && q >= 1
    requires g > 0 && h > 0 && b > 0 && w > 0
    ensures mant > 0
  {
    LowProducts(g, h, q, a, b, w, x);
    LowOrder(g * w, q, b, h, a * w, x * b, x * h);
    PositiveMant(mant, g * w, x * h);
  }

  lemma LowProducts(g: nat, h: nat, q: nat, a: nat, b: nat, w: nat, x: nat)
    requires g * q * b == h * 1 * a && g > 0 && w > 0
    ensures q * (g * w * b) == h * (a * w) && h * (x * b) == b * (x * h) && g * w > 0
  {
    assert q * (g * w * b) == g * q * b * w;
    assert h * (a * w) == h * 1 * a * w;
    TimesPositive(g, w);
  }

  lemma LowOrder(c: nat, q: nat, b: nat, h: nat, aw: nat, xb: nat, xh: nat)
    requires q * (c * b) == h * aw && aw <= xb && h * xb == b * xh && q >= 1 && b > 0
    ensures c <= xh
  {
    MulMono(1, q, c * b, c * b);
    MulMono(h, h, aw, xb);
    assert c * b == b * c;
    Divides(c, xh, b);
  }

  lemma PositiveMant(mant: nat, c: nat, xh: nat)
    requires 2 * Gap(mant * c, xh) <= c && c > 0 && 2 * xh > c
    ensures mant > 0
  {
    ZeroTimes(c);
  }

  lemma HighBound(mant: nat, g: nat, h: nat, q: nat, a: nat, b: nat, w: nat, x: nat)
    requires 2 * Gap(mant * (g * w), x * h) <= g * w && g * q * b == h * 1 * a && x * b < 2 * (a * w) && q >= 1
    requires g > 0 && h > 0 && b > 0 && w > 0
    ensures mant <= 2 * q && x * h < 2 * q * (g * w)
  {
    // x h b < 2 a w h = 2 q g w b
    MulMono(x * b + 1, 2 * (a * w), h, h);
    assert (x * b + 1) * h == x * b * h + h;
    assert 2 * (a * w) * h == 2 * (h * a) * w == 2 * (g * q * b) * w == b * (2 * q * (g * w));
    assert x * b * h == b * (x * h);
    Order(x * h, 2 * q * (g * w), b);
    TimesPositive(g, w);
    AtMost(mant, g * w, x * h, 2 * q);
  }

  lemma AtMost(mant: nat, c: nat, x: nat, q: nat)
    requires 2 * Gap(mant * c, x) <= c && x < q * c && c > 0
    ensures mant <= q
  {
    MulMono(q + 1, mant, c, c);
    assert (q + 1) * c == q * c + c;
  }

  /** One step of the exponent is enough: at exp0 + 1 the mantissa has at most P digits. */
  lemma SecondBounds(m: nat, e: int, r: nat, p: nat, exp0: int, mant0: nat, mant: nat)
    requires FiniteDouble(m, e) && r >= 2 && ExponentOf(r, e, exp0) && p >= 1
    requires Near(m, e, mant0, RadixUp(r, exp0 - p), RadixUp(r, p - exp0)) && mant0 >= Pow(r, p)
    requires Near(m, e, mant, RadixUp(r, exp0 + 1 - p), RadixUp(r, p - exp0 - 1))
    ensures 0 < mant < Pow(r, p)
  {
    hide *;
    SecondAtLeastOne(m, e, r, p, exp0, mant0, mant);
    if r == 2 { BinaryBounds(m, e, p, exp0, mant); } else { SecondAtMost(m, e, r, p, exp0, mant); }
  }

  lemma SecondAtLeastOne(m: nat, e: int, r: nat, p: nat, exp0: int, mant0: nat, mant: nat)
    requires r >= 2 && p >= 1
    requires Near(m, e, mant0, RadixUp(r, exp0 - p), RadixUp(r, p - exp0)) && mant0 >= Pow(r, p)
    requires Near(m, e, mant, RadixUp(r, exp0 + 1 - p), RadixUp(r, p - exp0 - 1))
    ensures mant > 0
  {
    hide *;
    PowMore(r, p - 1);
    PowSmall(r);
    RadixPow(r, 1);
    RadixPow(r, p - 1);
    RadixAdd(r, 1, exp0 - p);
    var g0, h0, g, h := RadixUp(r, exp0 - p), RadixUp(r, p - exp0), RadixUp(r, exp0 + 1 - p), RadixUp(r, p - exp0 - 1);
    NearIs(m, e, mant0, g0, h0);
    NearIs(m, e, mant, g, h);
    MulMono(1, Pow(r, p - 1), r, r);
    SecondPositive(mant0, g0, h0, mant, g, h, r, Up(53 - e), m * Up(e - 53));
  }

  lemma SecondAtMost(m: nat, e: int, r: nat, p: nat, exp0: int, mant: nat)
    requires FiniteDouble(m, e) && r >= 3 && ExponentOf(r, e, exp0) && p >= 1
    requires Near(m, e, mant, RadixUp(r, exp0 + 1 - p), RadixUp(r, p - exp0 - 1))
    ensures mant < Pow(r, p)
  {
    hide *;
    PowMore(r, p - 1);
    RadixPow(r, p - 1);
    RadixAdd(r, exp0 + 1 - p, p - 1);
    var g, h, q := RadixUp(r, exp0 + 1 - p), RadixUp(r, p - exp0 - 1), Pow(r, p - 1);
    NearIs(m, e, mant, g, h);
    Between(m, e, r, exp0);
    HighBound(mant, g, h, q, RadixUp(r, exp0), RadixUp(r, -exp0), Up(53 - e), m * Up(e - 53));
    TripleAtMost(q, r);
  }

  lemma TripleAtMost(q: nat, r: nat)
    requires r >= 3 && q > 0
    ensures 2 * q < q * r
  {
    MulMono(q, q, 3, r);
  }

  lemma SecondPositive(mant0: nat, g0: nat, h0: nat, mant: nat, g: nat, h: nat, r: nat, w: nat, x: nat)
    requires 2 * Gap(mant0 * (g0 * w), x * h0) <= g0 * w && mant0 >= r >= 2
    requires 2 * Gap(mant * (g * w), x * h) <= g * w
    requires r * g0 * h == 1 * h0 * g && g0 > 0 && h0 > 0 && g > 0 && h > 0 && w > 0
    ensures mant > 0
  {
    // 2 x h0 >= (r + 1) g0 w, so 2 x h h0 >= (r + 1) g0 w h > r g0 h w = g w h0
    TimesPositive(g0, w);
    TimesPositive(g, w);
    AboveUnit(mant0, g0 * w, x * h0, r);
    SecondProducts(g0, h0, g, h, r, w, x);
    SecondOrder(g0 * w, x * h0, r, h, h0, g * w, x * h);
    PositiveMant(mant, g * w, x * h);
  }

  lemma AboveUnit(mant0: nat, c: nat, xh0: nat, r: nat)
    requires 2 * Gap(mant0 * c, xh0) <= c && mant0 >= r >= 2 && c > 0
    ensures 2 * xh0 >= r * c + c
  {
    MulMono(r, mant0, c, c);
    MulMono(2, r, c, c);
  }

  lemma SecondProducts(g0: nat, h0: nat, g: nat, h: nat, r: nat, w: nat, x: nat)
    requires r * g0 * h == 1 * h0 * g
    ensures r * (g0 * w) * h == h0 * (g * w) && x * h0 * h == h0 * (x * h)
  {
    assert r * (g0 * w) * h == r * g0 * h * w;
    assert h0 * (g * w) == 1 * h0 * g * w;
  }

  lemma SecondOrder(c: nat, xh0: nat, r: nat, h: nat, h0: nat, gw: nat, xh: nat)
    requires 2 * xh0 >= r * c + c && r * c * h == h0 * gw && xh0 * h == h0 * xh && c > 0 && h > 0 && h0 > 0
    ensures 2 * xh > gw
  {
    MulMono(r * c + c, 2 * xh0, h, h);
    assert (r * c + c) * h == r * c * h + c * h;
    TimesPositive(c, h);
    assert 2 * xh0 * h == h0 * (2 * xh);
    Order(gw, 2 * xh, h0);
  }

  /** Radix 2: the exponent is that of the double itself. */
  lemma BinaryExponent(e: int, exp0: int)
    requires ExponentOf(2, e, exp0)
    ensures exp0 == e
  {
    hide Pow;
    SameUp(exp0 - 1);
    SameUp(1 - exp0);
    SameUp(exp0);
    SameUp(-exp0);
    UpOrder(exp0 - 1, e - 1);
    UpOrder(exp0, e - 1);
  }

  lemma SameUp(k: int)
    ensures RadixUp(2, k) == Up(k)
  {
  }

  lemma UpOrder(a: int, b: int)
    ensures Up(a) * Up(-b) <= Up(b) * Up(-a) <==> a <= b
  {
    hide Pow;
    UpAdd(b - a, a);
    var u, v := Up(b - a), Up(a - b);
    UpSign(b - a);
    // u Up(a) Up(-b) == v Up(-a) Up(b)
    TimesPositive(Up(a), Up(-b));
    TimesPositive(Up(b), Up(-a));
    OrderBy(u, v, Up(a) * Up(-b), Up(b) * Up(-a), b - a) by {
      assert u * Up(a) * Up(-b) == u * (Up(a) * Up(-b)) by { MulAssoc(u, Up(a), Up(-b)); }
      assert v * Up(-a) * Up(b) == v * (Up(b) * Up(-a)) by { MulAssoc(v, Up(-a), Up(b)); }
    }
  }

  lemma UpSign(k: int)
    ensures k > 0 ==> Up(k) >= 2 && Up(-k) == 1
    ensures k < 0 ==> Up(-k) >= 2 && Up(k) == 1
    ensures k == 0 ==> Up(k) == 1 && Up(-k) == 1
  {
    if k > 0 { PowDouble(k - 1); PowPositive(2, k - 1); }
    if k < 0 { PowDouble(-k - 1); PowPositive(2, -k - 1); }
  }

  lemma OrderBy(u: nat, v: nat, a: nat, b: nat, k: int)
    requires u * a == v * b && a > 0 && b > 0
    requires (k > 0 ==> u >= 2 && v == 1) && (k < 0 ==> v >= 2 && u == 1) && (k == 0 ==> u == 1 && v == 1)
    ensures a <= b <==> k >= 0
  {
    MulMono(2, u, a, a);
    MulMono(2, v, b, b);
  }

  lemma BinaryBounds(m: nat, e: int, p: nat, exp0: int, mant: nat)
    requires FiniteDouble(m, e) && ExponentOf(2, e, exp0) && p >= 1
    requires Near(m, e, mant, RadixUp(2, exp0 + 1 - p), RadixUp(2, p - exp0 - 1))
    ensures mant < Pow(2, p)
  {
    hide Pow, Up, RadixUp;
    BinaryExponent(e, exp0);
    SameUp(e + 1 - p);
    SameUp(p - e - 1);
    PowFiftyThree();
    // x = m 2^(e-53) < 2^e, so x 2^(p-e-1) < 2^(p-1)
    UpAdd(e - 53, 53);
    UpAdd(e + 1 - p, p - 1);
    UpPow(53);
    UpPow(p - 1);
    PowDouble(p - 1);
    PowPositive(2, p - 1);
    BinaryArith(mant, Up(e + 1 - p), Up(p - e - 1), Up(53 - e), m, Up(e - 53), Up(e), Up(-e), Pow(2, p - 1));
  }

  lemma UpPow(k: nat)
    ensures Up(k) == Pow(2, k) && Up(-(k as int)) == 1
  {
    PowZero();
  }

  lemma BinaryArith(mant: nat, g: nat, h: nat, w: nat, m: nat, u: nat, a: nat, b: nat, q: nat)
    requires 2 * Gap(mant * (g * w), m * u * h) <= g * w && m < TWO53
    requires u * TWO53 * b == w * 1 * a && g * q * b == h * 1 * a && g > 0 && h > 0 && w > 0 && b > 0 && u > 0 && q > 0
    ensures mant < 2 * q
  {
    // m u h b < TWO53 u h b = w a h = w g q b
    BinaryProducts(g, h, w, m, u, a, b, q);
    TimesPositive(u * h, b);
    MulMono(m + 1, TWO53, u * h * b, u * h * b);
    PlusOne(m, u * h * b);
    Order(m * u * h, q * (g * w), b);
    AtMost(mant, g * w, m * u * h, q);
  }

  lemma PlusOne(m: nat, c: nat)
    ensures (m + 1) * c == m * c + c
  {
  }

  lemma BinaryProducts(g: nat, h: nat, w: nat, m: nat, u: nat, a: nat, b: nat, q: nat)
    requires u * TWO53 * b == w * 1 * a && g * q * b == h * 1 * a && g > 0 && w > 0 && u > 0 && h > 0
    ensures TWO53 * (u * h * b) == b * (q * (g * w)) && m * (u * h * b) == b * (m * u * h) && u * h > 0 && g * w > 0
  {
    assert TWO53 * (u * h * b) == u * TWO53 * b * h;
    assert w * 1 * a * h == h * 1 * a * w;
    assert b * (q * (g * w)) == g * q * b * w;
    TimesPositive(u, h);
    TimesPositive(g, w);
  }

  // ----- the first candidate needs no test -----

  /** In radix 2 the first candidate is exact. */
  lemma BinaryExact(m: nat, e: int, mant: nat)
    requires FiniteDouble(m, e) && Near(m, e, mant, RadixUp(2, e - 54), RadixUp(2, 54 - e))
    ensures mant == 2 * m && RoundsTo(mant * RadixUp(2, e - 54), RadixUp(2, 54 - e), NearestEven, m, e)
  {
    hide *;
    SameUp(e - 54);
    SameUp(54 - e);
    PowOneBit();
    UpPow(1);
    UpAdd(53 - e, 1);
    var g, h, w, u := Up(e - 54), Up(54 - e), Up(53 - e), Up(e - 53);
    NearIs(m, e, mant, g, h);
    TimesPositive(g, w);
    ExactArith(mant, m, g, h, w, u);
    NormalFacts(m, e);
    TimesPositive(h, u);
    TimesPositive(m, h * u);
    NoGap(mant * g * w, m * (h * u));
    ReadsBack(mant * g, h, m, e);
  }

  lemma NoGap(a: nat, b: nat)
    requires a == b
    ensures Gap(a, b) * (2 * TWO53) == 0
  {
  }

  lemma ExactArith(mant: nat, m: nat, g: nat, h: nat, w: nat, u: nat)
    requires 2 * Gap(mant * (g * w), m * u * h) <= g * w && w * 2 * g == u * 1 * h && g * w > 0
    ensures mant == 2 * m && mant * g * w == m * (h * u)
  {
    var c := g * w;
    assert m * u * h == m * (u * 1 * h) == m * (w * 2 * g) == 2 * m * c;
    UniqueMant(mant, 2 * m, c);
    assert mant * g * w == mant * (g * w) && m * (h * u) == m * u * h;
  }

  lemma UniqueMant(a: nat, b: nat, c: nat)
    requires 2 * Gap(a * c, b * c) <= c && c > 0
    ensures a == b
  {
    MulMono(a + 1, b, c, c);
    MulMono(b + 1, a, c, c);
    assert (a + 1) * c == a * c + c && (b + 1) * c == b * c + c;
  }

  /** A number of MAX_DIGITS digits reads back as the double it was rounded from. */
  lemma FirstReadsBack(m: nat, e: int, r: nat, exp0: int, exp: int, mant0: nat, mant: nat)
    requires FiniteDouble(m, e) && 2 <= r <= 36 && ExponentOf(r, e, exp0)
    requires exp == exp0 || exp == exp0 + 1
    requires var p := MaxP(r);
      && Near(m, e, mant0, RadixUp(r, exp0 - p), RadixUp(r, p - exp0))
      && Near(m, e, mant, RadixUp(r, exp - p), RadixUp(r, p - exp))
      && (exp == exp0 + 1 ==> mant0 >= Pow(r, p))
    ensures var p := MaxP(r);
      RoundsTo(mant * RadixUp(r, exp - p), RadixUp(r, p - exp), NearestEven, m, e)
  {
    hide *;
    var p := MaxP(r);
    MaxDigits(r);
    var g, h := RadixUp(r, exp - p), RadixUp(r, p - exp);
    if r == 2 {
      BinaryExponent(e, exp0);
      BinaryDigits();
      BinaryExact(m, e, mant0);
      DoubleSmall(m, e);
      BinaryExact(m, e, mant);
    } else {
      if exp == exp0 { FirstFine(m, e, r, p, exp0); } else { SecondFine(m, e, r, p, exp0, mant0); }
      FineReadsBack(m, e, mant, g, h);
    }
  }

  lemma BinaryDigits()
    ensures MaxP(2) == 54
  {
  }

  lemma DoubleSmall(m: nat, e: int)
    requires FiniteDouble(m, e)
    ensures 2 * m < Pow(2, 54)
  {
    PowFiftyThree();
    PowDouble(53);
  }

  // ----- the search -----

  /** Equal ratios round to the same double. */
  lemma RoundsToRatio(n1: nat, d1: nat, n2: nat, d2: nat, m: nat, e: int)
    requires Ratio(n1, d1, n2, d2, 0) && RoundsTo(n1, d1, NearestEven, m, e)
    ensures RoundsTo(n2, d2, NearestEven, m, e)
  {
    hide Ratio, AtLeast, Rounded, Up;
    var e0 :| InBinade(n1, d1, e0) && Round53(n1, d1, e0, NearestEven) == (m, e);
    RatioPositive(n1, d1, n2, d2);
    RatioAtLeast(n1, d1, n2, d2, 0, e0);
    RatioAtLeast(n1, d1, n2, d2, 0, e0 - 1);
    var k := Prec(e0) - e0;
    RatioShift(n1, d1, n2, d2, 0, k);
    RatioMove(n1 * Up(k), d1 * Up(-k), n2, d2, k);
    TimesPositive(d1, Up(-k));
    TimesPositive(d2, Up(-k));
    RatioRounds(n1 * Up(k), d1 * Up(-k), n2 * Up(k), d2 * Up(-k), NearestEven);
    assert Round53(n2, d2, e0, NearestEven) == (m, e);
    assert InBinade(n2, d2, e0);
  }

  lemma RatioPositive(n1: nat, d1: nat, n2: nat, d2: nat)
    requires Ratio(n1, d1, n2, d2, 0)
    ensures d1 > 0 && d2 > 0
  {
  }

  /** Moving a digit between the mantissa and the exponent. */
  lemma ShiftDigit(mant: nat, r: nat, k: int)
    requires r >= 1
    ensures Ratio(mant * r * RadixUp(r, k), RadixUp(r, -k), mant * RadixUp(r, k + 1), RadixUp(r, -k - 1), 0)
  {
    hide Pow;
    PowSmall(r);
    RadixAdd(r, 1, k);
    assert Up(0) == 1 && RadixUp(r, 1) == r && RadixUp(r, -1) == 1;
    DigitArith(mant, r, RadixUp(r, k), RadixUp(r, -k), RadixUp(r, k + 1), RadixUp(r, -k - 1));
  }

  lemma DigitArith(mant: nat, r: nat, g: nat, h: nat, g': nat, h': nat)
    requires r * g * h' == 1 * h * g'
    ensures mant * r * g * h' * 1 == mant * g' * h * 1
  {
    assert mant * r * g * h' == mant * (r * g * h');
    assert mant * g' * h == mant * (1 * h * g');
  }

  // ----- the 52 limbs of DBIGNUM_LEN_MAX are enough -----

  lemma StrongDigits1()
    ensures PowBin(3, 20) >= 0x800_0000 && PowBin(5, 13) >= 0x800_0000 && PowBin(7, 11) >= 0x800_0000 && PowBin(9, 10) >= 0x800_0000
    ensures PowBin(11, 9) >= 0x800_0000 && PowBin(13, 8) >= 0x800_0000 && PowBin(15, 8) >= 0x800_0000 && PowBin(17, 7) >= 0x800_0000
  {
  }

  lemma StrongDigits2()
    ensures PowBin(19, 7) >= 0x800_0000 && PowBin(21, 7) >= 0x800_0000 && PowBin(23, 7) >= 0x800_0000 && PowBin(25, 6) >= 0x800_0000
    ensures PowBin(27, 6) >= 0x800_0000 && PowBin(29, 6) >= 0x800_0000 && PowBin(31, 6) >= 0x800_0000 && PowBin(33, 6) >= 0x800_0000
    ensures PowBin(35, 6) >= 0x800_0000 && PowBin(2, 27) == 0x800_0000
  {
  }

  /** A limb of digits is worth at least 27 bits. */
  lemma StrongDigits(radix1: nat)
    requires OddRadix(radix1) && radix1 != 1
    ensures Pow(radix1, Digits(radix1)) >= Pow(2, 27)
  {
    hide Pow, PowBin;
    PowBinIs(radix1, Digits(radix1));
    PowBinIs(2, 27);
    StrongDigits1();
    StrongDigits2();
  }

  lemma {:induction false} PowBase(a: nat, b: nat, k: nat)
    requires a <= b
    ensures Pow(a, k) <= Pow(b, k)
  {
    if k > 0 {
      PowBase(a, b, k - 1);
      MulMono(a, b, Pow(a, k - 1), Pow(b, k - 1));
    }
  }

  lemma {:induction false} ManyBits(r: nat, d: nat, q: nat)
    requires r >= 1 && Pow(r, d) >= Pow(2, 27)
    ensures Pow(r, q * d) >= Pow(2, 27 * q)
  {
    hide Pow;
    if q == 0 {
      PowZero();
      PowPositive(r, 0);
    } else {
      var n, b := (q - 1) * d, 27 * (q - 1);
      NextMultiple(q, d);
      ManyBits(r, d, q - 1);
      PowAdd(r, d, n);
      PowAdd(2, 27, b);
      MulMono(Pow(2, 27), Pow(r, d), Pow(2, b), Pow(r, n));
    }
  }

  lemma NextMultiple(q: nat, d: nat)
    requires q > 0
    ensures (q - 1) * d >= 0 && q * d == d + (q - 1) * d
  {
  }

  lemma TwoGrows(a: nat, b: nat)
    ensures a > b ==> Pow(2, a) > Pow(2, b)
  {
    hide Pow;
    PowPositive(2, b);
    PowDouble(b);
    if a > b { PowMono(2, b + 1, a); }
  }

  /** Exponents are below c limbs of digits when the power is below 2^(27 * c). */
  lemma FewLimbs(r: nat, d: nat, k: nat, n: nat, c: nat)
    requires r >= 1 && d >= 1 && Pow(r, d) >= Pow(2, 27) && Pow(r, k) <= Pow(2, n) && n < 27 * c
    ensures k <= c * d - 1
  {
    hide Pow;
    var q := k / d;
    DivMod(k, d);
    ManyBits(r, d, q);
    PowMono(r, q * d, k);
    TwoGrows(27 * q, n);
    MulMono(q + 1, c, d, d);
    StepUp(q, d);
  }

  lemma UpAtMost(k: int, n: nat)
    requires k <= n
    ensures Up(k) <= Pow(2, n)
  {
    hide Pow;
    PowPositive(2, n);
    if k > 0 { PowMono(2, k, n); }
  }

  /** The exponent of a double in radix r, in limbs of digits. */
  lemma ExponentRange(m: nat, e: int, radix1: nat, radixShift: nat, exp0: int)
    requires FiniteDouble(m, e) && OddRadix(radix1) && radix1 != 1 && Radix(radix1, radixShift) <= 36
    requires ExponentOf(Radix(radix1, radixShift), e, exp0)
    ensures 1 - 40 * Digits(radix1) <= exp0 <= 38 * Digits(radix1)
  {
    hide Pow, Digits, Up, RadixUp, Radix;
    var r, d := Radix(radix1, radixShift), Digits(radix1);
    RadixAtLeast(radix1, radixShift);
    StrongDigits(radix1);
    PowBase(radix1, r, d);
    UpAtMost(e - 1, 1023);
    UpAtMost(1 - e, 1074);
    UpPositive(e - 1);
    UpPositive(1 - e);
    if exp0 >= 1 {
      RadixPow(r, exp0 - 1);
      MulMono(1, Up(1 - e), RadixUp(r, exp0 - 1), RadixUp(r, exp0 - 1));
      assert RadixUp(r, exp0 - 1) * Up(1 - e) == Up(1 - e) * RadixUp(r, exp0 - 1);
      FewLimbs(r, d, exp0 - 1, 1023, 38);
    } else {
      RadixPow(r, -exp0);
      MulMono(1, Up(e - 1), RadixUp(r, -exp0), RadixUp(r, -exp0));
      FewLimbs(r, d, -exp0, 1074, 40);
    }
  }

  lemma UpPositive(k: int)
    ensures Up(k) >= 1
  {
  }

  lemma RadixAtLeast(radix1: nat, radixShift: nat)
    requires radix1 >= 1
    ensures Radix(radix1, radixShift) >= radix1 && Radix(radix1, radixShift) >= Pow(2, radixShift)
  {
    hide Pow;
    PowPositive(2, radixShift);
    MulMono(1, Pow(2, radixShift), radix1, radix1);
    MulMono(1, radix1, Pow(2, radixShift), Pow(2, radixShift));
  }

  /** The digit limit is at most three limbs of digits. */
  lemma MaxInLimbs(radix1: nat, r: nat)
    requires OddRadix(radix1) && radix1 != 1 && radix1 <= r <= 36
    ensures MaxP(r) <= 3 * Digits(radix1)
  {
    assert r >= 9 ==> MAX_DIGITS[r - 2] <= 18;
    assert r >= 5 ==> MAX_DIGITS[r - 2] <= 24;
    assert r >= 3 ==> MAX_DIGITS[r - 2] <= 35;
  }

  lemma ShiftSmall(radix1: nat, radixShift: nat)
    requires radix1 >= 1 && Radix(radix1, radixShift) <= 36
    ensures radixShift <= 5 && (radix1 >= 3 ==> radixShift <= 3)
  {
    hide Pow;
    RadixAtLeast(radix1, radixShift);
    if radixShift > 5 {
      PowMono(2, 6, radixShift);
      SixtyFour();
    }
    if radixShift > 3 && radix1 >= 3 {
      PowMono(2, 4, radixShift);
      Sixteen();
      MulMono(3, radix1, 16, Pow(2, radixShift));
    }
  }

  lemma Sixteen()
    ensures Pow(2, 4) == 16
  {
    assert Pow(2, 2) == 4;
  }

  lemma SixtyFour()
    ensures Pow(2, 6) == 64
  {
    assert Pow(2, 3) == 8;
  }

  lemma UpAbove(a: nat, k: int)
    requires Pow(2, a) < Up(k)
    ensures a < k
  {
    hide Pow;
    PowPositive(2, a);
    if k > 0 { NotGrown(a, k); }
  }

  lemma NotGrown(a: nat, k: nat)
    requires Pow(2, a) < Pow(2, k)
    ensures a < k
  {
    hide Pow;
    TwoGrows(a, k);
  }

  lemma PowersOfTwo(r: nat, s: nat, k: nat)
    requires Pow(2, s) <= r <= 36
    ensures Pow(2, s * k) <= Pow(r, k) <= Pow(2, 6 * k)
  {
    hide Pow;
    PowNest(2, s, k);
    PowBase(Pow(2, s), r, k);
    SixtyFour();
    PowNest(2, 6, k);
    PowBase(r, 64, k);
  }

  /** Below one, the scaling by the even part of the radix stays below the double's own exponent. */
  lemma SmallExponent(e: int, radix1: nat, radixShift: nat, exp0: int)
    requires radix1 >= 1 && Radix(radix1, radixShift) <= 36 && exp0 <= 0 && ExponentOf(Radix(radix1, radixShift), e, exp0)
    ensures radixShift * -exp0 < 1 - e
  {
    hide Pow, Up, RadixUp, Radix;
    var r, k: nat := Radix(radix1, radixShift), -exp0;
    RadixAtLeast(radix1, radixShift);
    PowersOfTwo(r, radixShift, k);
    RadixPow(r, k);
    UpPositive(e - 1);
    MulMono(1, Up(e - 1), RadixUp(r, k), RadixUp(r, k));
    NonNegativeProduct(radixShift, k);
    UpAbove(radixShift * k, 1 - e);
  }

  lemma NonNegativeProduct(a: nat, b: nat)
    ensures a * b >= 0
  {
  }

  /** Above one, the exponent in bits is at most six times the exponent in digits. */
  lemma LargeExponent(e: int, r: nat, exp0: int)
    requires 1 <= r <= 36 && exp0 >= 1 && ExponentOf(r, e, exp0)
    ensures e <= 6 * exp0 || e <= 1
  {
    hide Pow, RadixUp;
    if e > 1 {
      RadixPow(r, exp0);
      PowZero();
      PowersOfTwo(r, 0, exp0);
      NotGrown(e - 1, 6 * exp0);
    }
  }

  /** The bits of the last shift up, when there is one. */
  lemma LastShift(m: nat, e: int, radix1: nat, radixShift: nat, exp0: int, exp: int, p: nat)
    requires FiniteDouble(m, e) && OddRadix(radix1) && Radix(radix1, radixShift) <= 36 && ExponentOf(Radix(radix1, radixShift), e, exp0)
    requires 1 <= p <= 54 && (exp == exp0 || exp == exp0 + 1)
    ensures p - exp >= 0 ==> e - 53 + (p - exp) * radixShift <= if radix1 >= 3 && exp0 <= 0 then 110 else 280
    ensures e - 53 + (p - exp) * radixShift <= 1300
  {
    hide Pow, ExponentOf;
    ShiftSmall(radix1, radixShift);
    OddPositive(radix1);
    if exp0 <= 0 {
      SmallExponent(e, radix1, radixShift, exp0);
      ShiftLow(p, exp0, exp, radixShift, e);
    } else {
      LargeExponent(e, Radix(radix1, radixShift), exp0);
      ShiftHigh(p, exp, radixShift);
    }
  }

  lemma ShiftLow(p: nat, exp0: int, exp: int, s: nat, e: int)
    requires s <= 5 && p <= 54 && (exp == exp0 || exp == exp0 + 1) && s * -exp0 < 1 - e
    ensures e - 53 + (p - exp) * s <= if s <= 3 then 110 else 280
  {
    assert (p - exp) * s <= (p - exp0) * s;
    assert (p - exp0) * s == p * s + s * -exp0;
    MulMono(p, 54, s, if s <= 3 then 3 else 5);
  }

  lemma ShiftHigh(p: nat, exp: int, s: nat)
    requires s <= 5 && 1 <= p <= 54 && exp >= 1
    ensures p - exp >= 0 ==> 0 <= (p - exp) * s <= 5 * (p - exp)
    ensures (p - exp) * s <= 265
  {
    if p >= exp {
      MulMono(p - exp, p - exp, s, 5);
      NonNegativeProduct(p - exp, s);
    } else {
      NonNegativeProduct(exp - p, s);
      assert (p - exp) * s == -((exp - p) * s);
    }
  }

  lemma LimbsAtMost(radix1: nat, f: nat, c: nat)
    requires OddRadix(radix1) && radix1 != 1 && f <= c * Digits(radix1)
    ensures LimbsFor(radix1, f) <= c
  {
    var d := Digits(radix1);
    assert d * (c + 1) == c * d + d;
    QuotientBelow(f + d - 1, d, c + 1);
  }

  lemma ExtraLimbs(l: nat, radixShift: nat, f: int, e: int)
    requires l <= 38 && f < 0 && e <= 971
    ensures l + 1 + Extra(l, radixShift, f, true, e, -1) / 32 <= 39
    ensures Extra(l, radixShift, f, false, 55, -1) / 32 == 1
  {
    NonNegativeProduct(-f, radixShift);
    assert -f * radixShift >= 0;
  }

  /** The 52 limbs of the buffer are enough for every step of the search, for all doubles and radices. */
  lemma BufferSuffices(m: nat, e: int, radix1: nat, radixShift: nat, exp0: int, exp: int, p: nat)
    requires FiniteDouble(m, e) && OddRadix(radix1) && 2 <= Radix(radix1, radixShift) <= 36 && ExponentOf(Radix(radix1, radixShift), e, exp0)
    requires 1 <= p <= MaxP(Radix(radix1, radixShift)) && (exp == exp0 || exp == exp0 + 1)
    ensures Needs(e - 53, radix1, radixShift, p - exp) <= 52
    ensures NeedsToD(radix1, radixShift, exp - p) <= 52
  {
    hide Pow, Digits, LimbsFor, ExponentOf, Radix, MaxP, Extra;
    var r := Radix(radix1, radixShift);
    AtMostMax(r, p);
    LastShift(m, e, radix1, radixShift, exp0, exp, p);
    if radix1 != 1 {
      ExponentRange(m, e, radix1, radixShift, exp0);
      RadixAtLeast(radix1, radixShift);
      MaxInLimbs(radix1, r);
      var f := p - exp;
      if f >= 0 {
        var c := if exp0 >= 1 then 3 else 43;
        LimbsAtMost(radix1, f, c);
        if f > 0 { ReadBackLimbs(radix1, radixShift, -f, c); }
      } else {
        LimbsAtMost(radix1, -f, 38);
        ExtraLimbs(LimbsFor(radix1, -f), radixShift, f, e - 53);
      }
    }
  }

  lemma ReadBackLimbs(radix1: nat, radixShift: nat, f: int, l: nat)
    requires OddRadix(radix1) && radix1 != 1 && f < 0 && LimbsFor(radix1, -f) <= l
    ensures Growth(radix1, radixShift, f, false, 55) <= l + 2
  {
    hide LimbsFor;
  }

  /** The candidate of at most P digits. */
  method Mantissa(tmp: Mpb, m: nat, e: int, radix1: nat, radixShift: nat, p: nat, exp0: int) returns (mant: nat, exp: int)
    requires FiniteDouble(m, e) && OddRadix(radix1) && p >= 1
    requires var r := Radix(radix1, radixShift);
      2 <= r <= 36 && ExponentOf(r, e, exp0) && Pow(r, p) < LIMIT
    requires p <= MaxP(Radix(radix1, radixShift)) && tmp.tab.Length >= 52
    modifies tmp`len, tmp.tab
    ensures (mant, exp) == Candidate(m, e, Radix(radix1, radixShift), exp0, p)
  {
    hide *;
    OddPositive(radix1);
    ghost var r := Radix(radix1, radixShift);
    RadixIs(radix1, radixShift);
    SmallEnough(m, e, Pow(r, p));
    CandidateBounds(m, e, r, exp0, p);
    CandidateParts(m, e, r, exp0, p);
    WordFits(DigitsAt(m, e, r, p, exp0), Pow(r, p));
    var mantMax := PowUi(radix1 * Pow(2, radixShift), p);
    exp := exp0;
    mant := TryExponent(tmp, m, e, radix1, radixShift, p, exp, exp0);
    if mant >= mantMax {
      exp := exp + 1;
      mant := TryExponent(tmp, m, e, radix1, radixShift, p, exp, exp0);
      WordFits(DigitsAt(m, e, r, p, exp), Pow(r, p));
    }
  }

  /** A candidate is positive and has at most p digits. */
  lemma CandidateBounds(m: nat, e: int, r: nat, exp0: int, p: nat)
    requires FiniteDouble(m, e) && r >= 2 && ExponentOf(r, e, exp0) && p >= 1
    ensures DigitsAt(m, e, r, p, exp0) <= 2 * Pow(r, p)
    ensures var (mant, exp) := Candidate(m, e, r, exp0, p);
      && (exp == exp0 || exp == exp0 + 1)
      && 0 < mant < Pow(r, p) && Near(m, e, mant, RadixUp(r, exp - p), RadixUp(r, p - exp))
  {
    hide *;
    CandidateParts(m, e, r, exp0, p);
    var mant0 := DigitsAt(m, e, r, p, exp0);
    DigitsNear(m, e, r, p, exp0);
    FirstBounds(m, e, r, p, exp0, mant0);
    if mant0 >= Pow(r, p) {
      DigitsNear(m, e, r, p, exp0 + 1);
      SecondBounds(m, e, r, p, exp0, mant0, DigitsAt(m, e, r, p, exp0 + 1));
    }
  }

  /** round(x * radix^(P - E)), read as a 64-bit word. */
  method TryExponent(tmp: Mpb, m: nat, e: int, radix1: nat, radixShift: nat, p: nat, exp: int, ghost exp0: int) returns (mant: nat)
    requires FiniteDouble(m, e) && OddRadix(radix1) && 2 <= Radix(radix1, radixShift) <= 36 && ExponentOf(Radix(radix1, radixShift), e, exp0)
    requires 1 <= p <= MaxP(Radix(radix1, radixShift)) && (exp == exp0 || exp == exp0 + 1) && tmp.tab.Length >= 52
    modifies tmp`len, tmp.tab
    ensures mant == DigitsAt(m, e, Radix(radix1, radixShift), p, exp) % BB
  {
    hide *;
    SmallEnough(m, e, 0);
    OddPositive(radix1);
    BufferSuffices(m, e, radix1, radixShift, exp0, exp, p);
    MulPowRound(tmp, m, e - 53, radix1, radixShift, p - exp, NearestEven);
    CandidateIs(m, e, radix1, radixShift, p, exp);
    mant := tmp.GetU64();
  }

  lemma OddPositive(radix1: nat)
    requires OddRadix(radix1)
    ensures radix1 >= 1
  {
  }

  lemma RadixIs(radix1: nat, radixShift: nat)
    requires radix1 >= 1
    ensures Radix(radix1, radixShift) == radix1 * Pow(2, radixShift)
  {
    hide Pow;
  }

  lemma SmallEnough(m: nat, e: int, limit: nat)
    requires FiniteDouble(m, e)
    ensures m < BB && (limit < LIMIT ==> limit < BB) && 36 < B
  {
  }

  lemma WordFits(v: nat, limit: nat)
    requires v <= 2 * limit && limit < LIMIT
    ensures v % BB == v
  {
  }

  /** Digits that read back: no trailing zero, and correctly rounded they give (m, e). */
  ghost predicate ReadBack(m: nat, e: int, r: nat, mant: nat, p: nat, exp: int)
    requires r >= 1
  {
    && 0 < mant < Pow(r, p) && p >= 1 && mant % r != 0
    && RoundsTo(mant * RadixUp(r, exp - p), RadixUp(r, p - exp), NearestEven, m, e)
  }

  /** What the candidate of p0 digits shows: without its zeros at the end it is the candidate of p digits, and all those
    * from p to p0 digits are the same number. */
  ghost predicate Shown(m: nat, e: int, r: nat, exp0: int, p0: nat, mant: nat, p: nat, exp: int)
    requires r >= 1
  {
    && 1 <= p <= p0 && 0 < mant < Pow(r, p) && (mant, exp) == Candidate(m, e, r, exp0, p)
    && forall k: nat :: p <= k <= p0 ==> (Works(m, e, r, exp0, k) <==> Works(m, e, r, exp0, p))
  }

  /** Remove trailing zero digits. */
  method StripZeros(mant0: nat, p0: nat, r: nat, ghost m: nat, ghost e: int, ghost exp0: int, ghost exp: int) returns (mant: nat, p: nat)
    requires r >= 2 && 0 < mant0 < Pow(r, p0) && p0 >= 1 && (mant0, exp) == Candidate(m, e, r, exp0, p0)
    ensures Shown(m, e, r, exp0, p0, mant, p, exp) && mant % r != 0
  {
    hide *;
    mant, p := mant0, p0;
    FirstShown(m, e, r, exp0, p0, mant0, exp);
    while mant % r == 0
      invariant Shown(m, e, r, exp0, p0, mant, p, exp)
      decreases p
    {
      MoreShown(m, e, r, exp0, p0, mant, p, exp);
      mant := mant / r;
      p := p - 1;
    }
  }

  lemma FirstShown(m: nat, e: int, r: nat, exp0: int, p: nat, mant: nat, exp: int)
    requires r >= 1 && 1 <= p && 0 < mant < Pow(r, p) && (mant, exp) == Candidate(m, e, r, exp0, p)
    ensures Shown(m, e, r, exp0, p, mant, p, exp)
  {
    hide Pow, Candidate, Works;
  }

  lemma MoreShown(m: nat, e: int, r: nat, exp0: int, p0: nat, mant: nat, p: nat, exp: int)
    requires r >= 2 && Shown(m, e, r, exp0, p0, mant, p, exp) && mant % r == 0
    ensures p >= 2 && Shown(m, e, r, exp0, p0, mant / r, p - 1, exp)
  {
    hide Pow, Candidate, Works;
    OneDigitLess(mant, r, p);
    ZeroDropped(m, e, r, exp0, p, mant, exp);
  }

  lemma OneDigitLess(mant: nat, r: nat, p: nat)
    requires r >= 2 && p >= 1 && 0 < mant < Pow(r, p) && mant % r == 0
    ensures mant == (mant / r) * r && 0 < mant / r < Pow(r, p - 1) && p >= 2
  {
    hide Pow;
    PowMore(r, p - 1);
    PowSmall(r);
    DivMod(mant, r);
    ZeroTimes(r);
    Order(mant / r, Pow(r, p - 1), r);
    assert r * (mant / r) == (mant / r) * r && r * Pow(r, p - 1) == Pow(r, p - 1) * r;
  }

  /** The search went on as long as it could: the candidates from p digits to the limit all read back, and the one of one
    * digit less does not. */
  ghost predicate Searched(m: nat, e: int, r: nat, exp0: int, p: nat)
    requires 2 <= r <= 36
  {
    && (forall k: nat :: p <= k <= MaxP(r) ==> Works(m, e, r, exp0, k))
    && (p > 1 ==> !Works(m, e, r, exp0, p - 1))
  }

  /** What the search has so far. */
  ghost predicate Accepted(m: nat, e: int, r: nat, exp0: int, mant: nat, p: nat, exp: int)
    requires 2 <= r <= 36
  {
    && 1 <= p <= MaxP(r) && mant % r != 0 && 0 < mant < Pow(r, p) && (mant, exp) == Candidate(m, e, r, exp0, p)
    && forall k: nat :: p <= k <= MaxP(r) ==> Works(m, e, r, exp0, k)
  }

  /** The free-format branch of js_dtoa: the double rounded to p digits, which read back. All longer candidates do so too,
    * and the next shorter one does not. */
  method FreeDigits(tmp: Mpb, m: nat, e: int, radix1: nat, radixShift: nat, exp0: int) returns (mant: nat, p: nat, exp: int)
    requires FiniteDouble(m, e) && OddRadix(radix1) && 2 <= Radix(radix1, radixShift) <= 36
    requires ExponentOf(Radix(radix1, radixShift), e, exp0)
    requires tmp.tab.Length >= 52
    modifies tmp`len, tmp.tab
    ensures p <= MaxP(Radix(radix1, radixShift)) && ReadBack(m, e, Radix(radix1, radixShift), mant, p, exp)
    ensures (mant, exp) == Candidate(m, e, Radix(radix1, radixShift), exp0, p)
    ensures Searched(m, e, Radix(radix1, radixShift), exp0, p)
  {
    hide *;
    OddPositive(radix1);
    ghost var r := Radix(radix1, radixShift);
    RadixIs(radix1, radixShift);
    MaxDigits(r);
    var found := false;
    mant, p, exp := 0, 0, exp0;
    var next := MaxP(radix1 * Pow(2, radixShift));
    while true
      invariant 1 <= next <= MaxP(r)
      invariant if found then next == p - 1 && Accepted(m, e, r, exp0, mant, p, exp) else next == MaxP(r)
      decreases next
    {
      var mant1, p1, exp1, ok := TryDigits(tmp, m, e, radix1, radixShift, exp0, next, !found);
      if !ok {
        Finish(m, e, r, exp0, mant, p, exp);
        return;
      }
      ShorterAccepted(m, e, r, exp0, mant, p, exp, mant1, p1, exp1, next);
      found, mant, p, exp := true, mant1, p1, exp1;
      if p1 == 1 {
        Finish(m, e, r, exp0, mant, p, exp);
        return;
      }
      next := p1 - 1;
    }
  }

  lemma Finish(m: nat, e: int, r: nat, exp0: int, mant: nat, p: nat, exp: int)
    requires 2 <= r <= 36 && Accepted(m, e, r, exp0, mant, p, exp) && (p > 1 ==> !Works(m, e, r, exp0, p - 1))
    ensures p <= MaxP(r) && ReadBack(m, e, r, mant, p, exp) && (mant, exp) == Candidate(m, e, r, exp0, p) && Searched(m, e, r, exp0, p)
  {
    hide Pow, RoundsTo, MaxP, Works, Candidate, RadixUp;
    assert Works(m, e, r, exp0, p);
    WorksMeans(m, e, r, exp0, p);
  }

  lemma ShorterAccepted(m: nat, e: int, r: nat, exp0: int, mant: nat, p: nat, exp: int, mant1: nat, p1: nat, exp1: int, next: nat)
    requires 2 <= r <= 36 && (next == MaxP(r) || (next == p - 1 && Accepted(m, e, r, exp0, mant, p, exp)))
    requires Shown(m, e, r, exp0, next, mant1, p1, exp1) && mant1 % r != 0 && next <= MaxP(r) && Works(m, e, r, exp0, p1)
    ensures Accepted(m, e, r, exp0, mant1, p1, exp1)
  {
    hide Pow, MaxP, Works, Candidate;
  }

  /** One attempt with at most P digits; the first one is accepted as it is, the others are read
    * back. */
  method TryDigits(tmp: Mpb, m: nat, e: int, radix1: nat, radixShift: nat, exp0: int, p0: nat, first: bool) returns (mant: nat, p: nat, exp: int, ok: bool)
    requires FiniteDouble(m, e) && OddRadix(radix1) && 2 <= Radix(radix1, radixShift) <= 36
    requires ExponentOf(Radix(radix1, radixShift), e, exp0)
    requires tmp.tab.Length >= 52
    requires 1 <= p0 <= MaxP(Radix(radix1, radixShift)) && (first ==> p0 == MaxP(Radix(radix1, radixShift)))
    modifies tmp`len, tmp.tab
    ensures first ==> ok
    ensures 1 <= p <= p0 && mant % Radix(radix1, radixShift) != 0 && Shown(m, e, Radix(radix1, radixShift), exp0, p0, mant, p, exp)
    ensures ok <==> Works(m, e, Radix(radix1, radixShift), exp0, p)
    ensures ok <==> Works(m, e, Radix(radix1, radixShift), exp0, p0)
  {
    hide *;
    OddPositive(radix1);
    ghost var r := Radix(radix1, radixShift);
    RadixIs(radix1, radixShift);
    FewerDigits(r, p0);
    AtMostMax(r, p0);
    CandidateBounds(m, e, r, exp0, p0);
    var mant1, exp1 := Mantissa(tmp, m, e, radix1, radixShift, p0, exp0);
    exp := exp1;
    mant, p := StripZeros(mant1, p0, radix1 * Pow(2, radixShift), m, e, exp0, exp1);
    ShownEnds(m, e, r, exp0, p0, mant, p, exp);
    ok := true;
    if first {
      FirstWorks(m, e, r, exp0);
    } else {
      WordOf(mant, Pow(r, p), r, p);
      BufferSuffices(m, e, radix1, radixShift, exp0, exp, p);
      ok := ReadsSame(tmp, m, e, radix1, radixShift, mant, exp - p);
      NegateDiff(exp, p);
      WorksMeans(m, e, r, exp0, p);
    }
  }

  lemma ShownEnds(m: nat, e: int, r: nat, exp0: int, p0: nat, mant: nat, p: nat, exp: int)
    requires r >= 1 && Shown(m, e, r, exp0, p0, mant, p, exp)
    ensures 1 <= p <= p0 && 0 < mant < Pow(r, p) && (mant, exp) == Candidate(m, e, r, exp0, p)
    ensures Works(m, e, r, exp0, p0) <==> Works(m, e, r, exp0, p)
  {
    hide Pow, Candidate, Works;
  }

  /** The candidate of the most digits reads back. */
  lemma FirstWorks(m: nat, e: int, r: nat, exp0: int)
    requires FiniteDouble(m, e) && 2 <= r <= 36 && ExponentOf(r, e, exp0)
    ensures Works(m, e, r, exp0, MaxP(r))
  {
    hide *;
    var p := MaxP(r);
    MaxDigits(r);
    CandidateBounds(m, e, r, exp0, p);
    CandidateParts(m, e, r, exp0, p);
    DigitsNear(m, e, r, p, exp0);
    var c := Candidate(m, e, r, exp0, p);
    FirstReadsBack(m, e, r, exp0, c.1, DigitsAt(m, e, r, p, exp0), c.0);
    WorksMeans(m, e, r, exp0, p);
  }

  lemma NegateDiff(a: int, b: int)
    ensures -(a - b) == b - a
  {
  }

  /** Convert back to base 2 and compare. */
  method ReadsSame(tmp: Mpb, m: nat, e: int, radix1: nat, radixShift: nat, mant: nat, f: int) returns (same: bool)
    requires OddRadix(radix1) && 0 < mant < BB
    requires NeedsToD(radix1, radixShift, f) <= tmp.tab.Length
    modifies tmp`len, tmp.tab
    ensures var r := Radix(radix1, radixShift);
      same <==> RoundsTo(mant * RadixUp(r, f), RadixUp(r, -f), NearestEven, m, e)
  {
    hide *;
    OddPositive(radix1);
    AtLeastFive(radix1, radixShift, f);
    tmp.SetU64(mant);
    var m1, e1 := MulPowRoundToD(tmp, radix1, radixShift, f, NearestEven);
    NumIs(mant, radix1, radixShift, f);
    same := m1 == m && e1 == e;
    ghost var r := Radix(radix1, radixShift);
    if RoundsTo(mant * RadixUp(r, f), RadixUp(r, -f), NearestEven, m, e) {
      RoundsToUnique(mant * RadixUp(r, f), RadixUp(r, -f), NearestEven, m, e, m1, e1);
    }
  }

  lemma AtLeastFive(radix1: nat, radixShift: nat, f: int)
    requires OddRadix(radix1)
    ensures NeedsToD(radix1, radixShift, f) >= 5
  {
    hide Growth;
  }

  lemma AtMostMax(r: nat, p: nat)
    requires 2 <= r <= 36 && p <= MaxP(r)
    ensures p <= 54
  {
  }

  lemma FewerDigits(r: nat, p: nat)
    requires 2 <= r <= 36 && p <= MaxP(r)
    ensures Pow(r, p) < LIMIT
  {
    hide Pow, MaxP;
    MaxDigits(r);
    PowMono(r, p, MaxP(r));
  }

  lemma WordOf(mant: nat, limit: nat, r: nat, p: nat)
    requires mant < limit == Pow(r, p) && 2 <= r <= 36 && p <= MaxP(r)
    ensures mant < BB
  {
    hide Pow, MaxP;
    FewerDigits(r, p);
  }
}
