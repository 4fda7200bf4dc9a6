/** What rounding to a double means, in terms of the format alone: the doubles are the multiples k * 2^j of the unit
  * 2^-1074 with k below 2^53. */
module DoubleRounding {
  import opened Limbs
  import opened Rounding
  import opened BigNumber
  import opened PowerScaling
  import opened RoundDouble

  function Shifted(k: nat, j: nat): nat { k * Pow(2, j) }

  /** v units of 2^-1074 are a double: 53 bits of precision, and nothing below the unit. */
  ghost predicate IsDouble(v: nat) {
    exists k: nat, j: nat :: k < 0x20_0000_0000_0000 && v == Shifted(k, j)
  }

  /** The number m * 2^(e-53) in units. */
  function Units(m: nat, e: int): nat {
    if e >= -1021 then m * Pow(2, e + 1021) else PowPositive(2, -1021 - e); m / Pow(2, -1021 - e)
  }

  predicate WholeUnits(m: nat, e: int) {
    e < -1021 ==> (PowPositive(2, -1021 - e); m % Pow(2, -1021 - e) == 0)
  }

  lemma UnitPower(q: int)
    requires q >= -1074
    ensures Pow(2, 1074) * Up(q) == Pow(2, q + 1074) * Up(-q)
  {
    hide Pow;
    PowZero();
    if q >= 0 { PowAdd(2, 1074, q); } else { PowAdd(2, q + 1074, -q); }
  }

  lemma UnitRatio(n: nat, d: nat, q: int)
    requires d > 0 && q >= -1074
    ensures d * Pow(2, q + 1074) > 0
    ensures Ratio(n * Pow(2, 1074), d * Pow(2, q + 1074), n, d, -q)
    ensures d * Up(q) > 0 && Ratio(n * Up(-q), d * Up(q), n * Pow(2, 1074), d * Pow(2, q + 1074), 0)
  {
    hide Pow, Up;
    PowPositive(2, q + 1074);
    TimesPositive(d, Pow(2, q + 1074));
    TimesPositive(d, Up(q));
    UnitPower(q);
    UpZero();
    CrossUnits(n, d, Pow(2, 1074), Pow(2, q + 1074), Up(q), Up(-q));
  }

  lemma UpZero()
    ensures Up(0) == 1
  {
  }

  lemma CrossUnits(n: nat, d: nat, s: nat, p: nat, u: nat, w: nat)
    requires s * u == p * w
    ensures n * s * d * u == n * (d * p) * w
    ensures n * w * (d * p) * 1 == n * s * (d * u) * 1
  {
    assert n * s * d * u == n * d * (s * u);
    assert n * (d * p) * w == n * d * (p * w);
    assert n * w * (d * p) == n * d * (p * w);
    assert n * s * (d * u) == n * d * (s * u);
  }

  /** The grid of the binade: rounding to units of 2^q. */
  lemma GridBounds(n: nat, d: nat, e0: int, q: int)
    requires d > 0 && InBinade(n, d, e0) && q >= -1074
    requires q == e0 - 53 || (q == -1074 && e0 < -1021)
    ensures n * Pow(2, 1074) < 0x20_0000_0000_0000 * (d * Pow(2, q + 1074))
    ensures q > -1074 ==> 0x10_0000_0000_0000 * (d * Pow(2, q + 1074)) <= n * Pow(2, 1074)
  {
    hide Pow, Up;
    UnitRatio(n, d, q);
    var num, den := n * Pow(2, 1074), d * Pow(2, q + 1074);
    RatioAtLeast(num, den, n, d, -q, 53);
    RatioAtLeast(num, den, n, d, -q, 52);
    if q != e0 - 53 && AtLeast(n, d, 53 + q) { AtLeastMono(n, d, 53 + q, e0); }
    PowFiftyThree();
    AtLeastPow(num, den, 53);
    AtLeastPow(num, den, 52);
  }

  lemma AtLeastPow(n: nat, d: nat, j: nat)
    ensures AtLeast(n, d, j) <==> d * Pow(2, j) <= n
  {
    hide Pow;
    PowZero();
    assert n * 1 == n;
  }

  // ----- the rounded number in units -----

  /** Rounded to r grid steps of 2^j units. */
  lemma RoundedUnits(n: nat, d: nat, mode: Mode, m: nat, e: int, e0: int) returns (r: nat, j: nat)
    requires d > 0 && InBinade(n, d, e0) && Round53(n, d, e0, mode) == (m, e)
    ensures j == (if e0 < -1021 then 0 else e0 + 1021) && d * Pow(2, j) > 0
    ensures r == Rounded(n * Pow(2, 1074), d * Pow(2, j), mode) <= 0x20_0000_0000_0000
    ensures WholeUnits(m, e) && Units(m, e) == Shifted(r, j)
  {
    hide Pow, Up, Rounded, Units, WholeUnits;
    var q := if e0 < -1021 then -1074 else e0 - 53;
    j := q + 1074;
    UnitRatio(n, d, q);
    RatioRounds(n * Up(-q), d * Up(q), n * Pow(2, 1074), d * Pow(2, j), mode);
    GridBounds(n, d, e0, q);
    PrecStep(e0, q);
    r := Rounded(n * Pow(2, 1074), d * Pow(2, j), mode);
    RoundedBelow(n * Pow(2, 1074), d * Pow(2, j), 0x20_0000_0000_0000, mode);
    if e0 >= -1021 { NormalUnits(r, m, e, e0); } else { TinyUnits(r, m, e, e0); }
  }

  lemma PrecStep(e0: int, q: int)
    requires q == if e0 < -1021 then -1074 else e0 - 53
    ensures e0 - Prec(e0) == q && 53 - Prec(e0) == (if e0 < -1021 then -1021 - e0 else 0)
  {
  }

  lemma NormalUnits(r: nat, m: nat, e: int, e0: int)
    requires e0 >= -1021 && r <= 0x20_0000_0000_0000
    requires (m, e) == if r * Up(0) >= TWO53 then (r * Up(0) / 2, e0 + 1) else (r * Up(0), e0)
    ensures WholeUnits(m, e) && Units(m, e) == Shifted(r, e0 + 1021)
  {
    hide Pow;
    UpZero();
    assert r * 1 == r;
    PowDouble(e0 + 1021);
    if r == TWO53 {
      assert m == TWO53 / 2;
      TwiceHalf(TWO53 / 2, Pow(2, e0 + 1021));
    }
  }

  lemma TwiceHalf(a: nat, p: nat)
    ensures a * (2 * p) == 2 * a * p
  {
  }

  lemma TinyUnits(r: nat, m: nat, e: int, e0: int)
    requires e0 < -1021 && r <= 0x20_0000_0000_0000
    requires (m, e) == if r * Up(-1021 - e0) >= TWO53 then (r * Up(-1021 - e0) / 2, e0 + 1) else (r * Up(-1021 - e0), e0)
    ensures WholeUnits(m, e) && Units(m, e) == Shifted(r, 0)
  {
    hide Pow;
    var k: nat := -1021 - e0;
    PowZero();
    assert Shifted(r, 0) == r * 1 == r;
    PowPositive(2, k);
    if e == e0 {
      BackFromShift(r, Pow(2, k));
    } else {
      PowPositive(2, k - 1);
      PowDouble(k - 1);
      TwiceHalf(r, Pow(2, k - 1));
      HalfOf(r, Pow(2, k - 1));
      assert m == r * Pow(2, k - 1);
      if k > 1 { BackFromShift(r, Pow(2, k - 1)); } else { assert Pow(2, e + 1021) == 1; }
    }
  }

  lemma BackFromShift(r: nat, p: nat)
    requires p > 0
    ensures r * p / p == r && r * p % p == 0
  {
    RemainderIs(r * p, p, r, 0);
  }

  lemma HalfOf(r: nat, p: nat)
    ensures r * (2 * p) / 2 == r * p
  {
    TwiceHalf(r, p);
    assert 2 * r * p == 2 * (r * p);
  }

  // ----- no double is closer -----

  lemma ResultIsDouble(r: nat, j: nat)
    requires r <= 0x20_0000_0000_0000
    ensures IsDouble(Shifted(r, j))
  {
    hide Shifted;
    if r == 0x20_0000_0000_0000 {
      HalvedShift(j);
      assert Shifted(r, j) == Shifted(0x10_0000_0000_0000, j + 1);
    }
  }

  lemma HalvedShift(j: nat)
    ensures Shifted(0x20_0000_0000_0000, j) == Shifted(0x10_0000_0000_0000, j + 1)
  {
    hide Pow;
    PowDouble(j);
    TwiceHalf(0x10_0000_0000_0000, Pow(2, j));
  }

  /** A double on the grid of 2^j units, or below the binade. */
  lemma OnGridOrBelow(k: nat, i: nat, j: nat) returns (x: nat)
    requires k < 0x20_0000_0000_0000
    ensures i >= j ==> Shifted(k, i) == Shifted(x, j)
    ensures i < j ==> Shifted(k, i) <= Shifted(0x10_0000_0000_0000, j)
  {
    hide Pow;
    x := 0;
    if i >= j {
      x := k * Pow(2, i - j);
      PowAdd(2, i - j, j);
      MulAssoc(k, Pow(2, i - j), Pow(2, j));
    } else {
      PowDouble(j - 1);
      PowMono(2, i, j - 1);
      TwiceHalf(0x10_0000_0000_0000, Pow(2, j - 1));
      MulMono(k, 0x20_0000_0000_0000, Pow(2, i), Pow(2, j - 1));
    }
  }

  lemma Steps(x: nat, d: nat, j: nat)
    ensures x * (d * Pow(2, j)) == Shifted(x, j) * d
  {
    hide Pow;
    MulAssoc(x, Pow(2, j), d);
    assert d * Pow(2, j) == Pow(2, j) * d;
  }

  lemma DistanceSteps(x: nat, num: nat, d: nat, j: nat)
    ensures Distance(x, num, d * Pow(2, j)) == Distance(Shifted(x, j), num, d)
  {
    hide Pow, Shifted;
    Steps(x, d, j);
  }

  /** Nothing below the binade is closer than its lower end. */
  lemma BelowIsFarther(v: nat, w: nat, num: nat, d: nat)
    requires v <= w && w * d <= num
    ensures Distance(w, num, d) <= Distance(v, num, d)
  {
    MulMono(v, w, d, d);
  }

  lemma NearestUnits(num: nat, d: nat, mode: Mode, r: nat, j: nat, v: nat)
    requires d * Pow(2, j) > 0 && r == Rounded(num, d * Pow(2, j), mode) && mode != TowardZero && IsDouble(v)
    requires j > 0 ==> 0x10_0000_0000_0000 * (d * Pow(2, j)) <= num
    ensures Distance(Shifted(r, j), num, d) <= Distance(v, num, d)
  {
    hide Pow, Rounded, Shifted, Distance;
    var k: nat, i: nat :| k < 0x20_0000_0000_0000 && v == Shifted(k, i);
    var x := OnGridOrBelow(k, i, j);
    DistanceSteps(r, num, d, j);
    if i >= j {
      NoneCloser(num, d * Pow(2, j), mode, x);
      DistanceSteps(x, num, d, j);
    } else {
      var low := 0x10_0000_0000_0000;
      NoneCloser(num, d * Pow(2, j), mode, low);
      DistanceSteps(low, num, d, j);
      Steps(low, d, j);
      BelowIsFarther(v, Shifted(low, j), num, d);
    }
  }

  lemma TruncatedUnits(num: nat, d: nat, r: nat, j: nat, v: nat)
    requires d * Pow(2, j) > 0 && r == Rounded(num, d * Pow(2, j), TowardZero) && IsDouble(v)
    requires j > 0 ==> 0x10_0000_0000_0000 * (d * Pow(2, j)) <= num
    ensures Shifted(r, j) * d <= num && (v * d <= num ==> v <= Shifted(r, j))
  {
    hide Pow, Rounded, Shifted;
    var k: nat, i: nat :| k < 0x20_0000_0000_0000 && v == Shifted(k, i);
    var x := OnGridOrBelow(k, i, j);
    Steps(r, d, j);
    if i >= j {
      NoneBetween(num, d * Pow(2, j), x);
      Steps(x, d, j);
      ShiftedMono(x, r, j);
    } else {
      NoneBetween(num, d * Pow(2, j), 0x10_0000_0000_0000);
      ShiftedMono(0x10_0000_0000_0000, r, j);
    }
  }

  lemma ShiftedMono(a: nat, b: nat, j: nat)
    ensures a <= b ==> Shifted(a, j) <= Shifted(b, j)
  {
    hide Pow;
    MulMono(a, b, Pow(2, j), Pow(2, j));
  }

  /** Rounding to a double: the result is a double; to nearest, no double is closer; towards zero, it is the greatest
    * double not above. The number n / d is n * 2^1074 / d units. */
  lemma RoundsToDouble(n: nat, d: nat, mode: Mode, m: nat, e: int, v: nat)
    requires RoundsTo(n, d, mode, m, e) && IsDouble(v)
    ensures WholeUnits(m, e) && IsDouble(Units(m, e))
    ensures mode != TowardZero ==> Distance(Units(m, e), n * Pow(2, 1074), d) <= Distance(v, n * Pow(2, 1074), d)
    ensures mode == TowardZero ==> Units(m, e) * d <= n * Pow(2, 1074) && (v * d <= n * Pow(2, 1074) ==> v <= Units(m, e))
  {
    hide Pow, Rounded, Round53, InBinade, Units, WholeUnits, IsDouble, Shifted, Distance;
    var e0 :| InBinade(n, d, e0) && Round53(n, d, e0, mode) == (m, e);
    var r, j := RoundedUnits(n, d, mode, m, e, e0);
    GridBounds(n, d, e0, if e0 < -1021 then -1074 else e0 - 53);
    ResultIsDouble(r, j);
    if mode == TowardZero {
      TruncatedUnits(n * Pow(2, 1074), d, r, j, v);
    } else {
      NearestUnits(n * Pow(2, 1074), d, mode, r, j, v);
    }
  }

  /** Every double is exact: it rounds to itself in every mode. */
  lemma DoubleIsExact(n: nat, d: nat, mode: Mode, m: nat, e: int, v: nat)
    requires RoundsTo(n, d, mode, m, e) && IsDouble(v) && n * Pow(2, 1074) == v * d
    ensures Units(m, e) == v
  {
    hide Pow, Units, IsDouble, Distance, InBinade, Round53;
    RoundsToDouble(n, d, mode, m, e, v);
    SameByDistance(Units(m, e), v, d);
  }

  lemma SameByDistance(a: nat, b: nat, d: nat)
    requires d > 0 && (Distance(a, b * d, d) <= Distance(b, b * d, d) || (a * d <= b * d && b <= a))
    ensures a == b
  {
    MulMono(a + 1, b, d, d);
    MulMono(b + 1, a, d, d);
    assert (a + 1) * d == a * d + d && (b + 1) * d == b * d + d;
  }

  /** The finite doubles in the form the program keeps them: normal ones, and multiples of the unit below. */
  lemma FiniteDoubles(m: nat, e: int)
    requires 0x10_0000_0000_0000 <= m < 0x20_0000_0000_0000 && -1021 <= e <= 1024
    ensures IsDouble(Units(m, e)) && Units(m, e) == m * Pow(2, e + 1021)
  {
    assert Units(m, e) == Shifted(m, e + 1021);
  }

  lemma SubnormalDoubles(v: nat)
    requires v < 0x20_0000_0000_0000
    ensures IsDouble(v)
  {
    PowZero();
    assert v == Shifted(v, 0);
  }

  /** A normal double rounds to its own mantissa and exponent, in every mode. */
  lemma NormalRoundsToItself(m: nat, e: int, mode: Mode)
    requires 0x10_0000_0000_0000 <= m < 0x20_0000_0000_0000 && -1021 <= e <= 1024
    ensures RoundsTo(m * Up(e - 53), Up(53 - e), mode, m, e)
  {
    hide Pow, Up, Rounded;
    var n, d, k := m * Up(e - 53), Up(53 - e), e - 53;
    UpZero();
    assert Ratio(n, d, m, 1, k) by { SelfRatio(m, Up(k), Up(-k)); }
    RatioAtLeast(n, d, m, 1, k, e - 1);
    RatioAtLeast(n, d, m, 1, k, e);
    PowFiftyThree();
    AtLeastPow(m, 1, 52);
    AtLeastPow(m, 1, 53);
    assert InBinade(n, d, e);
    RatioShift(n, d, m, 1, k, -k);
    TimesPositive(d, Up(k));
    RatioRounds(n * Up(-k), d * Up(k), m, 1, mode);
    RoundedExact(m, mode);
    PrecStep(e, e - 53);
    assert m * 1 == m;
    assert Round53(n, d, e, mode) == (m, e);
  }

  lemma SelfRatio(m: nat, u: nat, w: nat)
    ensures m * u * 1 * w == m * w * u
  {
  }
}
