/** From the 64 bits of a double to its digits: the free-format branch of js_dtoa with everything it computes first. */
module DoubleDigits {
  import opened Limbs
  import opened Rounding
  import opened BigNumber
  import opened PowerScaling
  import opened RoundDouble
  import opened DoubleRounding
  import opened FreeFormat
  import opened RadixLog

  // The fields of the word, without the sign.
  function ExponentBits(a: nat): nat { a / 0x10_0000_0000_0000 % 0x800 }

  function FractionBits(a: nat): nat { a % 0x10_0000_0000_0000 }

  predicate FiniteNonZero(a: nat) {
    ExponentBits(a) != 0x7ff && (ExponentBits(a) != 0 || FractionBits(a) != 0)
  }

  /** The number a word stands for, in units of 2^-1074. */
  function UnitsOf(a: nat): nat {
    if ExponentBits(a) == 0 then FractionBits(a) else (0x10_0000_0000_0000 + FractionBits(a)) * Pow(2, ExponentBits(a) - 1)
  }

  /** The layout of a word: sign, eleven bits of exponent, fifty-two of fraction. */
  lemma WordFields(sign: nat, exponent: nat, fraction: nat)
    requires sign < 2 && exponent < 0x800 && fraction < 0x10_0000_0000_0000
    ensures var a := sign * 0x8000_0000_0000_0000 + exponent * 0x10_0000_0000_0000 + fraction;
      ExponentBits(a) == exponent && FractionBits(a) == fraction
  {
    var a := sign * 0x8000_0000_0000_0000 + exponent * 0x10_0000_0000_0000 + fraction;
    assert a / 0x10_0000_0000_0000 == sign * 0x800 + exponent;
  }

  /** clz64(m) - 11: how far to shift until bit 52 is the top one. */
  function TopShift(m: nat): (l: nat)
    requires 0 < m < 0x20_0000_0000_0000
    ensures 0x10_0000_0000_0000 <= m * Pow(2, l) < 0x20_0000_0000_0000
    decreases 0x20_0000_0000_0000 - m
  {
    if m >= 0x10_0000_0000_0000 then
      PowZero();
      0
    else
      Doubling(m, TopShift(2 * m));
      1 + TopShift(2 * m)
  }

  lemma Doubling(m: nat, l: nat)
    ensures m * Pow(2, 1 + l) == 2 * m * Pow(2, l)
  {
    hide Pow;
    PowDouble(l);
    TwiceHalf(m, Pow(2, l));
  }

  /** Mantissa and exponent of the word: m * 2^(e-53). */
  function Unpack(a: nat): (nat, int)
    requires FiniteNonZero(a)
  {
    if ExponentBits(a) == 0 then
      var l := TopShift(FractionBits(a));
      (FractionBits(a) * Pow(2, l), 0 - (l - 1) - 1022)
    else (0x10_0000_0000_0000 + FractionBits(a), ExponentBits(a) - 1022)
  }

  /** It is the number of the word, in the form the search expects. */
  lemma UnpackIs(a: nat)
    requires FiniteNonZero(a)
    ensures var (m, e) := Unpack(a); FiniteDouble(m, e) && Units(m, e) == UnitsOf(a)
  {
    hide Pow;
    var (m, e) := Unpack(a);
    if ExponentBits(a) == 0 {
      var f := FractionBits(a);
      var l := TopShift(f);
      PowPositive(2, l);
      ShiftBelow(f, l);
      BackFromShift(f, Pow(2, l));
      if l == 0 { PowZero(); }
    }
  }

  lemma ShiftBelow(f: nat, l: nat)
    requires 0 < f < 0x10_0000_0000_0000 && 0x10_0000_0000_0000 <= f * Pow(2, l) < 0x20_0000_0000_0000
    ensures 0 < l <= 52
  {
    hide Pow;
    PowZero();
    PowFiftyThree();
    if l > 52 {
      PowMono(2, 53, l);
      MulMono(1, f, Pow(2, 53), Pow(2, l));
    }
  }

  /** ctz32(radix) */
  function TrailingZeros(radix: nat): (s: nat)
    requires radix > 0
  {
    if radix % 2 == 1 then 0 else 1 + TrailingZeros(radix / 2)
  }

  function OddPart(radix: nat): (r: nat)
    requires radix > 0
  {
    PowPositive(2, TrailingZeros(radix));
    radix / Pow(2, TrailingZeros(radix))
  }

  lemma {:induction false} OddTimesShift(radix: nat)
    requires radix > 0
    ensures OddPart(radix) % 2 == 1 && OddPart(radix) * Pow(2, TrailingZeros(radix)) == radix
  {
    hide Pow;
    PowZero();
    if radix % 2 == 0 {
      var s, r := TrailingZeros(radix / 2), OddPart(radix / 2);
      OddTimesShift(radix / 2);
      PowPositive(2, s);
      PowDouble(s);
      TwiceHalf(r, Pow(2, s));
      MulAssoc(2, r, Pow(2, s));
      BackFromShift(r, Pow(2, s + 1));
    }
  }

  lemma RadixParts(radix: nat)
    requires 2 <= radix <= 36
    ensures OddRadix(OddPart(radix)) && Radix(OddPart(radix), TrailingZeros(radix)) == radix
  {
    hide Pow;
    var r, s := OddPart(radix), TrailingZeros(radix);
    OddTimesShift(radix);
    PowPositive(2, s);
    MulMono(r, r, 1, Pow(2, s));
  }

  /** Digits that stand for the double: no other double is closer to mant * radix^(exp - p). */
  ghost predicate Denotes(radix: nat, mant: nat, p: nat, exp: int, units: nat)
    requires radix >= 1
  {
    forall v: nat :: IsDouble(v) ==>
      Distance(units, mant * RadixUp(radix, exp - p) * Pow(2, 1074), RadixUp(radix, p - exp))
        <= Distance(v, mant * RadixUp(radix, exp - p) * Pow(2, 1074), RadixUp(radix, p - exp))
  }

  lemma ReadBackDenotes(m: nat, e: int, radix: nat, mant: nat, p: nat, exp: int)
    requires radix >= 1 && ReadBack(m, e, radix, mant, p, exp)
    ensures Denotes(radix, mant, p, exp, Units(m, e))
  {
    hide Pow, RoundsTo, Units, IsDouble, Distance, RadixUp;
    var n, d := mant * RadixUp(radix, exp - p), RadixUp(radix, p - exp);
    forall v: nat | IsDouble(v) ensures Distance(Units(m, e), n * Pow(2, 1074), d) <= Distance(v, n * Pow(2, 1074), d) {
      RoundsToDouble(n, d, NearestEven, m, e, v);
    }
  }

  /** The digits of a double in free format, for every finite double and every radix. */
  method FreeFormatDigits(tmp: Mpb, a: nat, radix: nat) returns (mant: nat, p: nat, exp: int)
    requires a < 0x1_0000_0000_0000_0000 && FiniteNonZero(a) && 2 <= radix <= 36
    requires tmp.tab.Length >= 52
    modifies tmp`len, tmp.tab
    ensures 1 <= p <= MaxP(radix) && 0 < mant < Pow(radix, p) && mant % radix != 0
    ensures Denotes(radix, mant, p, exp, UnitsOf(a))
    ensures var (m, e) := Unpack(a); var exp0 := 1 + MulLog2Radix(e - 1, radix);
      && RoundsTo(mant * RadixUp(radix, exp - p), RadixUp(radix, p - exp), NearestEven, m, e)
      && (mant, exp) == Candidate(m, e, radix, exp0, p) && Searched(m, e, radix, exp0, p)
  {
    hide *;
    RadixParts(radix);
    UnpackIs(a);
    var radixShift := TrailingZeros(radix);
    var radix1 := OddPart(radix);
    var (m, e) := Unpack(a);
    NormalFacts(m, e);
    MulLog2RadixIs(e - 1, radix);
    ghost var exp0 := 1 + MulLog2Radix(e - 1, radix);
    mant, p, exp := FreeDigits(tmp, m, e, radix1, radixShift, 1 + MulLog2Radix(e - 1, radix));
    ReadBackParts(m, e, radix, mant, p, exp);
    ReadBackDenotes(m, e, radix, mant, p, exp);
  }

  lemma ReadBackParts(m: nat, e: int, r: nat, mant: nat, p: nat, exp: int)
    requires r >= 1 && ReadBack(m, e, r, mant, p, exp)
    ensures 0 < mant < Pow(r, p) && p >= 1 && mant % r != 0
    ensures RoundsTo(mant * RadixUp(r, exp - p), RadixUp(r, p - exp), NearestEven, m, e)
  {
    hide Pow, RoundsTo, RadixUp;
  }
}
