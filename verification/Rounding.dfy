/** Rounding of exact quotients, and why a sticky bit is as good as the whole remainder. */
module Rounding {
  import opened Limbs

  /** JS_RNDN: to nearest, ties to even; JS_RNDNA: to nearest, ties away; JS_RNDZ: towards zero. */
  datatype Mode = NearestEven | NearestAway | TowardZero

  /** num / den rounded to an integer. */
  function Rounded(num: nat, den: nat, mode: Mode): (r: nat)
    requires den > 0
    ensures num / den <= r <= num / den + 1
  {
    var q, twice := num / den, 2 * (num % den);
    if twice > den && mode != TowardZero then q + 1
    else if twice == den && (mode == NearestAway || (mode == NearestEven && q % 2 == 1)) then q + 1
    else q
  }

  /** Rounding to nearest: no integer is closer; of two as close, the even one is taken. */
  lemma RoundedIsNearest(num: nat, den: nat, other: nat)
    requires den > 0
    ensures var r := Rounded(num, den, NearestEven);
      && Distance(r, num, den) <= Distance(other, num, den)
      && (Distance(r, num, den) == Distance(other, num, den) && other != r ==> r % 2 == 0)
  {
    var q, rem := num / den, num % den;
    var r := Rounded(num, den, NearestEven);
    assert num == q * den + rem;
    Apart(other, q, rem, den);
    assert (q + 1) * den == q * den + den;
  }

  /** The same in both modes that round to nearest. */
  lemma NoneCloser(num: nat, den: nat, mode: Mode, other: nat)
    requires den > 0 && mode != TowardZero
    ensures Distance(Rounded(num, den, mode), num, den) <= Distance(other, num, den)
  {
    var q, rem := num / den, num % den;
    assert num == q * den + rem;
    Apart(other, q, rem, den);
    assert (q + 1) * den == q * den + den;
  }

  /** Rounding towards zero gives the greatest integer that is not above. */
  lemma NoneBetween(num: nat, den: nat, other: nat)
    requires den > 0
    ensures Rounded(num, den, TowardZero) * den <= num && (other * den <= num ==> other <= Rounded(num, den, TowardZero))
  {
    var q, rem := num / den, num % den;
    assert num == q * den + rem;
    MulMono(q + 1, other, den, den);
    assert (q + 1) * den == q * den + den;
  }

  function Distance(x: int, num: int, den: int): int {
    if x * den >= num then x * den - num else num - x * den
  }

  lemma Apart(other: nat, q: nat, rem: nat, den: nat)
    requires rem < den
    ensures other < q ==> Distance(other, q * den + rem, den) >= den + rem
    ensures other > q + 1 ==> Distance(other, q * den + rem, den) >= 2 * den - rem
  {
    MulMono(other + 1, q, den, den);
    MulMono(q + 2, other, den, den);
    assert (other + 1) * den == other * den + den && (q + 2) * den == q * den + 2 * den;
  }

  /** Only the ratio matters. */
  lemma RoundedScale(num: nat, den: nat, c: nat, mode: Mode)
    requires den > 0 && c > 0
    ensures c * den > 0 && Rounded(c * num, c * den, mode) == Rounded(num, den, mode)
  {
    hide Rounded;
    var q, r := num / den, num % den;
    DivMod(num, den);
    ScaleParts(q, den, r, c);
    RemainderIs(c * num, c * den, q, c * r);
    Order(2 * r, den, c);
    Order(den, 2 * r, c);
    RoundedAgree(c * num, c * den, num, den, mode);
  }

  lemma ScaleParts(q: nat, den: nat, r: nat, c: nat)
    requires r < den && c > 0
    ensures c * (q * den + r) == q * (c * den) + c * r && c * r < c * den && c * (2 * r) == 2 * (c * r)
  {
    MulMono(r + 1, den, c, c);
    assert c * (r + 1) == c * r + c;
    assert c * (q * den) == q * (c * den);
  }

  lemma Order(a: nat, b: nat, c: nat)
    requires c > 0
    ensures c * a < c * b <==> a < b
    ensures c * a == c * b <==> a == b
  {
    MulMono(a + 1, b, c, c);
    MulMono(b, a, c, c);
    assert c * (a + 1) == c * a + c;
  }

  lemma RoundedExact(num: nat, mode: Mode)
    ensures Rounded(num, 1, mode) == num
  {
  }

  /** The quotient with its lowest bit set when the division is not exact. */
  function Sticky(num: nat, den: nat): nat
    requires den > 0
  {
    var q := num / den;
    if num % den != 0 && q % 2 == 0 then q + 1 else q
  }

  /** Two bits below the rounding position are enough: rounding the sticky quotient at bit s rounds
    * the exact quotient. */
  lemma StickyRounds(num: nat, den: nat, s: nat, mode: Mode)
    requires den > 0 && s >= 2
    ensures den * Pow(2, s) > 0 && Rounded(Sticky(num, den), Pow(2, s), mode) == Rounded(num, den * Pow(2, s), mode)
  {
    assert Pow(2, s) == 2 * Pow(2, s - 1) && Pow(2, s - 1) == 2 * Pow(2, s - 2);
    StickyRoundsFour(num, den, Pow(2, s - 2), Pow(2, s), mode);
  }

  lemma StickyRoundsFour(num: nat, den: nat, h: nat, p: nat, mode: Mode)
    requires den > 0 && h > 0 && p == 4 * h
    ensures den * p > 0 && Rounded(Sticky(num, den), p, mode) == Rounded(num, den * p, mode)
  {
    hide *;
    var q, r := num / den, num % den;
    DivMod(num, den);
    DivMod(q, p);
    var top, low := q / p, q % p;
    NestedRemainder(num, den, p, q, r, top, low);
    var low' := if r != 0 && low % 2 == 0 then low + 1 else low;
    StickyIs(num, den, h, p, top, low, low');
    HalfWay(low, den, r, h);
    Half(den, p, h);
    RoundedAgree(Sticky(num, den), p, num, den * p, mode);
  }

  lemma DivMod(a: nat, b: nat)
    requires b > 0
    ensures a == (a / b) * b + a % b && 0 <= a % b < b && a / b >= 0
  {
  }

  lemma Half(den: nat, p: nat, h: nat)
    requires p == 4 * h
    ensures den * p == den * (4 * h)
  {
  }

  lemma StickyIs(num: nat, den: nat, h: nat, p: nat, top: nat, low: nat, low': nat)
    requires den > 0 && h > 0 && p == 4 * h && num / den == top * p + low && low < p
    requires low' == if num % den != 0 && low % 2 == 0 then low + 1 else low
    ensures Sticky(num, den) / p == top && Sticky(num, den) % p == low'
  {
    EvenParts(num / den, h, top, low);
    RemainderIs(Sticky(num, den), p, top, low');
  }

  /** Rounding looks only at the quotient and on which side of one half the remainder is. */
  lemma RoundedAgree(a: nat, p: nat, b: nat, q: nat, mode: Mode)
    requires p > 0 && q > 0 && a / p == b / q
    requires 2 * (a % p) > p <==> 2 * (b % q) > q
    requires 2 * (a % p) == p <==> 2 * (b % q) == q
    ensures Rounded(a, p, mode) == Rounded(b, q, mode)
  {
  }

  lemma NestedRemainder(num: nat, den: nat, p: nat, q: nat, r: nat, top: nat, low: nat)
    requires den > 0 && p > 0 && num == q * den + r && r < den && q == top * p + low && low < p
    ensures den * p > 0 && num / (den * p) == top && num % (den * p) == low * den + r
  {
    assert q * den == top * p * den + low * den;
    assert top * p * den == top * (den * p);
    MulMono(low + 1, p, den, den);
    assert (low + 1) * den == low * den + den;
    RemainderIs(num, den * p, top, low * den + r);
  }

  lemma EvenParts(q: nat, h: nat, top: nat, low: nat)
    requires h > 0 && q == top * (4 * h) + low && low < 4 * h
    ensures low % 2 == q % 2 && (low % 2 == 0 ==> low + 1 < 4 * h)
  {
    EvenTimes(top, h);
  }

  lemma EvenTimes(top: nat, h: nat)
    ensures top * (4 * h) == 2 * (top * (2 * h))
  {
  }

  /** Where the exact remainder lies relative to one half, and where the sticky one does. */
  lemma HalfWay(low: nat, den: nat, r: nat, h: nat)
    requires den > 0 && r < den && h > 0
    ensures var low' := if r != 0 && low % 2 == 0 then low + 1 else low;
      && (2 * low' > 4 * h <==> 2 * (low * den + r) > den * (4 * h))
      && (2 * low' == 4 * h <==> 2 * (low * den + r) == den * (4 * h))
  {
    Order(low, 2 * h, den);
    Order(2 * h, low, den);
    MulMono(low + 1, 2 * h, den, den);
    assert den * (low + 1) == den * low + den && den * (4 * h) == 2 * (den * (2 * h)) && low * den == den * low;
  }
}
