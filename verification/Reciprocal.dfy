/** Division of two limbs by one through a precomputed reciprocal, and of a limb array by it. All
  * arithmetic wraps as the 32-bit and 64-bit operations do. */
module Reciprocal {
  import opened Limbs

  const HALF: nat := 0x8000_0000
  const BB: nat := B * B

  /** udiv1norm_init, for d >= HALF. */
  function Udiv1normInit(d: limb): (v: limb)
    requires d >= HALF
  {
    InitFits(d);
    ((B - 1 - d) * B + (B - 1)) / d
  }

  lemma InitFits(d: limb)
    requires d >= HALF
    ensures 0 <= ((B - 1 - d) * B + (B - 1)) / d < B
  {
    QuotientBelow((B - 1 - d) * B + (B - 1), d, B);
  }

  /** The reciprocal is floor((B^2 - 1) / d) - B. */
  lemma InitIs(d: limb, v: limb)
    requires d >= HALF && v == Udiv1normInit(d)
    ensures var k := BB - (B + v) * d; 1 <= k <= d
  {
    var t := (B - 1 - d) * B + (B - 1);
    assert t == v * d + t % d;
    assert (B + v) * d == B * d + v * d;
  }

  /** Bitwise and with a mask of zeros or ones. */
  function Masked(mask: limb, d: limb): limb
    requires mask == 0 || mask == B - 1
  {
    if mask == 0 then 0 else d
  }

  /** t / B is the quotient of n by d, or one less, when d t is close enough to B n. */
  lemma CloseFromGap(n: nat, d: nat, t: nat)
    requires 0 <= B * n - d * t < d * B + d
    ensures 0 <= n - (t / B) * d < 2 * d
  {
    var q, rest := t / B, t % B;
    SplitTimes(q, B, rest, d);
    MulMono(rest, B - 1, d, d);
    assert (B - 1) * d == B * d - d;
    assert t * d == d * t && q * (d * B) == q * d * B by { MulAssoc(q, d, B); }
    Divide(n - q * d, B * n - d * t + rest * d, d);
  }

  lemma Divide(x: int, y: int, d: nat)
    requires B * x == y && 0 <= y < 2 * d * B
    ensures 0 <= x < 2 * d
  {
  }

  lemma GapZeroBound(a1: nat, a0: nat, d: nat, k: nat)
    requires HALF <= d < B && a1 < d && a0 < HALF && k <= d
    ensures 0 <= a0 * (B - d) + k * a1 < d * B + d
  {
    TwoProducts(a0, B - d, k, a1, d);
    SquareParts(d);
  }

  lemma TwoProducts(x: nat, e: nat, k: nat, y: nat, d: nat)
    requires x <= d && k <= d && y <= d && d > 0
    ensures 0 <= x * e + k * y <= d * e + d * d
  {
    MulMono(x, d, e, e);
    MulMono(k, d, y, d);
  }

  lemma GapZeroIs(a1: nat, a0: nat, d: nat, k: nat, t: nat)
    requires d * t == (BB - k) * a1 + d * a0 && k <= d < B
    ensures B * (a1 * B + a0) - d * t == a0 * (B - d) + k * a1
  {
    assert (BB - k) * a1 == BB * a1 - k * a1;
    assert a0 * (B - d) == B * a0 - d * a0;
  }

  lemma SquareParts(d: nat)
    requires d < B
    ensures d * (B - d) + d * d == d * B
  {
  }

  lemma GapOneIs(a1: nat, a0: nat, d: nat, k: nat, t: nat)
    requires d * t == (BB - k) * (a1 + 1) + d * (a0 + d) - 2 * B * d && k <= d < B
    ensures B * (a1 * B + a0) - d * t == (a0 - (B - d)) * (B - d) + k * (a1 + 1)
  {
    assert (BB - k) * (a1 + 1) == BB * a1 + BB - k * (a1 + 1);
    var c := B - d;
    assert c * c == BB - 2 * B * d + d * d;
    assert (a0 - c) * c == c * a0 - c * c;
  }

  lemma GapOneBound(a1: nat, a0: nat, d: nat, k: nat)
    requires HALF <= d < B && a1 < d && HALF <= a0 < B && k <= d
    ensures 0 <= (a0 - (B - d)) * (B - d) + k * (a1 + 1) < d * B + d
  {
    TwoProducts(a0 - (B - d), B - d, k, a1 + 1, d);
    SquareParts(d);
  }

  /** udiv1norm: quotient and remainder of a1 * B + a0 by d, with no division. */
  method Udiv1norm(a1: limb, a0: limb, d: limb, dInv: limb) returns (q: limb, r: limb)
    requires d >= HALF && a1 < d && dInv == Udiv1normInit(d)
    ensures a1 * B + a0 == q * d + r && r < d
  {
    hide Udiv1normInit, WrapBB;
    var n1m: limb := if a0 >= HALF then B - 1 else 0;
    var nAdj: limb := (a0 + Masked(n1m, d)) % B;
    var factor: limb := (a1 - n1m) % B;
    MaskedFacts(a1, a0, d, n1m, factor, nAdj);
    var a := WrapBB(dInv * factor + nAdj);
    var q0: limb := (a / B + a1) % B;
    EstimateIs(a1, a0, d, dInv, factor, nAdj, a, q0);
    var n := a1 * B + a0;
    var rest := WrapBB(n - q0 * d - d);
    ShiftFits(rest);
    var ah: limb := rest / B;
    Correct(n, q0, d, a1, a0, rest, ah);
    q := (q0 + 1 + ah) % B;
    r := (rest % B + Masked(ah, d)) % B;
  }

  /** The high word of what is left tells whether the estimate was one too low. */
  lemma Correct(n: nat, q0: limb, d: limb, a1: limb, a0: limb, rest: nat, ah: limb)
    requires d >= HALF && n == a1 * B + a0 && a1 < d && 0 <= n - q0 * d < 2 * d
    requires rest == WrapBB(n - q0 * d - d) && ah == rest / B
    ensures ah == 0 || ah == B - 1
    ensures var q, r := (q0 + 1 + ah) % B, (rest % B + Masked(ah, d)) % B;
      n == q * d + r && r < d
  {
    LastStep(n - q0 * d, d, rest);
    QuotientRange(n, q0, d, a1, a0);
  }

  function WrapBB(x: int): (r: nat)
    ensures r < BB
  {
    x % BB
  }

  lemma ShiftFits(x: nat)
    requires x < BB
    ensures 0 <= x / B < B
  {
  }

  lemma MaskedFacts(a1: limb, a0: limb, d: limb, n1m: limb, factor: limb, nAdj: limb)
    requires d >= HALF && a1 < d && n1m == (if a0 >= HALF then B - 1 else 0)
    requires factor == (a1 - n1m) % B && nAdj == (a0 + Masked(n1m, d)) % B
    ensures a0 < HALF ==> factor == a1 && nAdj == a0
    ensures a0 >= HALF ==> factor == a1 + 1 && nAdj == a0 + d - B
  {
  }

  /** The estimated quotient is the true one or one less. */
  lemma EstimateIs(a1: limb, a0: limb, d: limb, v: limb, factor: limb, nAdj: limb, a: nat, q0: limb)
    requires d >= HALF && a1 < d && v == Udiv1normInit(d)
    requires a0 < HALF ==> factor == a1 && nAdj == a0
    requires a0 >= HALF ==> factor == a1 + 1 && nAdj == a0 + d - B
    requires a == WrapBB(v * factor + nAdj) && q0 == (a / B + a1) % B
    ensures 0 <= (a1 * B + a0) - q0 * d < 2 * d
  {
    hide Udiv1normInit;
    InitIs(d, v);
    var k := BB - (B + v) * d;
    NoWrap(v, factor, nAdj);
    var t := a + a1 * B;
    if a0 < HALF {
      ScaledLow(a1, a0, d, v, k, t);
      GapZeroIs(a1, a0, d, k, t);
      GapZeroBound(a1, a0, d, k);
    } else {
      ScaledHigh(a1, a0, d, v, k, t);
      GapOneIs(a1, a0, d, k, t);
      GapOneBound(a1, a0, d, k);
    }
    CloseFromGap(a1 * B + a0, d, t);
    assert t / B == a / B + a1;
    EstimateBelow(a1, a0, d, t / B);
  }

  lemma NoWrap(v: limb, factor: limb, nAdj: limb)
    ensures WrapBB(v * factor + nAdj) == v * factor + nAdj
  {
    MulFits(v, factor, nAdj);
  }

  lemma ScaledLow(a1: limb, a0: limb, d: limb, v: limb, k: int, t: int)
    requires k == BB - (B + v) * d && t == v * a1 + a0 + a1 * B
    ensures d * t == (BB - k) * a1 + d * a0
  {
    assert t == (B + v) * a1 + a0;
    MulAssoc(d, B + v, a1);
  }

  lemma ScaledHigh(a1: limb, a0: limb, d: limb, v: limb, k: int, t: int)
    requires k == BB - (B + v) * d && t == v * (a1 + 1) + (a0 + d - B) + a1 * B
    ensures d * t == (BB - k) * (a1 + 1) + d * (a0 + d) - 2 * B * d
  {
    assert t == (B + v) * (a1 + 1) + (a0 + d) - 2 * B;
    MulAssoc(d, B + v, a1 + 1);
  }

  lemma EstimateBelow(a1: nat, a0: nat, d: nat, q: int)
    requires HALF <= d < B && a1 < d && a0 < B && 0 <= a1 * B + a0 - q * d && q >= 0
    ensures q < B && q % B == q
  {
    MulMono(B, q, d, d);
    MulMono(a1 + 1, d, B, B);
  }

  lemma LastStep(x: int, d: limb, a: nat)
    requires 0 <= x < 2 * d && a == (x - d) % BB
    ensures x >= d ==> a == x - d && a / B == 0 && a % B == x - d
    ensures x < d ==> a / B == B - 1 && (a % B + d) % B == x
  {
    if x < d {
      assert a == BB + (x - d);
      assert a == (B - 1) * B + (B + x - d);
    }
  }

  lemma QuotientRange(n: nat, q0: limb, d: limb, a1: limb, a0: limb)
    requires d >= HALF && n == a1 * B + a0 && a1 < d && 0 <= n - q0 * d < 2 * d
    ensures n - q0 * d >= d ==> q0 + 1 < B
    ensures (q0 + 1) * d == q0 * d + d
  {
    MulMono(B, q0 + 1, d, d);
    MulMono(a1 + 1, d, B, B);
  }

  // ----- a limb array divided by one limb -----

  /** The bits above the top limb after shifting `a` up. */
  function ShiftedOut(a: seq<limb>, shift: nat): nat {
    var v, p := Value(a) * Pow(2, shift), Pow(B, |a|);
    NonNegative(v, p);
    v / p
  }

  lemma NonNegative(v: int, p: nat)
    requires v >= 0 && p > 0
    ensures v / p >= 0
  {
  }

  lemma ShiftedOutIs(a: seq<limb>, shift: nat, low: seq<limb>, top: nat)
    requires |low| == |a| && Value(low) + top * Pow(B, |a|) == Value(a) * Pow(2, shift)
    ensures top == ShiftedOut(a, shift)
  {
    ValueBound(low);
    RemainderIs(Value(a) * Pow(2, shift), Pow(B, |a|), top, Value(low));
  }

  /** mp_div1norm: tabr = (taba + r0 * B^n) / d for the divisor d = b / 2^shift, through the
    * reciprocal of b. With a shift the limbs are shifted into tabr but read from taba, so the
    * quotient is the right one only when the two are the same array. */
  method MpDiv1norm(tabr: array<limb>, taba: array<limb>, n: nat, b: limb, r0: limb, bInv: limb, shift: nat) returns (r: limb)
    requires n <= tabr.Length && n <= taba.Length && shift < 32
    requires b >= HALF && bInv == Udiv1normInit(b) && b % Pow(2, shift) == 0 && r0 < b / Pow(2, shift)
    modifies tabr
    ensures shift == 0 || tabr == taba ==>
      r < b / Pow(2, shift) && old(High(taba[..n], r0)) == Value(tabr[..n]) * (b / Pow(2, shift)) + r
    ensures shift != 0 && tabr != taba ==>
      && Value(tabr[..n]) == High(taba[..n], r0 * Pow(2, shift) + ShiftedOut(taba[..n], shift)) / b
      && r == High(taba[..n], r0 * Pow(2, shift) + ShiftedOut(taba[..n], shift)) % b / Pow(2, shift)
    ensures tabr[n..] == old(tabr[n..])
  {
    hide Value, High, DownTo, Pow, Udiv1normInit, ShiftedOut;
    PowTwo(shift);
    var p := Pow(2, shift);
    ghost var start, was := taba[..n], tabr[..];
    r := r0;
    ghost var top: nat := 0;
    if shift != 0 {
      var t := MpShl(tabr, taba, n, shift, 0);
      ShiftedOutIs(start, shift, tabr[..n], t);
      StartRemainder(r0, b, p, t);
      r := r0 * p + t;
      top := t;
    } else {
      DivideByOne(b);
    }
    ghost var a, r1 := taba[..n], r;
    ghost var mid := tabr[..];
    var i := n;
    DownStart(a, tabr[..n], r1, b);
    while i > 0
      invariant 0 <= i <= n && r < b && DownTo(a, tabr[..n], i, r1, b, r)
      invariant forall j :: 0 <= j < i ==> taba[j] == a[j]
      invariant forall j :: n <= j < tabr.Length ==> tabr[j] == mid[j]
    {
      i := i - 1;
      ghost var cur, rr := tabr[..n], r;
      var q;
      q, r := Udiv1norm(r, taba[i], b, bInv);
      DownStep(a, cur, i, r1, b, rr, q, r);
      tabr[i] := q;
      assert tabr[..n] == cur[i := q];
    }
    DownEnd(a, tabr[..n], r1, b, r);
    if shift == 0 {
      DivideByOne(b);
    } else if tabr == taba {
      ShiftBack(start, a, r0, top, shift, b, Value(tabr[..n]), r);
    } else {
      assert taba[..n] == start;
      RemainderIs(High(a, r1), b, Value(tabr[..n]), r);
    }
    DivideFits(r, p);
    r := r / p;
    assert forall j :: n <= j < tabr.Length ==> tabr[j] == was[j] by {
      assert tabr[n..] == mid[n..] == was[n..];
    }
  }

  lemma DivideFits(r: limb, p: nat)
    requires p >= 1
    ensures 0 <= r / p < B
  {
    MulMono(1, p, r / p, r / p);
  }

  lemma DivideByOne(b: limb)
    ensures Pow(2, 0) == 1 && b / 1 == b && b % 1 == 0
  {
  }

  lemma StartRemainder(r0: limb, b: limb, p: nat, t: nat)
    requires p >= 1 && b % p == 0 && r0 < b / p && t < p
    ensures r0 * p + t < b && b == (b / p) * p
  {
    MulMono(r0 + 1, b / p, p, p);
    assert (r0 + 1) * p == r0 * p + p;
  }

  /** Dividing the shifted number by the shifted divisor gives the same quotient, and the remainder
    * shifted. */
  lemma ShiftBack(start: seq<limb>, a: seq<limb>, r0: limb, top: nat, shift: nat, b: limb, q: nat, r: limb)
    requires |a| == |start| && shift < 32
    requires Value(a) + top * Pow(B, |start|) == Value(start) * Pow(2, shift)
    requires b % Pow(2, shift) == 0 && High(a, r0 * Pow(2, shift) + top) == q * b + r && r < b
    ensures var d := b / Pow(2, shift);
      r / Pow(2, shift) < d && High(start, r0) == q * d + r / Pow(2, shift)
  {
    hide Value, High, Pow;
    var p, pb, d := Pow(2, shift), Pow(B, |start|), b / Pow(2, shift);
    HighIs(a, r0 * p + top);
    HighIs(start, r0);
    assert (r0 * p + top) * pb == r0 * p * pb + top * pb;
    var h := High(start, r0);
    assert h * p == Value(start) * p + r0 * pb * p;
    assert r0 * pb * p == r0 * p * pb;
    assert h * p == q * b + r;
    ScaleDown(h, p, q, d, r);
  }

  lemma ScaleDown(h: nat, p: nat, q: nat, d: nat, r: nat)
    requires p >= 1 && h * p == q * (d * p) + r && r < d * p
    ensures h == q * d + r / p && r / p < d
  {
    MulAssoc(q, d, p);
    var x := h - q * d;
    assert x * p == r;
    RemainderIs(r, p, x, 0) by { MulMono(0, 0, p, p); NotNegative(x, p, r); }
    QuotientBelow(r, p, d);
  }

  lemma NotNegative(x: int, p: nat, r: nat)
    requires x * p == r && p >= 1
    ensures x >= 0
  {
  }

  /** One limb shows the difference: 1 divided by 1 through the reciprocal of 2^31. In place the quotient is 1; into
    * another array it is 0. */
  method ShiftNeedsSameArray() returns (inPlace: limb, between: limb)
    ensures inPlace == 1 && between == 0
  {
    hide High, Pow, Value, ShiftedOut;
    var a := new limb[1](_ => 1);
    var c := new limb[1](_ => 1);
    var v: limb := Udiv1normInit(HALF);
    OneLimb(1);
    assert a[..1] == [1] && c[..1] == [1];
    var r := MpDiv1norm(c, a, 1, HALF, 0, v, 31);
    assert c[..1] == [c[0]];
    OneLimb(c[0]);
    r := MpDiv1norm(a, a, 1, HALF, 0, v, 31);
    assert a[..1] == [a[0]];
    OneLimb(a[0]);
    return a[0], c[0];
  }

  lemma OneLimb(x: limb)
    ensures Value([x]) == x && High([x], 0) == x && Pow(2, 31) == HALF
    ensures x == 1 ==> ShiftedOut([x], 31) == 0
  {
    PowTwo(31);
    assert [x][1..] == [];
    assert Pow(B, 1) == B * Pow(B, 0);
  }
}
