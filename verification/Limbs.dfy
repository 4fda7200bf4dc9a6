/** Multi-limb integers, least significant limb first, and the in-place loops over them. */
module Limbs {

  const B: nat := 0x1_0000_0000

  type limb = x: int | 0 <= x < 0x1_0000_0000

  function Pow(b: nat, k: nat): (r: nat)
    ensures b > 0 ==> r > 0
  {
    if k == 0 then 1 else b * Pow(b, k - 1)
  }

  lemma {:induction false} PowAdd(b: nat, j: nat, k: nat)
    ensures Pow(b, j + k) == Pow(b, j) * Pow(b, k)
    decreases j
  {
    if j > 0 {
      PowAdd(b, j - 1, k);
      MulAssoc(b, Pow(b, j - 1), Pow(b, k));
    }
  }

  lemma MulAssoc(a: int, b: int, c: int)
    ensures a * b * c == a * (b * c)
  {
  }

  /** Two to the power of a bit count within a limb. */
  lemma PowTwo(s: nat)
    requires s <= 32
    ensures Pow(2, s) * Pow(2, 32 - s) == B && 1 <= Pow(2, s) <= B
    ensures Pow(2, 31) == 0x8000_0000 && Pow(2, 32) == B
  {
    PowThirtyTwo();
    PowAdd(2, s, 32 - s);
    AtLeastOne(Pow(2, s), Pow(2, 32 - s));
  }

  lemma AtLeastOne(a: nat, b: nat)
    requires a >= 1 && b >= 1
    ensures a <= a * b
  {
  }

  lemma PowThirtyTwo()
    ensures Pow(2, 31) == 0x8000_0000 && Pow(2, 32) == B
  {
    assert Pow(2, 8) == 256;
    PowAdd(2, 8, 8);
    PowAdd(2, 16, 16);
    assert Pow(2, 32) == 2 * Pow(2, 31);
  }

  // ----- value -----

  function Value(s: seq<limb>): nat {
    if s == [] then 0 else s[0] + B * Value(s[1..])
  }

  /** The value of `s` with `high` above its top limb. */
  function High(s: seq<limb>, high: nat): nat {
    if s == [] then high else s[0] + B * High(s[1..], high)
  }

  lemma {:induction false} HighIs(s: seq<limb>, high: nat)
    ensures High(s, high) == Value(s) + high * Pow(B, |s|)
  {
    if s != [] {
      HighIs(s[1..], high);
      var v, p := Value(s[1..]), Pow(B, |s| - 1);
      assert B * (v + high * p) == B * v + high * (B * p) by { Distribute(B, v, high, p); }
    }
  }

  lemma Distribute(b: int, v: int, h: int, p: int)
    ensures b * (v + h * p) == b * v + h * (b * p)
  {
    MulAssoc(b, h, p);
    MulAssoc(h, b, p);
  }

  lemma {:induction false} ValueSnoc(s: seq<limb>, x: limb)
    ensures Value(s + [x]) == Value(s) + x * Pow(B, |s|)
  {
    if s == [] {
      assert ([x])[1..] == [];
      assert [] + [x] == [x];
    } else {
      assert (s + [x])[1..] == s[1..] + [x];
      ValueSnoc(s[1..], x);
      Distribute(B, Value(s[1..]), x, Pow(B, |s| - 1));
    }
  }

  lemma {:induction false} ValueBound(s: seq<limb>)
    ensures Value(s) < Pow(B, |s|)
  {
    if s != [] {
      ValueBound(s[1..]);
      LessTimes(s[0], Value(s[1..]), Pow(B, |s| - 1));
    }
  }

  lemma LessTimes(x: limb, v: nat, p: nat)
    requires v < p
    ensures x + B * v < B * p
  {
  }

  lemma ValueUpTo(s: seq<limb>, i: nat)
    requires i < |s|
    ensures Value(s[..i + 1]) == Value(s[..i]) + s[i] * Pow(B, i)
  {
    assert s[..i + 1] == s[..i] + [s[i]];
    ValueSnoc(s[..i], s[i]);
  }

  lemma ValueFrom(s: seq<limb>, i: nat, high: nat)
    requires i < |s|
    ensures Value(s[i..]) == s[i] + B * Value(s[i + 1..])
    ensures High(s[i..], high) == s[i] + B * High(s[i + 1..], high)
  {
    assert s[i..][1..] == s[i + 1..];
  }

  // ----- loops from the low limb up -----

  /** The first `i` limbs of `cur`, with `carry` above, are those of `a` times `mul` plus `add`. */
  predicate UpTo(a: seq<limb>, cur: seq<limb>, i: nat, mul: nat, carry: nat, add: nat) {
    i <= |a| && i <= |cur| && Value(cur[..i]) + carry * Pow(B, i) == Value(a[..i]) * mul + add
  }

  lemma UpStart(a: seq<limb>, cur: seq<limb>, mul: nat, add: nat)
    ensures UpTo(a, cur, 0, mul, add, add)
  {
  }

  lemma UpStep(a: seq<limb>, cur: seq<limb>, i: nat, mul: nat, carry: nat, add: nat, low: limb, high: nat)
    requires UpTo(a, cur, i, mul, carry, add) && i < |a| && i < |cur| && low + high * B == a[i] * mul + carry
    ensures UpTo(a, cur[i := low], i + 1, mul, high, add)
  {
    hide Value;
    var next := cur[i := low];
    assert next[..i] == cur[..i];
    ValueUpTo(a, i);
    ValueUpTo(next, i);
    UpArith(low, high, a[i], mul, carry, Pow(B, i), Value(cur[..i]), Value(a[..i]), add);
  }

  lemma UpArith(low: int, high: int, x: int, mul: int, carry: int, p: int, c: int, v: int, add: int)
    requires low + high * B == x * mul + carry && c + carry * p == v * mul + add
    ensures c + low * p + high * (B * p) == (v + x * p) * mul + add
  {
    assert (low + high * B) * p == low * p + high * B * p;
    assert (x * mul + carry) * p == x * mul * p + carry * p;
    MulAssoc(high, B, p);
    assert (v + x * p) * mul == v * mul + x * p * mul;
    assert x * p * mul == x * mul * p;
  }

  lemma UpEnd(a: seq<limb>, cur: seq<limb>, n: nat, mul: nat, carry: nat, add: nat)
    requires UpTo(a, cur, n, mul, carry, add)
    ensures n <= |a| && n <= |cur| && Value(cur[..n]) + carry * Pow(B, n) == Value(a[..n]) * mul + add
  {
  }

  /** tab += b, up to the first limb without a carry; the carry out is returned. */
  method MpAddUi(tab: array<limb>, b: limb, n: nat) returns (k: limb)
    requires n <= tab.Length
    modifies tab
    ensures Value(tab[..n]) + k * Pow(B, n) == old(Value(tab[..n])) + b
    ensures tab[n..] == old(tab[n..])
  {
    hide Value, Pow, UpTo;
    k := b;
    var i := 0;
    ghost var a := tab[..];
    UpStart(a, a, 1, b);
    while i < n && k != 0
      invariant 0 <= i <= n && UpTo(a, tab[..], i, 1, k, b)
      invariant forall j :: i <= j < tab.Length ==> tab[j] == a[j]
    {
      var sum := tab[i] + k;
      ghost var cur := tab[..];
      var low: limb := sum % B;
      UpStep(a, cur, i, 1, k, b, low, if sum >= B then 1 else 0);
      tab[i] := low;
      k := if low < k then 1 else 0;
      assert tab[..] == cur[i := low];
      i := i + 1;
    }
    ghost var now := tab[..];
    UpEnd(a, now, i, 1, k, b);
    AddTail(a, now, i, n, k, b);
    assert now[..n] == tab[..n] && a[..n] == old(tab[..n]);
  }

  /** Without a carry the limbs above are already right. */
  lemma {:induction false} AddTail(a: seq<limb>, now: seq<limb>, i: nat, n: nat, k: nat, b: nat)
    requires i <= n <= |a| == |now| && (i < n ==> k == 0) && forall j :: i <= j < |a| ==> now[j] == a[j]
    requires Value(now[..i]) + k * Pow(B, i) == Value(a[..i]) * 1 + b
    ensures Value(now[..n]) + k * Pow(B, n) == Value(a[..n]) + b
    decreases n
  {
    if i < n {
      AddTail(a, now, i, n - 1, k, b);
      ValueUpTo(a, n - 1);
      ValueUpTo(now, n - 1);
    }
  }

  /** tabr = taba * b + l; the high carry is returned. The arrays may be the same. */
  method MpMul1(tabr: array<limb>, taba: array<limb>, n: nat, b: limb, l: limb) returns (carry: limb)
    requires n <= tabr.Length && n <= taba.Length
    modifies tabr
    ensures Value(tabr[..n]) + carry * Pow(B, n) == old(Value(taba[..n])) * b + l
    ensures tabr[n..] == old(tabr[n..])
  {
    hide Value, Pow, UpTo;
    carry := l;
    var i := 0;
    ghost var a, r0 := taba[..], tabr[..];
    UpStart(a, r0, b, l);
    while i < n
      invariant 0 <= i <= n && UpTo(a, tabr[..], i, b, carry, l)
      invariant forall j :: i <= j < taba.Length ==> taba[j] == a[j]
      invariant forall j :: i <= j < tabr.Length ==> tabr[j] == r0[j]
    {
      ghost var cur := tabr[..];
      var t := taba[i] * b + carry;
      MulFits(taba[i], b, carry);
      var low: limb := t % B;
      UpStep(a, cur, i, b, carry, l, low, t / B);
      tabr[i] := low;
      carry := t / B;
      assert tabr[..] == cur[i := low];
      i := i + 1;
    }
    ghost var now := tabr[..];
    UpEnd(a, now, n, b, carry, l);
    assert now[..n] == tabr[..n] && a[..n] == old(taba[..n]);
  }

  lemma MulFits(x: limb, b: limb, c: limb)
    ensures 0 <= x * b + c < B * B
    ensures 0 <= (x * b + c) / B < B
  {
    MulMono(x, B - 1, b, B - 1);
    QuotientBelow(x * b + c, B, B);
  }

  lemma MulMono(x: nat, x': nat, y: nat, y': nat)
    ensures x <= x' && y <= y' ==> x * y <= x' * y'
  {
    if x <= x' && y <= y' {
      assert x' * y' - x * y == (x' - x) * y' + x * (y' - y);
    }
  }

  /** tabr = taba * 2^shift + low; the bits shifted out at the top are returned. */
  method MpShl(tabr: array<limb>, taba: array<limb>, n: nat, shift: nat, low: limb) returns (carry: limb)
    requires n <= tabr.Length && n <= taba.Length && 1 <= shift < 32 && low < Pow(2, shift)
    modifies tabr
    ensures carry < Pow(2, shift) && Value(tabr[..n]) + carry * Pow(B, n) == old(Value(taba[..n])) * Pow(2, shift) + low
    ensures tabr[n..] == old(tabr[n..])
  {
    hide Value, Pow, UpTo;
    PowTwo(shift);
    var p, q := Pow(2, shift), Pow(2, 32 - shift);
    carry := low;
    var i := 0;
    ghost var a, r0 := taba[..], tabr[..];
    UpStart(a, r0, p, low);
    while i < n
      invariant 0 <= i <= n && carry < p && UpTo(a, tabr[..], i, p, carry, low)
      invariant forall j :: i <= j < taba.Length ==> taba[j] == a[j]
      invariant forall j :: i <= j < tabr.Length ==> tabr[j] == r0[j]
    {
      ghost var cur := tabr[..];
      var x := taba[i];
      ShlFits(x, carry, p, q);
      var low1: limb := (x * p) % B + carry;
      UpStep(a, cur, i, p, carry, low, low1, x / q);
      tabr[i] := low1;
      carry := x / q;
      assert tabr[..] == cur[i := low1];
      i := i + 1;
    }
    ghost var now := tabr[..];
    UpEnd(a, now, n, p, carry, low);
    assert now[..n] == tabr[..n] && a[..n] == old(taba[..n]);
  }

  /** The two parts of a shifted limb do not overlap. */
  lemma ShlFits(x: limb, c: nat, p: nat, q: nat)
    requires p * q == B && p >= 1 && q >= 1 && c < p
    ensures 0 <= (x * p) % B + c < B && x / q < p
    ensures (x * p) % B + c + (x / q) * B == x * p + c
  {
    var d, m := x / q, x % q;
    SplitTimes(d, q, m, p);
    MulMono(m, q - 1, p, p);
    assert (q - 1) * p == q * p - p;
    QuotientBelow(x, q, p);
    RemainderIs(x * p, B, d, m * p);
  }

  lemma SplitTimes(d: nat, q: nat, m: nat, p: nat)
    ensures (d * q + m) * p == d * (p * q) + m * p && q * p == p * q
  {
    MulAssoc(d, q, p);
  }

  lemma QuotientBelow(t: nat, b: nat, c: nat)
    requires b > 0 && t < b * c
    ensures t / b < c
  {
    MulMono(b, b, c, t / b);
  }

  lemma RemainderIs(t: nat, b: nat, q: nat, r: nat)
    requires b > 0 && t == q * b + r && r < b
    ensures t % b == r && t / b == q
  {
    MulMono(q + 1, t / b, b, b);
    MulMono(t / b + 1, q, b, b);
    assert (q + 1) * b == q * b + b && (t / b + 1) * b == (t / b) * b + b;
  }

  // ----- loops from the high limb down -----

  /** The limbs of `a` from `i` on, below `high`, are those of `cur` times `d` plus `r`. */
  predicate DownTo(a: seq<limb>, cur: seq<limb>, i: nat, high: nat, d: nat, r: nat) {
    i <= |a| == |cur| && High(a[i..], high) == Value(cur[i..]) * d + r
  }

  lemma DownStart(a: seq<limb>, cur: seq<limb>, high: nat, d: nat)
    requires |a| == |cur|
    ensures DownTo(a, cur, |a|, high, d, high)
  {
  }

  lemma DownStep(a: seq<limb>, cur: seq<limb>, i: nat, high: nat, d: nat, r: nat, q: limb, r': nat)
    requires DownTo(a, cur, i + 1, high, d, r) && r * B + a[i] == q * d + r'
    ensures DownTo(a, cur[i := q], i, high, d, r')
  {
    hide Value, High;
    var next := cur[i := q];
    assert next[i + 1..] == cur[i + 1..];
    ValueFrom(a, i, high);
    ValueFrom(next, i, 0);
    DivStep(a[i], r, q, r', d, Value(cur[i + 1..]));
  }

  lemma DownEnd(a: seq<limb>, cur: seq<limb>, high: nat, d: nat, r: nat)
    requires DownTo(a, cur, 0, high, d, r)
    ensures High(a, high) == Value(cur) * d + r
  {
    assert a[0..] == a && cur[0..] == cur;
  }

  lemma DivStep(x: int, r: int, q: int, r': int, b: int, v: int)
    requires r * B + x == q * b + r'
    ensures x + B * (v * b + r) == (q + B * v) * b + r'
  {
    assert B * (v * b + r) == B * (v * b) + B * r;
    MulAssoc(B, v, b);
    assert (q + B * v) * b == q * b + B * v * b;
  }

  /** tabr = (taba + r * B^n) / b; the remainder is returned. The arrays may be the same. */
  method MpDiv1(tabr: array<limb>, taba: array<limb>, n: nat, b: limb, r0: limb) returns (r: limb)
    requires n <= tabr.Length && n <= taba.Length && r0 < b
    modifies tabr
    ensures r < b && old(High(taba[..n], r0)) == Value(tabr[..n]) * b + r
    ensures tabr[n..] == old(tabr[n..])
  {
    hide Value, High, DownTo;
    r := r0;
    var i := n;
    ghost var a, was := taba[..n], tabr[..];
    DownStart(a, tabr[..n], r0, b);
    while i > 0
      invariant 0 <= i <= n && r < b && DownTo(a, tabr[..n], i, r0, b, r)
      invariant forall j :: 0 <= j < i ==> taba[j] == a[j]
      invariant forall j :: n <= j < tabr.Length ==> tabr[j] == was[j]
    {
      i := i - 1;
      ghost var cur := tabr[..n];
      var t := r * B + taba[i];
      QuotientFits(r, taba[i], b);
      var q: limb := t / b;
      DownStep(a, cur, i, r0, b, r, q, t % b);
      tabr[i] := q;
      r := t % b;
      assert tabr[..n] == cur[i := q];
    }
    DownEnd(a, tabr[..n], r0, b, r);
  }

  lemma QuotientFits(r: nat, x: limb, b: nat)
    requires r < b
    ensures 0 <= (r * B + x) / b < B
    ensures (r * B + x) / b * b + (r * B + x) % b == r * B + x
  {
    MulMono(r + 1, b, B, B);
    QuotientBelow(r * B + x, b, B);
  }

  /** tabr = (taba + high * B^n) / 2^shift; the bits shifted out are returned. */
  method MpShr(tabr: array<limb>, taba: array<limb>, n: nat, shift: nat, high: limb) returns (r: limb)
    requires n <= tabr.Length && n <= taba.Length && 1 <= shift < 32
    modifies tabr
    ensures r < Pow(2, shift) && old(High(taba[..n], high % Pow(2, shift))) == Value(tabr[..n]) * Pow(2, shift) + r
    ensures tabr[n..] == old(tabr[n..])
  {
    hide Value, High, DownTo, Pow;
    PowTwo(shift);
    var p, q := Pow(2, shift), Pow(2, 32 - shift);
    var l: limb := high;
    var i := n;
    ghost var a, was := taba[..n], tabr[..];
    DownStart(a, tabr[..n], high % p, p);
    while i > 0
      invariant 0 <= i <= n && DownTo(a, tabr[..n], i, high % p, p, l % p)
      invariant forall j :: 0 <= j < i ==> taba[j] == a[j]
      invariant forall j :: n <= j < tabr.Length ==> tabr[j] == was[j]
    {
      i := i - 1;
      ghost var cur := tabr[..n];
      var x := taba[i];
      ShrFits(x, l, p, q);
      var y: limb := x / p + (l % p) * q;
      DownStep(a, cur, i, high % p, p, l % p, y, x % p);
      tabr[i] := y;
      l := x;
      assert tabr[..n] == cur[i := y];
    }
    DownEnd(a, tabr[..n], high % p, p, l % p);
    r := l % p;
  }

  /** The two parts of a shifted limb do not overlap. */
  lemma ShrFits(x: limb, l: limb, p: nat, q: nat)
    requires p * q == B && p >= 1 && q >= 1
    ensures 0 <= x / p + (l % p) * q < B
    ensures (l % p) * B + x == (x / p + (l % p) * q) * p + x % p
    ensures 0 <= x % p < B
  {
    QuotientBelow(x, p, q);
    MulMono(l % p, p - 1, q, q);
    assert (p - 1) * q == p * q - q;
    var d, m := x / p, l % p;
    assert (d + m * q) * p == d * p + m * q * p;
    assert m * q * p == m * (p * q);
    assert x % p <= x;
  }
}
