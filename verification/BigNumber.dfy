/** Big integers in a fixed buffer of limbs: shifting with rounding, bit tests, size. */
module BigNumber {
  import opened Limbs
  import opened Reciprocal
  import opened Rounding

  // ----- bits of a value, limb by limb -----

  lemma {:induction false} ValueSplit(s: seq<limb>, l: nat)
    requires l <= |s|
    ensures Value(s) == Value(s[..l]) + Pow(B, l) * Value(s[l..])
    decreases |s| - l
  {
    if l == |s| {
      assert s[..l] == s;
    } else {
      ValueSplit(s, l + 1);
      ValueUpTo(s, l);
      ValueFrom(s, l, 0);
      SplitArith(Value(s[..l]), s[l], Pow(B, l), Value(s[l + 1..]));
    }
  }

  lemma SplitArith(v: int, x: int, p: int, h: int)
    ensures v + x * p + B * p * h == v + p * (x + B * h)
  {
    MulAssoc(B, p, h);
    MulAssoc(p, B, h);
    assert p * (x + B * h) == p * x + p * (B * h);
  }

  /** Dropping `l` limbs divides by B^l. */
  lemma DropLimbs(s: seq<limb>, l: nat)
    requires l <= |s|
    ensures Value(s) / Pow(B, l) == Value(s[l..]) && Value(s) % Pow(B, l) == Value(s[..l])
  {
    hide Value, Pow;
    ValueSplit(s, l);
    ValueBound(s[..l]);
    RemainderIs(Value(s), Pow(B, l), Value(s[l..]), Value(s[..l]));
  }

  lemma PowLimbs(l: nat)
    ensures Pow(2, 32 * l) == Pow(B, l)
    decreases l
  {
    if l > 0 {
      PowLimbs(l - 1);
      PowAdd(2, 32, 32 * (l - 1));
      PowTwo(0);
    }
  }

  /** 2^shift as limbs and bits. */
  lemma PowShift(shift: nat)
    ensures Pow(2, shift) == Pow(B, shift / 32) * Pow(2, shift % 32)
  {
    hide Pow;
    PowLimbs(shift / 32);
    PowAdd(2, 32 * (shift / 32), shift % 32);
  }

  lemma NestedDivide(v: nat, a: nat, b: nat)
    requires a > 0 && b > 0
    ensures a * b > 0 && v / (a * b) == v / a / b && v % (a * b) == (v / a % b) * a + v % a
  {
    DivMod(v, a);
    DivMod(v / a, b);
    NestedRemainder(v, a, b, v / a, v % a, v / a / b, v / a % b);
  }

  function BitOf(v: nat, k: nat): nat {
    v / Pow(2, k) % 2
  }

  lemma TooFewLimbs(s: seq<limb>, l: nat)
    requires l >= |s|
    ensures Value(s) < Pow(B, l) && Value(s) / Pow(B, l) == 0 && Value(s) % Pow(B, l) == Value(s)
  {
    hide Value;
    ValueBound(s);
    PowAdd(B, |s|, l - |s|);
    AtLeastOne(Pow(B, |s|), Pow(B, l - |s|));
    RemainderIs(Value(s), Pow(B, l), 0, Value(s));
  }

  /** The low bits of a number are the low bits of its low limb. */
  lemma LowLimb(x: limb, h: nat, k: nat)
    requires k < 32
    ensures (x + B * h) / Pow(2, k) == x / Pow(2, k) + Pow(2, 32 - k) * h
    ensures (x + B * h) % Pow(2, k) == x % Pow(2, k)
  {
    hide Pow;
    PowTwo(k);
    LowLimbArith(x, h, Pow(2, k), Pow(2, 32 - k));
  }

  lemma LowLimbArith(x: nat, h: nat, p: nat, q: nat)
    requires p * q == B && p > 0
    ensures (x + B * h) / p == x / p + q * h && (x + B * h) % p == x % p
  {
    DivMod(x, p);
    var d, m := x / p, x % p;
    assert (d + q * h) * p == d * p + q * h * p;
    MulAssoc(p, q, h);
    RemainderIs(x + B * h, p, d + q * h, m);
  }

  lemma BitInLimb(s: seq<limb>, k: nat)
    requires k / 32 < |s|
    ensures BitOf(Value(s), k) == s[k / 32] / Pow(2, k % 32) % 2
  {
    hide Value, Pow;
    var l, j := k / 32, k % 32;
    PowShift(k);
    DropLimbs(s, l);
    PowPositive(B, l);
    PowTwo(j);
    NestedDivide(Value(s), Pow(B, l), Pow(2, j));
    ValueFrom(s, l, 0);
    LowLimb(s[l], Value(s[l + 1..]), j);
    PowDouble(31 - j);
    BitOfLimb(s[l], Value(s[l + 1..]), Pow(2, j), Pow(2, 31 - j));
  }

  lemma BitOfLimb(x: nat, h: nat, p: nat, q: nat)
    requires p > 0 && (x + B * h) / p == x / p + 2 * q * h
    ensures (x + B * h) / p % 2 == x / p % 2
  {
    EvenTerm(x / p, q, h);
  }

  lemma PowDouble(k: nat)
    ensures Pow(2, k + 1) == 2 * Pow(2, k)
  {
  }

  lemma EvenTerm(x: nat, q: nat, h: nat)
    ensures (x + 2 * q * h) % 2 == x % 2
  {
    MulAssoc(2, q, h);
  }

  lemma BitAbove(s: seq<limb>, k: nat)
    requires k / 32 >= |s|
    ensures BitOf(Value(s), k) == 0
  {
    hide Value;
    PowShift(k);
    TooFewLimbs(s, k / 32);
    NestedDivide(Value(s), Pow(B, k / 32), Pow(2, k % 32));
    ZeroDivided(Pow(2, k % 32));
  }

  lemma ZeroDivided(p: nat)
    requires p > 0
    ensures 0 / p == 0 && 0 % p == 0
  {
  }

  lemma {:induction false} ZeroValue(s: seq<limb>)
    ensures Value(s) == 0 <==> forall i :: 0 <= i < |s| ==> s[i] == 0
  {
    if s != [] {
      ZeroValue(s[1..]);
      if Value(s) == 0 {
        forall i | 0 <= i < |s| ensures s[i] == 0 {
          if i > 0 { assert s[i] == s[1..][i - 1]; }
        }
      } else if Value(s[1..]) != 0 {
        var i :| 0 <= i < |s[1..]| && s[1..][i] != 0;
        assert s[i + 1] != 0;
      }
    }
  }

  /** The bits below bit k: the limbs below its limb, and the low bits of that limb. */
  lemma LowBits(s: seq<limb>, k: nat)
    requires k / 32 < |s|
    ensures Value(s) % Pow(2, k) == 0 <==> Value(s[..k / 32]) == 0 && s[k / 32] % Pow(2, k % 32) == 0
  {
    hide Value, Pow;
    var l, j := k / 32, k % 32;
    PowShift(k);
    DropLimbs(s, l);
    NestedDivide(Value(s), Pow(B, l), Pow(2, j));
    ValueFrom(s, l, 0);
    LowLimb(s[l], Value(s[l + 1..]), j);
    SumZero(s[l] % Pow(2, j), Pow(B, l), Value(s[..l]));
  }

  lemma SumZero(a: nat, p: nat, b: nat)
    requires p > 0
    ensures a * p + b == 0 <==> a == 0 && b == 0
  {
  }

  lemma LowBitsAll(s: seq<limb>, k: nat)
    requires k / 32 >= |s|
    ensures Value(s) % Pow(2, k) == Value(s)
  {
    hide Value, Pow;
    PowShift(k);
    TooFewLimbs(s, k / 32);
    PowTwo(k % 32);
    AtLeastOne(Pow(B, k / 32), Pow(2, k % 32));
    RemainderIs(Value(s), Pow(2, k), 0, Value(s));
  }

  /** Bit s - 1 and the bits below it decide which side of one half the remainder is on. */
  lemma HalfBits(v: nat, s: nat)
    requires s >= 1
    ensures var h, rem := Pow(2, s - 1), v % Pow(2, s);
      && Pow(2, s) == 2 * h && rem == BitOf(v, s - 1) * h + v % h
  {
    var h := Pow(2, s - 1);
    NestedDivide(v, h, 2);
  }

  // ----- the class -----

  predicate Normal(s: seq<limb>) {
    |s| >= 1 && (|s| > 1 ==> s[|s| - 1] != 0)
  }

  class Mpb {
    const tab: array<limb>
    var len: nat

    ghost predicate Valid()
      reads this, tab
    {
      1 <= len <= tab.Length
    }

    ghost function Val(): nat
      requires Valid()
      reads this, tab
    {
      Value(tab[..len])
    }

    constructor (capacity: nat)
      requires capacity >= 2
      ensures Valid() && fresh(tab) && tab.Length == capacity && Val() == 0
    {
      tab := new limb[capacity](_ => 0);
      len := 1;
      new;
      assert tab[..1] == [0];
      ZeroValue(tab[..1]);
    }

    /** mpb_renorm: no zero limb at the top, unless it is the only one. */
    method Renorm()
      requires Valid()
      modifies this`len
      ensures Valid() && Normal(tab[..len]) && Val() == old(Val()) && len <= old(len)
    {
      while len > 1 && tab[len - 1] == 0
        invariant Valid() && len <= old(len) && Val() == old(Val())
      {
        ValueUpTo(tab[..len], len - 1);
        assert tab[..len][..len - 1] == tab[..len - 1] && tab[..len][..len] == tab[..len];
        len := len - 1;
      }
    }

    /** mpb_set_u64 */
    method SetU64(m: nat)
      requires m < BB && tab.Length >= 2
      modifies this`len, tab
      ensures Valid() && Val() == m && Normal(tab[..len]) && len <= 2
    {
      tab[0] := m % B;
      tab[1] := m / B;
      len := if tab[1] == 0 then 1 else 2;
      assert tab[..2] == [tab[0], tab[1]] && tab[..1] == [tab[0]];
      FewLimbs(tab[0], tab[1]);
    }

    /** mpb_get_u64: the value modulo 2^64. */
    method GetU64() returns (m: nat)
      requires Valid()
      ensures m == Val() % BB
    {
      hide Pow;
      PowTwoLimbs();
      if len == 1 {
        m := tab[0];
        assert tab[..1] == [tab[0]];
        FewLimbs(m, 0);
        SmallValue(m);
      } else {
        m := tab[0] + tab[1] * B;
        DropLimbs(tab[..len], 2);
        assert tab[..len][..2] == [tab[0], tab[1]];
        FewLimbs(tab[0], tab[1]);
      }
    }

    /** mpb_get_bit */
    method GetBit(k: nat) returns (bit: nat)
      requires Valid()
      ensures bit == BitOf(Val(), k)
    {
      hide BitOf, Value, Pow;
      var l, j := k / 32, k % 32;
      PowTwo(j);
      if l >= len {
        bit := 0;
        BitAbove(tab[..len], k);
      } else {
        bit := tab[l] / Pow(2, j) % 2;
        BitInLimb(tab[..len], k);
      }
    }

    /** The shift within a limb. */
    method ShiftBits(j: nat)
      requires Valid() && j < 32 && len + 1 <= tab.Length
      modifies this`len, tab
      ensures Valid() && Val() == old(Val()) * Pow(2, j) && len <= old(len) + 1
      ensures Normal(old(tab[..len])) ==> Normal(tab[..len])
    {
      hide Value, Pow;
      PowOne();
      if j != 0 {
        PowTwo(j);
        var top := MpShl(tab, tab, len, j, 0);
        tab[len] := top;
        assert tab[..len + 1] == tab[..len] + [top];
        ValueSnoc(tab[..len], top);
        len := len + 1;
        Renorm();
      }
    }

    /** mpb_shr_round by a negative shift: multiply by 2^shift. */
    method ShiftUp(shift: nat)
      requires Valid() && shift > 0 && len + shift / 32 + 1 <= tab.Length
      modifies this`len, tab
      ensures Valid() && Val() == old(Val()) * Pow(2, shift)
      ensures Normal(old(tab[..len])) && old(Val()) != 0 ==> Normal(tab[..len])
      ensures len <= old(len) + shift / 32 + 1
    {
      hide Value, Pow;
      var l, j := shift / 32, shift % 32;
      PowShift(shift);
      PowOne();
      ghost var v := Val();
      PowPositive(2, j);
      ShiftBits(j);
      if l > 0 {
        ghost var low := tab[..len];
        MoveUp(l);
        ScaleLimbs(low, tab[..len], l);
        NonZero(low, tab[..len], l);
      }
      ScaleBoth(v, Pow(2, j), Pow(B, l));
    }

    /** The limbs moved up by `l`, zeros below. */
    method MoveUp(l: nat)
      requires Valid() && len + l <= tab.Length
      modifies this`len, tab
      ensures Valid() && len == old(len) + l
      ensures tab[..l] == seq(l, _ => 0) && tab[l..len] == old(tab[..len])
    {
      var n := len;
      var i := n;
      ghost var a := tab[..n];
      while i > 0
        invariant 0 <= i <= n
        invariant forall t :: 0 <= t < i ==> tab[t] == a[t]
        invariant forall t :: i + l <= t < n + l ==> tab[t] == a[t - l]
        modifies tab
      {
        i := i - 1;
        tab[i + l] := tab[i];
      }
      assert tab[l..n + l] == a;
      ClearLow(l, n + l);
      len := n + l;
    }

    /** Zeros in the low `l` limbs; those up to `n` stay. */
    method ClearLow(l: nat, n: nat)
      requires l <= n <= tab.Length
      modifies tab
      ensures tab[..l] == seq(l, _ => 0) && tab[l..n] == old(tab[l..n])
    {
      for i := 0 to l
        invariant forall t :: 0 <= t < i ==> tab[t] == 0
        invariant forall t :: l <= t < n ==> tab[t] == old(tab[t])
        modifies tab
      {
        tab[i] := 0;
      }
    }

    /** The limbs moved down by `l`. */
    method MoveDown(l: nat)
      requires Valid() && l < len
      modifies this`len, tab
      ensures Valid() && len == old(len) - l && tab[..len] == old(tab[l..len])
    {
      var n := len - l;
      ghost var a := tab[..len];
      var i := 0;
      while i < n
        invariant 0 <= i <= n
        invariant forall t :: 0 <= t < i ==> tab[t] == a[t + l]
        invariant forall t :: i + l <= t < n + l ==> tab[t] == a[t]
        modifies tab
      {
        tab[i] := tab[i + l];
        i := i + 1;
      }
      len := n;
    }

    /** Is any bit below bit k set? */
    method AnyBelow(k: nat) returns (any: bool)
      requires Valid()
      ensures any == (Val() % Pow(2, k) != 0)
    {
      hide Value, Pow;
      var l, j := k / 32, k % 32;
      var stop := if l < len then l else len;
      ghost var s := tab[..len];
      any := AnyLimb(stop);
      ZeroValue(s[..stop]);
      PowTwo(j);
      if l < len {
        any := any || tab[l] % Pow(2, j) != 0;
        LowBits(s, k);
      } else {
        assert s[..stop] == s;
        LowBitsAll(s, k);
      }
    }

    /** Is one of the low limbs not zero? */
    method AnyLimb(stop: nat) returns (any: bool)
      requires stop <= len <= tab.Length
      ensures any == exists n :: 0 <= n < stop && tab[..len][..stop][n] != 0
    {
      any := false;
      ghost var s := tab[..len][..stop];
      for i := 0 to stop
        invariant any == (exists n :: 0 <= n < i && s[n] != 0)
      {
        any := any || tab[i] != 0;
        assert s[i] == tab[i];
      }
    }

    /** Should the quotient by 2^shift be rounded up? */
    method RoundsUp(shift: nat, mode: Mode) returns (addOne: bool)
      requires Valid() && shift > 0
      ensures var q := Val() / Pow(2, shift);
        Rounded(Val(), Pow(2, shift), mode) == if addOne then q + 1 else q
    {
      hide Pow;
      HalfBits(Val(), shift);
      PowPositive(2, shift);
      PowPositive(2, shift - 1);
      if mode == TowardZero { return false; }
      var bit1 := GetBit(shift - 1);
      BitRange(Val(), shift - 1);
      if bit1 == 0 {
        BelowHalf(Val(), shift);
        return false;
      }
      AboveHalf(Val(), shift);
      if mode == NearestAway { return true; }
      var any := AnyBelow(shift - 1);
      if any { return true; }
      var bit := GetBit(shift);
      addOne := bit == 1;
    }

    /** mpb_shr_round by a positive shift: divide by 2^shift and round. The buffer never grows. */
    method ShiftDown(shift: nat, mode: Mode)
      requires Valid() && shift > 0
      modifies this`len, tab
      ensures Valid() && Val() == Rounded(old(Val()), Pow(2, shift), mode) && len <= old(len)
    {
      hide Value, Pow, Rounded;
      var addOne := RoundsUp(shift, mode);
      var l, j := shift / 32, shift % 32;
      PowShift(shift);
      PowTwo(j);
      PowPositive(B, l);
      ghost var v, s := Val(), tab[..len];
      NestedDivide(v, Pow(B, l), Pow(2, j));
      if l >= len {
        TooFewLimbs(s, l);
        ZeroDivided(Pow(2, j));
        len := 1;
        tab[0] := if addOne then 1 else 0;
        assert tab[..1] == [tab[0]];
        FewLimbs(tab[0], 0);
      } else {
        DropLimbs(s, l);
        if l > 0 { MoveDown(l); }
        assert Val() == v / Pow(B, l);
        if j != 0 {
          ghost var a := tab[..len];
          var rest := MpShr(tab, tab, len, j, 0);
          HighZero(a, j);
          RemainderIs(Value(a), Pow(2, j), Value(tab[..len]), rest);
          ShiftedSmall(a, tab[..len], j, rest);
          Renorm();
        } else {
          PowOne();
        }
        assert Val() == v / Pow(2, shift);
        if addOne { AddOne(); }
      }
    }

    /** mp_add_ui with the carry appended. */
    method AddOne()
      requires Valid() && (len < tab.Length || Val() + 1 < Pow(B, len))
      modifies this`len, tab
      ensures Valid() && Val() == old(Val()) + 1
      ensures len <= old(len) + 1 && (old(Val()) + 1 < Pow(B, old(len)) ==> len == old(len))
    {
      hide Value, Pow;
      var carry := MpAddUi(tab, 1, len);
      CarryRoom(Value(tab[..len]), carry, Pow(B, len));
      if carry != 0 {
        tab[len] := carry;
        assert tab[..len + 1] == tab[..len] + [carry];
        ValueSnoc(tab[..len], carry);
        len := len + 1;
      }
    }
  }

  lemma CarryRoom(low: nat, carry: nat, p: nat)
    ensures low + carry * p < p ==> carry == 0
    ensures carry == 0 ==> low + carry * p == low
  {
    MulMono(1, carry, p, p);
  }

  lemma PowOne()
    ensures Pow(2, 0) == 1 && Pow(B, 0) == 1
  {
  }

  lemma PowPositive(b: nat, k: nat)
    requires b > 0
    ensures Pow(b, k) > 0
  {
  }

  lemma ScaleBoth(v: nat, p: nat, q: nat)
    ensures v * p * q == v * (q * p)
    ensures v * 1 == v
  {
    MulAssoc(v, p, q);
  }

  lemma ScaleLimbs(low: seq<limb>, all: seq<limb>, l: nat)
    requires |all| == l + |low| && all[..l] == seq(l, _ => 0) && all[l..] == low
    ensures Value(all) == Value(low) * Pow(B, l)
  {
    hide Value, Pow;
    ValueSplit(all, l);
    ZeroValue(all[..l]);
    assert forall i :: 0 <= i < l ==> all[..l][i] == 0;
  }

  lemma NonZero(low: seq<limb>, all: seq<limb>, l: nat)
    requires |all| == l + |low| && all[l..] == low && |low| >= 1
    ensures Normal(low) && Value(low) != 0 ==> Normal(all)
  {
    ZeroValue(low);
    assert all[|all| - 1] == low[|low| - 1];
    if Normal(low) && Value(low) != 0 && |low| == 1 {
      var i :| 0 <= i < |low| && low[i] != 0;
    }
  }

  lemma BitRange(v: nat, k: nat)
    ensures 0 <= BitOf(v, k) <= 1
  {
  }

  lemma BelowHalf(v: nat, s: nat)
    requires s >= 1 && BitOf(v, s - 1) == 0 && Pow(2, s) > 0
    ensures forall mode :: Rounded(v, Pow(2, s), mode) == v / Pow(2, s)
  {
    hide Pow;
    HalfBits(v, s);
    DivMod(v, Pow(2, s - 1)) by { PowPositive(2, s - 1); }
    Vanish(Pow(2, s - 1));
  }

  lemma Vanish(h: nat)
    ensures 0 * h == 0 && 1 * h == h
  {
  }

  /** With bit s - 1 set: up when away from zero, when a lower bit is set, or to the even side. */
  lemma AboveHalf(v: nat, s: nat)
    requires s >= 1 && BitOf(v, s - 1) == 1 && Pow(2, s) > 0 && Pow(2, s - 1) > 0
    ensures var q := v / Pow(2, s);
      && Rounded(v, Pow(2, s), NearestAway) == q + 1
      && Rounded(v, Pow(2, s), NearestEven) == (if v % Pow(2, s - 1) != 0 || BitOf(v, s) == 1 then q + 1 else q)
  {
    hide Pow;
    HalfBits(v, s);
    DivMod(v, Pow(2, s - 1));
    Vanish(Pow(2, s - 1));
  }

  lemma HighZero(a: seq<limb>, j: nat)
    requires Pow(2, j) > 0
    ensures High(a, 0 % Pow(2, j)) == Value(a)
  {
    ZeroDivided(Pow(2, j));
    HighIs(a, 0);
  }

  /** After a shift by some bits, one can be added without a carry out of the top limb. */
  lemma ShiftedSmall(a: seq<limb>, w: seq<limb>, j: nat, rest: nat)
    requires |w| == |a| >= 1 && 1 <= j < 32 && Value(a) == Value(w) * Pow(2, j) + rest
    ensures Value(w) + 1 < Pow(B, |a|)
  {
    hide Value;
    ValueBound(a);
    assert Pow(2, j) == 2 * Pow(2, j - 1);
    assert Pow(B, |a|) == B * Pow(B, |a| - 1);
    PowPositive(2, j - 1);
    PowPositive(B, |a| - 1);
    SmallHalf(Value(w), Pow(2, j - 1), rest, Pow(B, |a| - 1));
  }

  lemma SmallHalf(w: nat, h: nat, rest: nat, p: nat)
    requires h >= 1 && p >= 1 && w * (2 * h) + rest < B * p
    ensures w + 1 < B * p
  {
    MulMono(w, w, 2, 2 * h);
  }

  lemma FewLimbs(x: limb, y: limb)
    ensures Value([x, y]) == x + B * y && Value([x]) == x
  {
    assert [x, y][1..] == [y] && [y][1..] == [] && [x][1..] == [];
    assert Value([y]) == y && Value([x]) == x;
  }

  lemma SmallValue(m: limb)
    ensures m % BB == m
  {
  }

  lemma PowTwoLimbs()
    ensures Pow(B, 2) == BB
  {
    assert Pow(B, 1) == B * Pow(B, 0);
  }
}
