/** Digits of a big integer, written from the low end a limb at a time and read back the same way. */
module DigitCodec {
  import opened Limbs
  import opened Reciprocal
  import opened Rounding
  import opened BigNumber
  import opened PowerScaling

  /** radix_base_table: radix^digits_per_limb, 0 standing for 2^32. */
  const RADIX_BASE: seq<limb> :=
    [0x00000000, 0xcfd41b91, 0x00000000, 0x48c27395, 0x81bf1000, 0x75db9c97, 0x40000000, 0xcfd41b91,
     0x3b9aca00, 0x8c8b6d2b, 0x19a10000, 0x309f1021, 0x57f6c100, 0x98c29b81, 0x00000000, 0x18754571,
     0x247dbc80, 0x3547667b, 0x4c4b4000, 0x6b5a6e1d, 0x94ace180, 0xcaf18367, 0x0b640000, 0x0e8d4a51,
     0x1269ae40, 0x17179149, 0x1cb91000, 0x23744899, 0x2b73a840, 0x34e63b41, 0x40000000, 0x4cfa3cc1,
     0x5c13d840, 0x6d91b519, 0x81bf1000]

  predicate ValidRadix(radix: nat) { 2 <= radix <= 36 }

  function BaseOf(radix: nat): limb
    requires ValidRadix(radix)
  {
    RADIX_BASE[radix - 2]
  }

  lemma RadixTable0()
    ensures PowBin(2, 32) == 0x100000000 && PowBin(3, 20) == 0xcfd41b91 && PowBin(4, 16) == 0x100000000 && PowBin(5, 13) == 0x48c27395
  {
  }

  lemma RadixTable1()
    ensures PowBin(6, 12) == 0x81bf1000 && PowBin(7, 11) == 0x75db9c97 && PowBin(8, 10) == 0x40000000 && PowBin(9, 10) == 0xcfd41b91
  {
  }

  lemma RadixTable2()
    ensures PowBin(10, 9) == 0x3b9aca00 && PowBin(11, 9) == 0x8c8b6d2b && PowBin(12, 8) == 0x19a10000 && PowBin(13, 8) == 0x309f1021
  {
  }

  lemma RadixTable3()
    ensures PowBin(14, 8) == 0x57f6c100 && PowBin(15, 8) == 0x98c29b81 && PowBin(16, 8) == 0x100000000 && PowBin(17, 7) == 0x18754571
  {
  }

  lemma RadixTable4()
    ensures PowBin(18, 7) == 0x247dbc80 && PowBin(19, 7) == 0x3547667b && PowBin(20, 7) == 0x4c4b4000 && PowBin(21, 7) == 0x6b5a6e1d
  {
  }

  lemma RadixTable5()
    ensures PowBin(22, 7) == 0x94ace180 && PowBin(23, 7) == 0xcaf18367 && PowBin(24, 6) == 0xb640000 && PowBin(25, 6) == 0xe8d4a51
  {
  }

  lemma RadixTable6()
    ensures PowBin(26, 6) == 0x1269ae40 && PowBin(27, 6) == 0x17179149 && PowBin(28, 6) == 0x1cb91000 && PowBin(29, 6) == 0x23744899
  {
  }

  lemma RadixTable7()
    ensures PowBin(30, 6) == 0x2b73a840 && PowBin(31, 6) == 0x34e63b41 && PowBin(32, 6) == 0x40000000 && PowBin(33, 6) == 0x4cfa3cc1
  {
  }

  lemma RadixTable8()
    ensures PowBin(34, 6) == 0x5c13d840 && PowBin(35, 6) == 0x6d91b519 && PowBin(36, 6) == 0x81bf1000
  {
  }

  /** The base is the power of the radix that the digit table says, or 2^32. */
  lemma BaseIsPower(radix: nat)
    requires ValidRadix(radix)
    ensures Pow(radix, Digits(radix)) == if BaseOf(radix) == 0 then B else BaseOf(radix)
  {
    hide Pow, PowBin;
    PowBinIs(radix, Digits(radix));
    if radix <= 5 { RadixTable0(); }
    else if radix <= 9 { RadixTable1(); }
    else if radix <= 13 { RadixTable2(); }
    else if radix <= 17 { RadixTable3(); }
    else if radix <= 21 { RadixTable4(); }
    else if radix <= 25 { RadixTable5(); }
    else if radix <= 29 { RadixTable6(); }
    else if radix <= 33 { RadixTable7(); }
    else { RadixTable8(); }
  }

  // ----- digits of a number -----

  function DigitAt(v: nat, radix: nat, k: nat): nat
    requires radix >= 2
  {
    PowPositive(radix, k);
    NonNegative(v, Pow(radix, k));
    v / Pow(radix, k) % radix
  }

  function DigitChar(d: nat): char
    requires d < 36
  {
    if d < 10 then '0' + d as char else 'a' + (d - 10) as char
  }

  /** to_digit; 36 for anything that is no digit. */
  function ToDigit(c: char): nat {
    if '0' <= c <= '9' then (c - '0') as nat
    else if 'A' <= c <= 'Z' then (c - 'A') as nat + 10
    else if 'a' <= c <= 'z' then (c - 'a') as nat + 10
    else 36
  }

  /** Digits are written in lower case. */
  predicate LowerDigit(c: char) { '0' <= c <= '9' || 'a' <= c <= 'z' }

  /** What to_digit reads: decimal digits, then the letters of either case; nothing else is a digit of any radix. */
  lemma DigitValues(c: char)
    ensures '0' <= c <= '9' ==> ToDigit(c) == c as int - 48
    ensures 'a' <= c <= 'z' ==> ToDigit(c) == c as int - 87
    ensures 'A' <= c <= 'Z' ==> ToDigit(c) == c as int - 55
    ensures ToDigit(c) <= 36
    ensures ToDigit(c) < 36 <==> '0' <= c <= '9' || 'a' <= c <= 'z' || 'A' <= c <= 'Z'
    ensures forall b: char :: LowerDigit(c) && LowerDigit(b) && ToDigit(b) == ToDigit(c) ==> b == c
  {
  }

  lemma DigitCharBack(d: nat)
    requires d < 36
    ensures ToDigit(DigitChar(d)) == d && LowerDigit(DigitChar(d))
  {
  }

  /** The low digits depend on the low part of the number only. */
  lemma DigitOfLow(v: nat, w: nat, radix: nat, k: nat, n: nat)
    requires radix >= 2 && k < n && v % Pow(radix, n) == w % Pow(radix, n) && Pow(radix, n) > 0
    ensures DigitAt(v, radix, k) == DigitAt(w, radix, k)
  {
    hide Pow;
    LowDigit(v, radix, k, n);
    LowDigit(w, radix, k, n);
  }

  lemma LowDigit(v: nat, radix: nat, k: nat, n: nat)
    requires radix >= 2 && k < n && Pow(radix, n) > 0
    ensures DigitAt(v, radix, k) == DigitAt(v % Pow(radix, n), radix, k)
  {
    hide Pow;
    var p, q := Pow(radix, k), Pow(radix, n - k - 1);
    PowPositive(radix, k);
    PowPositive(radix, n - k - 1);
    PowAdd(radix, k + 1, n - k - 1);
    PowMore(radix, k);
    DivMod(v, Pow(radix, n));
    MulAssoc(p, radix, q);
    var h, low := v / Pow(radix, n), v % Pow(radix, n);
    // v / p == h (radix q) + low / p
    DivMod(low, p);
    HighDigits(h, p, radix, q, low / p, low % p);
    RemainderIs(v, p, h * (radix * q) + low / p, low % p);
    DropMultiple(low / p, h * q, radix);
  }

  lemma HighDigits(h: nat, p: nat, r: nat, q: nat, d: nat, m: nat)
    ensures h * (p * (r * q)) + (d * p + m) == (h * (r * q) + d) * p + m
    ensures h * (r * q) + d == (h * q) * r + d
  {
    assert h * (p * (r * q)) == h * (r * q) * p;
    MulAssoc(h, q, r);
  }

  lemma DropMultiple(d: nat, x: nat, r: nat)
    requires r >= 1
    ensures (x * r + d) % r == d % r
  {
    DivMod(d, r);
    assert x * r + d == (x + d / r) * r + d % r;
    RemainderIs(x * r + d, r, x + d / r, d % r);
  }

  lemma DigitOfQuotient(v: nat, radix: nat, done: nat, k: nat)
    requires radix >= 2 && Pow(radix, done) > 0
    ensures DigitAt(v / Pow(radix, done), radix, k) == DigitAt(v, radix, done + k)
  {
    hide Pow;
    PowPositive(radix, k);
    PowAdd(radix, done, k);
    NestedDivide(v, Pow(radix, done), Pow(radix, k));
  }

  /** The digits from place i of the field on are written, the rest of the buffer is as it was. */
  ghost predicate FieldFrom(was: seq<char>, b: seq<char>, off: nat, i: nat, len: nat, n0: nat, radix: nat)
    requires ValidRadix(radix)
  {
    && |b| == |was| && i <= len && off + len <= |b|
    && (forall j :: off + i <= j < off + len ==> ToDigit(b[j]) == DigitAt(n0, radix, off + len - 1 - j) && LowerDigit(b[j]))
    && forall j :: 0 <= j < |b| && !(off + i <= j < off + len) ==> b[j] == was[j]
  }

  lemma FieldStep(was: seq<char>, b: seq<char>, off: nat, i: nat, len: nat, n0: nat, radix: nat, c: char)
    requires ValidRadix(radix) && FieldFrom(was, b, off, i, len, n0, radix) && i > 0 && ToDigit(c) == DigitAt(n0, radix, len - i) && LowerDigit(c)
    ensures FieldFrom(was, b[off + i - 1 := c], off, i - 1, len, n0, radix)
  {
    hide ToDigit, DigitAt, LowerDigit;
  }

  /** u32toa_len, limb_to_a and u64toa_bin_len: `len` digits of a limb, the last one first. */
  method WriteLimb(buf: array<char>, off: nat, n0: limb, radix: nat, len: nat)
    requires ValidRadix(radix) && off + len <= buf.Length
    modifies buf
    ensures forall i :: off <= i < off + len ==> ToDigit(buf[i]) == DigitAt(n0, radix, off + len - 1 - i) && LowerDigit(buf[i])
    ensures forall i :: 0 <= i < buf.Length && !(off <= i < off + len) ==> buf[i] == old(buf[i])
  {
    hide Pow, DigitChar, ToDigit, DigitAt, FieldFrom, LowerDigit;
    ghost var was := buf[..];
    var n: nat, i := n0, len;
    PowSmall(radix);
    assert n0 as int / 1 == n0;
    FieldStart(was, off, len, n0, radix);
    while i > 0
      invariant 0 <= i <= len && Pow(radix, len - i) > 0 && n == n0 / Pow(radix, len - i)
      invariant FieldFrom(was, buf[..], off, i, len, n0, radix)
    {
      NextDigit(n0, radix, len - i);
      DigitCharBack(n % radix);
      ghost var b := buf[..];
      FieldStep(was, b, off, i, len, n0, radix, DigitChar(n % radix));
      i := i - 1;
      buf[off + i] := DigitChar(n % radix);
      assert buf[..] == b[off + i := DigitChar(n % radix)];
      n := n / radix;
    }
    FieldDone(was, buf[..], off, len, n0, radix);
  }

  lemma FieldStart(was: seq<char>, off: nat, len: nat, n0: nat, radix: nat)
    requires ValidRadix(radix) && off + len <= |was|
    ensures FieldFrom(was, was, off, len, len, n0, radix)
  {
  }

  lemma FieldDone(was: seq<char>, b: seq<char>, off: nat, len: nat, n0: nat, radix: nat)
    requires ValidRadix(radix) && FieldFrom(was, b, off, 0, len, n0, radix)
    ensures |b| == |was| && forall j :: off <= j < off + len ==> ToDigit(b[j]) == DigitAt(n0, radix, off + len - 1 - j) && LowerDigit(b[j])
    ensures forall j :: 0 <= j < |b| && !(off <= j < off + len) ==> b[j] == was[j]
  {
    hide ToDigit, DigitAt, LowerDigit;
  }

  lemma NextDigit(v: nat, radix: nat, k: nat)
    requires ValidRadix(radix) && Pow(radix, k) > 0
    ensures DigitAt(v, radix, k) == v / Pow(radix, k) % radix < 36
    ensures Pow(radix, k + 1) > 0 && v / Pow(radix, k + 1) == v / Pow(radix, k) / radix
  {
    hide Pow;
    PowMore(radix, k);
    NestedDivide(v, Pow(radix, k), radix);
  }

  /** Number of bits of a power of two, 0 for another radix. */
  function RadixBits(radix: nat): nat {
    if radix == 2 then 1 else if radix == 4 then 2 else if radix == 8 then 3 else if radix == 16 then 4 else if radix == 32 then 5 else 0
  }

  lemma BitsPower(radix: nat)
    requires ValidRadix(radix) && RadixBits(radix) != 0
    ensures Pow(2, RadixBits(radix)) == radix && Digits(radix) * RadixBits(radix) <= 32
    ensures Pow(radix, Digits(radix)) == Pow(2, Digits(radix) * RadixBits(radix))
    ensures Pow(radix, Digits(radix)) > 0 && B % Pow(radix, Digits(radix)) == 0
  {
    hide Pow;
    SmallBits();
    PowerOfPower(RadixBits(radix), Digits(radix));
    var k := Digits(radix) * RadixBits(radix);
    PowTwo(k);
    PowPositive(2, k);
    RemainderIs(B, Pow(2, k), Pow(2, 32 - k), 0) by { Swap(Pow(2, k), Pow(2, 32 - k)); }
  }

  lemma Swap(a: nat, b: nat)
    ensures a * b == b * a
  {
  }

  lemma SmallBits()
    ensures Pow(2, 1) == 2 && Pow(2, 2) == 4 && Pow(2, 3) == 8 && Pow(2, 4) == 16 && Pow(2, 5) == 32
  {
  }

  lemma {:induction false} PowerOfPower(s: nat, k: nat)
    ensures Pow(Pow(2, s), k) == Pow(2, k * s)
  {
    hide Pow;
    PowSmall(Pow(2, s));
    PowZero();
    if k > 0 {
      PowerOfPower(s, k - 1);
      PowAdd(2, s, (k - 1) * s);
      PowMore(Pow(2, s), k - 1);
      assert s + (k - 1) * s == k * s;
    }
  }

  /** The low limb has the low digits. */
  lemma LowLimbDigits(s: seq<limb>, p: nat)
    requires |s| >= 1 && p > 0 && B % p == 0
    ensures s[0] % p == Value(s) % p
  {
    hide Value;
    ValueFrom(s, 0, 0);
    assert s[0..] == s;
    var h, c := Value(s[1..]), B / p;
    DivMod(B, p);
    assert B * h == (c * h) * p by { ThreeTimes(c, p, h); }
    DropMultiple(s[0], c * h, p);
  }

  lemma ThreeTimes(c: nat, p: nat, h: nat)
    ensures (c * p + 0) * h == (c * h) * p
  {
  }

  /** All digits written so far are digits of v. */
  ghost predicate Written(buf: seq<char>, v: nat, radix: nat, from: nat, n: nat)
    requires radix >= 2
  {
    from <= n <= |buf| && forall i :: from <= i < n ==> ToDigit(buf[i]) == DigitAt(v, radix, n - 1 - i) && LowerDigit(buf[i])
  }

  /** One more chunk: digits of a limb that agrees with v / radix^done on its low digits. */
  method WriteChunk(buf: array<char>, ghost v: nat, ghost rest: nat, x: limb, radix: nat, off: nat, len: nat, ghost n: nat)
    requires ValidRadix(radix) && len <= Digits(radix) && off + len <= n <= buf.Length
    requires Written(buf[..], v, radix, off + len, n)
    requires Pow(radix, n - off - len) > 0 && rest == v / Pow(radix, n - off - len)
    requires Pow(radix, Digits(radix)) > 0 && x % Pow(radix, Digits(radix)) == rest % Pow(radix, Digits(radix))
    modifies buf
    ensures Written(buf[..], v, radix, off, n)
  {
    hide Pow, ToDigit, DigitAt, Digits, LowerDigit;
    ghost var done, was := n - off - len, buf[..];
    WriteLimb(buf, off, x, radix, len);
    forall i | off <= i < n ensures ToDigit(buf[..][i]) == DigitAt(v, radix, n - 1 - i) && LowerDigit(buf[..][i]) {
      if i < off + len {
        DigitOfLow(x, rest, radix, off + len - 1 - i, Digits(radix));
        DigitOfQuotient(v, radix, done, off + len - 1 - i);
      } else {
        assert buf[i] == was[i];
      }
    }
  }

  /** output_digits, without the dot: the low n digits of a. */
  method OutputDigits(buf: array<char>, a: Mpb, radix: nat, n: nat)
    requires 2 <= radix <= 36 && a.Valid() && 1 <= n <= buf.Length
    modifies buf, a`len, a.tab
    ensures Written(buf[..], old(a.Val()), radix, 0, n)
  {
    hide Pow, ToDigit, DigitAt, Value, Digits, RadixBits, Written, High;
    ghost var v := a.Val();
    var bits, perLimb := RadixBits(radix), Digits(radix);
    var left: nat := n;
    NothingWritten(buf[..], v, radix, n);
    PowSmall(radix);
    assert v / 1 == v;
    BaseIsPower(radix);
    PowPositive(radix, perLimb);
    if bits != 0 {
      BitsPower(radix);
      while true
        invariant 1 <= left <= n && a.Valid() && Written(buf[..], v, radix, left, n)
        invariant Pow(radix, n - left) > 0 && a.Val() == v / Pow(radix, n - left)
        decreases left
      {
        var k := if left < perLimb then left else perLimb;
        PositiveDigits(radix);
        left := left - k;
        LowLimbDigits(a.tab[..a.len], Pow(radix, perLimb));
        WriteChunk(buf, v, a.Val(), a.tab[0], radix, left, k, n);
        if left == 0 { break; }
        PowPositive(2, perLimb * bits);
        Truncates(a.Val(), Pow(2, perLimb * bits));
        a.ShiftDown(perLimb * bits, TowardZero);
        PowAdd(radix, n - left - k, k);
        NestedDivide(v, Pow(radix, n - left - k), Pow(radix, k));
      }
    } else {
      NotPowerBase(radix);
      while left != 0
        invariant left <= n && a.Valid() && Written(buf[..], v, radix, left, n)
        invariant left == 0 || (Pow(radix, n - left) > 0 && a.Val() == v / Pow(radix, n - left))
        decreases left
      {
        var k := if left < perLimb then left else perLimb;
        PositiveDigits(radix);
        left := left - k;
        ghost var rest, s := a.Val(), a.tab[..a.len];
        var r := MpDiv1(a.tab, a.tab, a.len, BaseOf(radix), 0);
        HighIs(s, 0);
        RemainderIs(rest, BaseOf(radix), Value(a.tab[..a.len]), r);
        a.Renorm();
        SmallMod(r, Pow(radix, perLimb));
        WriteChunk(buf, v, rest, r, radix, left, k, n);
        if left != 0 {
          PowAdd(radix, n - left - k, k);
          NestedDivide(v, Pow(radix, n - left - k), Pow(radix, k));
        }
      }
    }
  }

  lemma NothingWritten(buf: seq<char>, v: nat, radix: nat, n: nat)
    requires radix >= 2 && n <= |buf|
    ensures Written(buf, v, radix, n, n)
  {
  }

  lemma PositiveDigits(radix: nat)
    requires ValidRadix(radix)
    ensures Digits(radix) > 0
  {
  }

  lemma SmallMod(r: nat, p: nat)
    requires r < p
    ensures r % p == r
  {
  }

  lemma Truncates(v: nat, p: nat)
    requires p > 0
    ensures Rounded(v, p, TowardZero) == v / p
  {
  }

  lemma NotPowerBase(radix: nat)
    requires ValidRadix(radix) && RadixBits(radix) == 0
    ensures BaseOf(radix) != 0
  {
  }

  // ----- reading digits -----

  /** The number a string of digits stands for. */
  function Horner(digits: seq<char>, radix: nat): nat {
    if digits == [] then 0 else Horner(digits[..|digits| - 1], radix) * radix + ToDigit(digits[|digits| - 1])
  }

  predicate AllDigits(digits: seq<char>, radix: nat) {
    forall i :: 0 <= i < |digits| ==> ToDigit(digits[i]) < radix
  }

  /** mpb_mul1_base: a * base + x, where base 0 stands for 2^32. */
  method MulBase(a: Mpb, base: limb, x: limb)
    requires a.Valid() && Normal(a.tab[..a.len]) && a.len + 2 <= a.tab.Length
    modifies a`len, a.tab
    ensures a.Valid() && Normal(a.tab[..a.len]) && a.len <= old(a.len) + 1
    ensures a.Val() == old(a.Val()) * (if base == 0 then B else base) + x
  {
    hide Value, Pow;
    ghost var s := a.tab[..a.len];
    if a.tab[0] == 0 && a.len == 1 {
      IsZeroLimb(s);
      a.tab[0] := x;
      assert a.tab[..1] == [x];
      FewLimbs(x, 0);
      ZeroTimesNat(if base == 0 then B else base);
    } else {
      if base == 0 {
        PushLimb(a, x);
        assert a.tab[..a.len + 1] == [x] + s;
        ValueCons(x, s);
      } else {
        var h := MpMul1(a.tab, a.tab, a.len, base, x);
        a.tab[a.len] := h;
        assert a.tab[..a.len + 1] == a.tab[..a.len] + [h];
        ValueSnoc(a.tab[..a.len], h);
      }
      a.len := a.len + 1;
      a.Renorm();
    }
  }

  lemma ZeroTimesNat(b: nat)
    ensures 0 * b == 0
  {
  }

  lemma IsZeroLimb(s: seq<limb>)
    requires |s| >= 1 && s[0] == 0 && |s| == 1
    ensures Value(s) == 0
  {
    assert s == [0];
    FewLimbs(0, 0);
  }

  lemma ValueCons(x: limb, s: seq<limb>)
    ensures Value([x] + s) == x + B * Value(s)
  {
    assert ([x] + s)[1..] == s;
  }

  /** All limbs one place up, `x` below them. */
  method PushLimb(a: Mpb, x: limb)
    requires a.Valid() && a.len + 2 <= a.tab.Length
    modifies a.tab
    ensures a.tab[..a.len + 1] == [x] + old(a.tab[..a.len])
  {
    ghost var s := a.tab[..a.len];
    var i: int := a.len;
    while i >= 0
      invariant -1 <= i <= a.len
      invariant forall t :: 0 <= t <= i && t < a.len ==> a.tab[t] == s[t]
      invariant forall t :: i + 1 < t <= a.len ==> a.tab[t] == s[t - 1]
    {
      a.tab[i + 1] := a.tab[i];
      i := i - 1;
    }
    a.tab[0] := x;
  }

  /** The digit loop of js_atod, within the digit limit: whole limbs of digits at a time, then what
    * is left. */
  method ReadDigits(a: Mpb, digits: seq<char>, radix: nat)
    requires 2 <= radix <= 36 && AllDigits(digits, radix) && a.Valid() && a.Val() == 0 && a.len == 1
    requires a.tab.Length >= |digits| / Digits(radix) + 3
    modifies a`len, a.tab
    ensures a.Valid() && Normal(a.tab[..a.len]) && a.Val() == Horner(digits, radix)
  {
    hide Value, Pow, Digits, Horner, ToDigit, BaseOf, ReadTo;
    var perLimb, cur: nat, count: nat := Digits(radix), 0, 0;
    BaseIsPower(radix);
    PositiveDigits(radix);
    var i := 0;
    ghost var limbs: nat := 0;
    NoLimbs(perLimb, |digits|);
    NothingRead(digits, radix);
    while i < |digits|
      invariant 0 <= i <= |digits| && a.Valid() && Normal(a.tab[..a.len]) && a.len <= 1 + limbs <= 1 + |digits| / perLimb
      invariant limbs * perLimb + count == i && count < perLimb
      invariant ReadTo(digits, radix, i, a.Val(), count, cur)
    {
      var c := ToDigit(digits[i]);
      ReadOne(digits, radix, i, a.Val(), count, cur, perLimb);
      cur := cur * radix + c;
      count := count + 1;
      if count == perLimb {
        LimbDone(limbs, perLimb, i + 1, |digits|);
        limbs := limbs + 1;
        ghost var v := a.Val();
        MulBase(a, BaseOf(radix), cur);
        LimbRead(digits, radix, i + 1, v, count, cur, a.Val());
        cur := 0;
        count := 0;
      }
      i := i + 1;
    }
    assert digits[..i] == digits;
    ghost var v := a.Val();
    if count != 0 {
      LimbPower(radix, count);
      LimbFits(digits, radix, i, v, count, cur);
      var b := PowUi(radix, count);
      MulBase(a, b, cur);
      LimbRead(digits, radix, i, v, count, cur, a.Val());
    }
    AllRead(digits, radix, i, a.Val(), if count != 0 then 0 else cur);
  }

  /** The first i digits are v * radix^count + cur. */
  predicate ReadTo(digits: seq<char>, radix: nat, i: nat, v: nat, count: nat, cur: nat) {
    i <= |digits| && cur < Pow(radix, count) && v * Pow(radix, count) + cur == Horner(digits[..i], radix)
  }

  lemma NothingRead(digits: seq<char>, radix: nat)
    ensures ReadTo(digits, radix, 0, 0, 0, 0)
  {
    PowSmall(radix);
    assert digits[..0] == [];
  }

  lemma ReadOne(digits: seq<char>, radix: nat, i: nat, v: nat, count: nat, cur: nat, perLimb: nat)
    requires ValidRadix(radix) && AllDigits(digits, radix) && count < perLimb == Digits(radix) && i < |digits|
    requires ReadTo(digits, radix, i, v, count, cur)
    ensures ReadTo(digits, radix, i + 1, v, count + 1, cur * radix + ToDigit(digits[i])) && cur * radix + ToDigit(digits[i]) < B
  {
    hide Pow, Digits, Horner, ToDigit, BaseOf;
    var c := ToDigit(digits[i]);
    CurFits(cur, c, radix, count, perLimb);
    HornerNext(digits, radix, i);
    NextHorner(v, Pow(radix, count), cur, radix, c);
    PowMore(radix, count);
  }

  /** A limb of digits has gone into the number. */
  lemma LimbRead(digits: seq<char>, radix: nat, i: nat, v: nat, count: nat, cur: nat, v': nat)
    requires ReadTo(digits, radix, i, v, count, cur) && v' == v * Pow(radix, count) + cur
    ensures ReadTo(digits, radix, i, v', 0, 0)
  {
    hide Horner;
    PowSmall(radix);
    TimesOne(v');
  }

  lemma LimbFits(digits: seq<char>, radix: nat, i: nat, v: nat, count: nat, cur: nat)
    requires ReadTo(digits, radix, i, v, count, cur) && Pow(radix, count) < B
    ensures cur < B
  {
    hide Horner, Pow;
  }

  lemma AllRead(digits: seq<char>, radix: nat, i: nat, v: nat, cur: nat)
    requires ReadTo(digits, radix, i, v, 0, cur) && digits[..i] == digits
    ensures v == Horner(digits, radix)
  {
    hide Horner;
    PowSmall(radix);
    TimesOne(v);
  }

  lemma NoLimbs(d: nat, n: nat)
    requires d > 0
    ensures n / d >= 0 && 0 * d == 0
  {
  }

  lemma LimbDone(limbs: nat, d: nat, i: nat, n: nat)
    requires d > 0 && limbs * d + d == i <= n
    ensures (limbs + 1) * d == i && limbs + 1 <= n / d
  {
    DivMod(n, d);
    assert (limbs + 1) * d == limbs * d + d;
    MulMono(n / d + 1, limbs + 1, d, d);
    assert (n / d + 1) * d == n / d * d + d;
  }

  lemma TimesOne(v: nat)
    ensures v * 1 + 0 == v
  {
  }

  lemma HornerNone(radix: nat)
    ensures Horner([], radix) == 0
  {
  }

  lemma HornerNext(digits: seq<char>, radix: nat, i: nat)
    requires i < |digits|
    ensures Horner(digits[..i + 1], radix) == Horner(digits[..i], radix) * radix + ToDigit(digits[i])
  {
    hide ToDigit;
    assert digits[..i + 1][..i] == digits[..i];
  }

  lemma NextHorner(v: nat, p: nat, cur: nat, r: nat, c: nat)
    ensures (v * p + cur) * r + c == v * (p * r) + (cur * r + c)
  {
    MulAssoc(v, p, r);
  }

  /** The limb being filled stays below the power of the radix, and so in a limb. */
  lemma CurFits(cur: nat, c: nat, radix: nat, count: nat, perLimb: nat)
    requires ValidRadix(radix) && c < radix && cur < Pow(radix, count) && count < perLimb == Digits(radix)
    ensures cur * radix + c < Pow(radix, count + 1) <= Pow(radix, perLimb) <= B
  {
    hide Pow, Digits, BaseOf;
    PowMore(radix, count);
    MulMono(cur + 1, Pow(radix, count), radix, radix);
    assert (cur + 1) * radix == cur * radix + radix;
    PowMono(radix, count + 1, perLimb);
    BaseIsPower(radix);
  }

  lemma LimbPower(radix: nat, count: nat)
    requires ValidRadix(radix) && 0 < count < Digits(radix)
    ensures 0 < Pow(radix, count) < B
  {
    hide Pow, Digits, BaseOf;
    PowMono(radix, 0, count);
    PowMono(radix, count + 1, Digits(radix));
    PowMore(radix, count);
    PowPositive(radix, count);
    MulMono(Pow(radix, count), Pow(radix, count), 2, radix);
    BaseIsPower(radix);
  }

  // ----- the round trip -----

  /** The digits written for v stand for v modulo radix^n. */
  lemma {:induction false} WrittenReads(buf: seq<char>, v: nat, radix: nat, n: nat)
    requires ValidRadix(radix) && n <= |buf|
    requires forall i :: 0 <= i < n ==> ToDigit(buf[i]) == DigitAt(v, radix, n - 1 - i)
    ensures Pow(radix, n) > 0 && Horner(buf[..n], radix) == v % Pow(radix, n)
    decreases n
  {
    hide Pow, Horner, ToDigit, DigitAt;
    PowPositive(radix, n);
    if n == 0 {
      PowSmall(radix);
      HornerNone(radix);
      assert v % 1 == 0;
    } else {
      PowPositive(radix, n - 1);
      PowSmall(radix);
      DigitZero(v, radix);
      forall i | 0 <= i < n - 1 ensures ToDigit(buf[i]) == DigitAt(v / radix, radix, n - 2 - i) {
        DigitOfQuotient(v, radix, 1, n - 2 - i);
      }
      WrittenReads(buf, v / radix, radix, n - 1);
      HornerNext(buf[..n], radix, n - 1);
      assert buf[..n][..n - 1] == buf[..n - 1];
      assert buf[..n][..n] == buf[..n];
      NestedDivide(v, radix, Pow(radix, n - 1));
      PowMore(radix, n - 1);
      Swap(radix, Pow(radix, n - 1));
    }
  }

  lemma DigitZero(v: nat, radix: nat)
    requires ValidRadix(radix)
    ensures DigitAt(v, radix, 0) == v % radix
  {
    PowSmall(radix);
    assert v / 1 == v;
  }

  lemma WrittenAreDigits(buf: seq<char>, v: nat, radix: nat, n: nat)
    requires ValidRadix(radix) && Written(buf, v, radix, 0, n)
    ensures AllDigits(buf[..n], radix)
  {
    hide Pow, ToDigit;
  }

  /** Writing n digits and reading them back: the number modulo radix^n. */
  method DigitsRoundTrip(a: Mpb, b: Mpb, radix: nat, n: nat)
    requires 2 <= radix <= 36 && n >= 1 && a != b && a.tab != b.tab && a.Valid()
    requires b.Valid() && b.Val() == 0 && b.len == 1 && b.tab.Length >= n / Digits(radix) + 3
    modifies a`len, a.tab, b`len, b.tab
    ensures Pow(radix, n) > 0 && b.Valid() && b.Val() == old(a.Val()) % Pow(radix, n)
  {
    hide Pow, Horner, Written, AllDigits, Value;
    var buf := new char[n](_ => '0');
    ghost var v := a.Val();
    OutputDigits(buf, a, radix, n);
    WrittenAreDigits(buf[..], v, radix, n);
    WrittenDigits(buf[..], v, radix, n);
    WrittenReads(buf[..], v, radix, n);
    assert buf[..][..n] == buf[..];
    ReadDigits(b, buf[..], radix);
  }

  lemma WrittenDigits(buf: seq<char>, v: nat, radix: nat, n: nat)
    requires ValidRadix(radix) && Written(buf, v, radix, 0, n)
    ensures n <= |buf| && forall i :: 0 <= i < n ==> ToDigit(buf[i]) == DigitAt(v, radix, n - 1 - i)
  {
    hide Pow, ToDigit, DigitAt;
  }
}
