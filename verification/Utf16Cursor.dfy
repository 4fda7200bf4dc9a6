/** Cursors over the subject buffer: 8-bit units, 16-bit units, or UTF-16 with surrogate pairs. The matcher thinks in
  * character indices; here the cursor moves on units are shown to be moves by one index. */
module Utf16Cursor {

  type CodeUnit = n: nat | n < 0x10000

  /** The units of a subject; pairs tells that two surrogates make one character (cbuf_type 2). */
  datatype Buffer = Buffer(units: seq<CodeUnit>, pairs: bool)

  predicate IsHiSurrogate(c: nat) { c / 0x400 == 0xd800 / 0x400 }

  predicate IsLoSurrogate(c: nat) { c / 0x400 == 0xdc00 / 0x400 }

  function FromSurrogate(hi: nat, lo: nat): nat
    requires IsHiSurrogate(hi) && IsLoSurrogate(lo)
  {
    0x10000 + 0x400 * (hi - 0xd800) + (lo - 0xdc00)
  }

  /** A pair starts at unit p. */
  predicate PairAt(b: Buffer, p: int) {
    b.pairs && 0 <= p && p + 1 < |b.units| && IsHiSurrogate(b.units[p]) && IsLoSurrogate(b.units[p + 1])
  }

  function UnitsAt(b: Buffer, p: nat): nat { if PairAt(b, p) then 2 else 1 }

  function CharAt(b: Buffer, p: nat): nat
    requires p < |b.units|
  {
    if PairAt(b, p) then FromSurrogate(b.units[p], b.units[p + 1]) else b.units[p]
  }

  /** The characters from unit p on: the subject that patterns are matched against. */
  function Chars(b: Buffer, p: nat): (r: seq<nat>)
    requires p <= |b.units|
    decreases |b.units| - p
  {
    if p == |b.units| then [] else [CharAt(b, p)] + Chars(b, p + UnitsAt(b, p))
  }

  /** Unit offset of character i. */
  function Offset(b: Buffer, i: nat): nat
    decreases i
  {
    if i == 0 then 0 else Offset(b, i - 1) + UnitsAt(b, Offset(b, i - 1))
  }

  lemma {:induction false} CharsFrom(b: Buffer, i: nat)
    requires i <= |Chars(b, 0)|
    ensures Offset(b, i) <= |b.units| && Chars(b, Offset(b, i)) == Chars(b, 0)[i..]
  {
    hide CharAt;
    if i > 0 {
      var q := Offset(b, i - 1);
      CharsFrom(b, i - 1);
      assert q < |b.units|;
      assert Chars(b, 0)[i..] == Chars(b, 0)[i - 1..][1..];
    }
  }

  /** No character boundary splits a pair. */
  lemma BoundaryUnsplit(b: Buffer, i: nat)
    ensures !PairAt(b, Offset(b, i) - 1)
  {
    if i > 0 {
      var q := Offset(b, i - 1);
      if PairAt(b, q) { HiNotLo(b.units[q + 1]); }
    }
  }

  lemma HiNotLo(c: nat)
    ensures !(IsHiSurrogate(c) && IsLoSurrogate(c))
  {
  }

  /** The unit where the character before unit p starts. */
  function Before(b: Buffer, p: nat): nat
    requires p > 0
  {
    if PairAt(b, p - 2) then p - 2 else p - 1
  }

  /** Going back from the boundary after a character finds the boundary before it. */
  lemma BeforeBoundary(b: Buffer, i: nat)
    requires i > 0
    ensures Offset(b, i) > 0 && Before(b, Offset(b, i)) == Offset(b, i - 1)
  {
    var q := Offset(b, i - 1);
    BoundaryUnsplit(b, i - 1);
    BoundaryUnsplit(b, i);
  }

  // ----- the cursor moves -----

  /** GET_CHAR. */
  method GetChar(b: Buffer, p: nat) returns (c: nat, next: nat)
    requires p < |b.units|
    ensures c == CharAt(b, p) && next == p + UnitsAt(b, p)
  {
    c, next := b.units[p], p + 1;
    if IsHiSurrogate(c) && b.pairs {
      if next < |b.units| && IsLoSurrogate(b.units[next]) {
        c := FromSurrogate(c, b.units[next]);
        next := next + 1;
      }
    }
  }

  /** PEEK_CHAR. */
  method PeekChar(b: Buffer, p: nat) returns (c: nat)
    requires p < |b.units|
    ensures c == CharAt(b, p)
  {
    var next: nat;
    c, next := GetChar(b, p);
  }

  /** GET_PREV_CHAR. */
  method GetPrevChar(b: Buffer, p: nat) returns (c: nat, prev: nat)
    requires 0 < p <= |b.units|
    ensures prev == Before(b, p) && (!PairAt(b, p - 1) ==> c == CharAt(b, prev))
  {
    prev := p - 1;
    c := b.units[prev];
    if IsLoSurrogate(c) && b.pairs {
      if prev > 0 && IsHiSurrogate(b.units[prev - 1]) {
        prev := prev - 1;
        c := FromSurrogate(b.units[prev], c);
      }
    }
  }

  /** PREV_CHAR. */
  method PrevChar(b: Buffer, p: nat) returns (prev: nat)
    requires 0 < p <= |b.units|
    ensures prev == Before(b, p)
  {
    prev := p - 1;
    if IsLoSurrogate(b.units[prev]) && b.pairs {
      if prev > 0 && IsHiSurrogate(b.units[prev - 1]) { prev := prev - 1; }
    }
  }

  /** lre_exec: a start inside a pair is moved to its first half. */
  method StartCursor(b: Buffer, cindex: nat) returns (p: nat)
    requires cindex <= |b.units|
    ensures p == if PairAt(b, cindex - 1) then cindex - 1 else cindex
  {
    p := cindex;
    if 0 < cindex < |b.units| && b.pairs {
      if IsLoSurrogate(b.units[p]) && IsHiSurrogate(b.units[p - 1]) { p := p - 1; }
    }
  }

  // ----- what they mean in character indices -----

  /** Reading at the boundary before character i yields it and stops at the next boundary. */
  lemma ReadsForward(b: Buffer, i: nat)
    requires i < |Chars(b, 0)|
    ensures Offset(b, i) < |b.units| && CharAt(b, Offset(b, i)) == Chars(b, 0)[i]
    ensures Offset(b, i) + UnitsAt(b, Offset(b, i)) == Offset(b, i + 1) <= |b.units|
  {
    hide CharAt, UnitsAt;
    CharsFrom(b, i);
    CharsFrom(b, i + 1);
    assert Chars(b, 0)[i..][0] == Chars(b, 0)[i];
  }

  /** Reading backward at the boundary after it does the same in reverse. */
  lemma ReadsBackward(b: Buffer, i: nat)
    requires 0 < i <= |Chars(b, 0)|
    ensures 0 < Offset(b, i) <= |b.units| && !PairAt(b, Offset(b, i) - 1)
    ensures Before(b, Offset(b, i)) == Offset(b, i - 1) && CharAt(b, Offset(b, i - 1)) == Chars(b, 0)[i - 1]
  {
    hide CharAt;
    CharsFrom(b, i);
    BeforeBoundary(b, i);
    BoundaryUnsplit(b, i);
    ReadsForward(b, i - 1);
  }

  lemma {:induction false} OffsetGrows(b: Buffer, i: nat, j: nat)
    requires i < j
    ensures Offset(b, i) < Offset(b, j)
    decreases j
  {
    if i < j - 1 { OffsetGrows(b, i, j - 1); }
  }

  /** Cursor comparisons are index comparisons, and the ends of the buffer are the ends of the subject. */
  lemma OffsetOrder(b: Buffer, i: nat, j: nat)
    requires i <= |Chars(b, 0)| && j <= |Chars(b, 0)|
    ensures Offset(b, i) < Offset(b, j) <==> i < j
    ensures (Offset(b, i) == |b.units| <==> i == |Chars(b, 0)|) && (Offset(b, i) == 0 <==> i == 0)
  {
    if i < j { OffsetGrows(b, i, j); }
    if j < i { OffsetGrows(b, j, i); }
    if 0 < i { OffsetGrows(b, 0, i); }
    CharsFrom(b, i);
    CharsFrom(b, |Chars(b, 0)|);
  }

  /** A unit that is not inside a pair is a boundary. */
  lemma {:induction false} UnsplitHasIndex(b: Buffer, p: nat)
    requires p <= |b.units| && !PairAt(b, p - 1)
    ensures IndexFrom(b, p) <= |Chars(b, 0)| && Offset(b, IndexFrom(b, p)) == p
    decreases p
  {
    if p > 0 {
      var q := Before(b, p);
      if PairAt(b, p - 2) { HiNotLo(b.units[p - 2]); }
      UnsplitHasIndex(b, q);
      CharsFrom(b, IndexFrom(b, q));
    }
  }

  /** The index of the character that starts at a boundary. */
  function IndexOf(b: Buffer, p: nat): (i: nat)
    requires p <= |b.units| && !PairAt(b, p - 1)
    ensures i <= |Chars(b, 0)| && Offset(b, i) == p
  {
    UnsplitHasIndex(b, p);
    IndexFrom(b, p)
  }

  function IndexFrom(b: Buffer, p: nat): nat { if p == 0 then 0 else 1 + IndexFrom(b, Before(b, p)) }

  /** Every start index becomes the greatest boundary not above it. */
  lemma StartIsBoundary(b: Buffer, cindex: nat)
    requires cindex <= |b.units|
    ensures var p := if PairAt(b, cindex - 1) then cindex - 1 else cindex;
      !PairAt(b, p - 1) && p <= cindex < Offset(b, IndexOf(b, p) + 1)
  {
    if PairAt(b, cindex - 1) {
      HiNotLo(b.units[cindex - 1]);
    }
  }

  /** The units of a character. */
  function Units(b: Buffer, c: nat): seq<nat> {
    if b.pairs && c >= 0x10000 then [0xd800 + (c - 0x10000) / 0x400, 0xdc00 + (c - 0x10000) % 0x400] else [c]
  }

  function AllUnits(b: Buffer, cs: seq<nat>): seq<nat> { if cs == [] then [] else Units(b, cs[0]) + AllUnits(b, cs[1..]) }

  /** One character encodes back to its units. */
  lemma CharUnits(b: Buffer, p: nat)
    requires p < |b.units|
    ensures p < p + UnitsAt(b, p) <= |b.units| && Units(b, CharAt(b, p)) == b.units[p..p + UnitsAt(b, p)] && CharAt(b, p) <= 0x10ffff
  {
    if PairAt(b, p) {
      var hi: nat, lo: nat := b.units[p] - 0xd800, b.units[p + 1] - 0xdc00;
      assert FromSurrogate(b.units[p], b.units[p + 1]) - 0x10000 == 0x400 * hi + lo;
      assert (0x400 * hi + lo) / 0x400 == hi && (0x400 * hi + lo) % 0x400 == lo;
    }
  }

  /** The characters determine the buffer, and none exceeds U+10FFFF. */
  lemma {:induction false} CharsRoundTrip(b: Buffer, p: nat)
    requires p <= |b.units|
    ensures AllUnits(b, Chars(b, p)) == b.units[p..]
    ensures forall i :: 0 <= i < |Chars(b, p)| ==> Chars(b, p)[i] <= 0x10ffff
    decreases |b.units| - p
  {
    hide CharAt, UnitsAt, Units;
    if p < |b.units| {
      var n := UnitsAt(b, p);
      CharUnits(b, p);
      CharsRoundTrip(b, p + n);
      assert b.units[p..] == b.units[p..p + n] + b.units[p + n..];
      assert Chars(b, p)[1..] == Chars(b, p + n);
    }
  }
}
