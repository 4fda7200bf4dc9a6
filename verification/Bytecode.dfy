/** Instructions of the regular-expression machine and their byte encoding: one opcode byte, then
  * little-endian operands; jump operands are relative to the end of the instruction. */
module Bytecode {
  import opened Wrappers
  import opened RegexSyntax

  type byte = x: int | 0 <= x < 256

  const WORD: nat := 0x1_0000_0000

  datatype Instr =
    | IChar(wide: bool, icase: bool, c: nat)
    | IDot
    | IAny
    | ISpace(negated: bool)
    | ILineStart(multi: bool)
    | ILineEnd(multi: bool)
    | IGoto(off: int)
    | ISplit(nextFirst: bool, off: int)
    | IMatch
    | ILookMatch(negated: bool)
    | ISave(end: bool, i: nat)
    | IReset(lo: nat, hi: nat)
    | ILoop(r: nat, off: int)
    | ILoopSplit(adv: bool, nextFirst: bool, r: nat, limit: nat, off: int)
    | ISetI32(r: nat, v: nat)
    | IWordBoundary(negated: bool, icase: bool)
    | IBackRef(back: bool, icase: bool, refs: seq<nat>)
    | IRange(wide: bool, icase: bool, ranges: seq<(nat, nat)>)
    | ILook(negated: bool, off: int)
    | ISetPos(r: nat)
    | ICheckAdv(r: nat)
    | IPrev

  // Opcode numbers, in the order the opcode table lists them.
  const OP_CHAR: byte := 1
  const OP_CHAR32: byte := 3
  const OP_DOT: byte := 5
  const OP_ANY: byte := 6
  const OP_SPACE: byte := 7
  const OP_LINE_START: byte := 9
  const OP_LINE_END: byte := 11
  const OP_GOTO: byte := 13
  const OP_SPLIT_GOTO_FIRST: byte := 14
  const OP_MATCH: byte := 16
  const OP_LOOKAHEAD_MATCH: byte := 17
  const OP_SAVE_START: byte := 19
  const OP_SAVE_RESET: byte := 21
  const OP_LOOP: byte := 22
  const OP_LOOP_SPLIT_GOTO_FIRST: byte := 23
  const OP_LOOP_CHECK_ADV_SPLIT_GOTO_FIRST: byte := 25
  const OP_SET_I32: byte := 27
  const OP_WORD_BOUNDARY: byte := 28
  const OP_BACK_REFERENCE: byte := 32
  const OP_RANGE: byte := 36
  const OP_RANGE32: byte := 38
  const OP_LOOKAHEAD: byte := 40
  const OP_SET_CHAR_POS: byte := 42
  const OP_CHECK_ADVANCE: byte := 43
  const OP_PREV: byte := 44

  function Flag(b: bool): (r: byte)
    ensures r <= 1
  {
    if b then 1 else 0
  }

  function U16(v: nat): (r: seq<byte>) { [v % 256, v / 256 % 256] }

  /** The low 32 bits of `v`, in two's complement. */
  function U32(v: int): (r: seq<byte>) {
    [v % 256, v / 256 % 256, v / 65536 % 256, v / 16777216 % 256]
  }

  function GetU16(b: seq<byte>, p: nat): (r: nat)
    requires p + 2 <= |b|
    ensures r < 0x1_0000
  {
    b[p] as int + 256 * b[p + 1] as int
  }

  function GetU32(b: seq<byte>, p: nat): (r: nat)
    requires p + 4 <= |b|
    ensures r < WORD
  {
    b[p] as int + 256 * b[p + 1] as int + 65536 * b[p + 2] as int + 16777216 * b[p + 3] as int
  }

  /** A 32-bit word read as a signed number. */
  function Signed(w: nat): int { if w < 0x8000_0000 then w else w - WORD }

  predicate Fits32(v: int) { -0x8000_0000 <= v < 0x8000_0000 }

  /** `b` holds the bytes `x` from offset `p` on. */
  predicate Holds(b: seq<byte>, p: nat, x: seq<byte>) {
    p + |x| <= |b| && forall k :: 0 <= k < |x| ==> x[k] == b[p + k]
  }

  lemma HoldsSplit(b: seq<byte>, p: nat, x: seq<byte>, y: seq<byte>)
    requires Holds(b, p, x + y)
    ensures Holds(b, p, x) && Holds(b, p + |x|, y)
  {
    assert forall k :: 0 <= k < |x| ==> x[k] == (x + y)[k];
    assert forall k :: 0 <= k < |y| ==> y[k] == (x + y)[|x| + k];
  }

  lemma U32RoundTrip(v: int, b: seq<byte>, p: nat)
    requires -0x8000_0000 <= v < WORD && Holds(b, p, U32(v))
    ensures GetU32(b, p) == v % WORD
    ensures Fits32(v) ==> Signed(GetU32(b, p)) == v
  {
    assert b[p] == U32(v)[0] && b[p + 1] == U32(v)[1] && b[p + 2] == U32(v)[2] && b[p + 3] == U32(v)[3];
    var q1, q2, q3 := v / 256, v / 65536, v / 16777216;
    assert q2 == q1 / 256 && q3 == q2 / 256;
    assert v == v % 256 + 256 * q1 && q1 == q1 % 256 + 256 * q2 && q2 == q2 % 256 + 256 * q3;
    assert -128 <= q3 < 256;
  }

  lemma U16RoundTrip(v: nat, b: seq<byte>, p: nat)
    requires v < 0x1_0000 && Holds(b, p, U16(v))
    ensures GetU16(b, p) == v
  {
    assert b[p] == U16(v)[0] && b[p + 1] == U16(v)[1];
  }

  function EncodeRanges(wide: bool, rs: seq<(nat, nat)>): (r: seq<byte>)
    ensures |r| == |rs| * (if wide then 8 else 4)
  {
    if rs == [] then []
    else if wide then U32(rs[0].0) + U32(rs[0].1) + EncodeRanges(wide, rs[1..])
    else U16(rs[0].0) + U16(rs[0].1) + EncodeRanges(wide, rs[1..])
  }

  function EncodeRefs(refs: seq<nat>): (r: seq<byte>)
    ensures |r| == |refs|
  {
    if refs == [] then [] else [refs[0] % 256] + EncodeRefs(refs[1..])
  }

  function Encode(i: Instr): (r: seq<byte>)
    ensures |r| > 0
  {
    match i
    case IChar(wide, icase, c) =>
      if wide then [OP_CHAR32 + Flag(icase)] + U32(c) else [OP_CHAR + Flag(icase)] + U16(c)
    case IDot => [OP_DOT]
    case IAny => [OP_ANY]
    case ISpace(negated) => [OP_SPACE + Flag(negated)]
    case ILineStart(multi) => [OP_LINE_START + Flag(multi)]
    case ILineEnd(multi) => [OP_LINE_END + Flag(multi)]
    case IGoto(off) => [OP_GOTO] + U32(off)
    case ISplit(nextFirst, off) => [OP_SPLIT_GOTO_FIRST + Flag(nextFirst)] + U32(off)
    case IMatch => [OP_MATCH]
    case ILookMatch(negated) => [OP_LOOKAHEAD_MATCH + Flag(negated)]
    case ISave(end, i) => [OP_SAVE_START + Flag(end), i % 256]
    case IReset(lo, hi) => [OP_SAVE_RESET, lo % 256, hi % 256]
    case ILoop(r, off) => [OP_LOOP, r % 256] + U32(off)
    case ILoopSplit(adv, nextFirst, r, limit, off) =>
      [(if adv then OP_LOOP_CHECK_ADV_SPLIT_GOTO_FIRST else OP_LOOP_SPLIT_GOTO_FIRST) + Flag(nextFirst), r % 256]
      + U32(limit) + U32(off)
    case ISetI32(r, v) => [OP_SET_I32, r % 256] + U32(v)
    case IWordBoundary(negated, icase) => [OP_WORD_BOUNDARY + 2 * Flag(negated) + Flag(icase)]
    case IBackRef(back, icase, refs) =>
      [OP_BACK_REFERENCE + 2 * Flag(back) + Flag(icase), |refs| % 256] + EncodeRefs(refs)
    case IRange(wide, icase, ranges) =>
      [(if wide then OP_RANGE32 else OP_RANGE) + Flag(icase)] + U16(|ranges|) + EncodeRanges(wide, ranges)
    case ILook(negated, off) => [OP_LOOKAHEAD + Flag(negated)] + U32(off)
    case ISetPos(r) => [OP_SET_CHAR_POS, r % 256]
    case ICheckAdv(r) => [OP_CHECK_ADVANCE, r % 256]
    case IPrev => [OP_PREV]
  }

  function ISize(i: Instr): (r: nat)
    ensures r > 0
  {
    |Encode(i)|
  }

  /** Operands that survive encoding. */
  predicate ValidInstr(i: Instr) {
    match i
    case IChar(wide, _, c) => c < (if wide then WORD else 0x1_0000)
    case IGoto(off) => Fits32(off)
    case ISplit(_, off) => Fits32(off)
    case ISave(_, i) => i < 256
    case IReset(lo, hi) => lo <= hi < 256
    case ILoop(r, off) => r < 256 && Fits32(off)
    case ILoopSplit(_, _, r, limit, off) => r < 256 && limit < WORD && Fits32(off)
    case ISetI32(r, v) => r < 256 && v < WORD
    case IBackRef(_, _, refs) => |refs| < 256 && forall k :: 0 <= k < |refs| ==> refs[k] < 256
    case IRange(wide, _, rs) => 1 <= |rs| < 0x1_0000 && ValidRanges(wide, rs)
    case ILook(_, off) => Fits32(off)
    case ISetPos(r) => r < 256
    case ICheckAdv(r) => r < 256
    case _ => true
  }

  function FetchRanges(b: seq<byte>, p: nat, n: nat, wide: bool): (r: seq<(nat, nat)>)
    requires p + n * (if wide then 8 else 4) <= |b|
    ensures |r| == n
    decreases n
  {
    if n == 0 then []
    else if wide then [(GetU32(b, p), GetU32(b, p + 4))] + FetchRanges(b, p + 8, n - 1, wide)
    else [(GetU16(b, p), GetU16(b, p + 2))] + FetchRanges(b, p + 4, n - 1, wide)
  }

  function FetchRefs(b: seq<byte>, p: nat, n: nat): (r: seq<nat>)
    requires p + n <= |b|
    ensures |r| == n
    decreases n
  {
    if n == 0 then [] else [b[p] as nat] + FetchRefs(b, p + 1, n - 1)
  }

  /** Instructions without a jump. */
  function FetchPlain(b: seq<byte>, pc: nat): Option<Instr>
    requires pc < |b|
  {
    var op, left := b[pc], |b| - pc;
    if op == 1 || op == 2 then if left >= 3 then Some(IChar(false, op == 2, GetU16(b, pc + 1))) else None
    else if op == 3 || op == 4 then if left >= 5 then Some(IChar(true, op == 4, GetU32(b, pc + 1))) else None
    else if op == 5 then Some(IDot)
    else if op == 6 then Some(IAny)
    else if op == 7 || op == 8 then Some(ISpace(op == 8))
    else if op == 9 || op == 10 then Some(ILineStart(op == 10))
    else if op == 11 || op == 12 then Some(ILineEnd(op == 12))
    else if op == 16 then Some(IMatch)
    else if op == 17 || op == 18 then Some(ILookMatch(op == 18))
    else if op == 19 || op == 20 then if left >= 2 then Some(ISave(op == 20, b[pc + 1])) else None
    else if op == 21 then if left >= 3 then Some(IReset(b[pc + 1], b[pc + 2])) else None
    else if op == 27 then if left >= 6 then Some(ISetI32(b[pc + 1], GetU32(b, pc + 2))) else None
    else if 28 <= op <= 31 then Some(IWordBoundary(op >= 30, op % 2 == 1))
    else if op == 42 then if left >= 2 then Some(ISetPos(b[pc + 1])) else None
    else if op == 43 then if left >= 2 then Some(ICheckAdv(b[pc + 1])) else None
    else if op == 44 then Some(IPrev)
    else None
  }

  /** Instructions with a jump operand. */
  function FetchJump(b: seq<byte>, pc: nat): Option<Instr>
    requires pc < |b|
  {
    var op, left := b[pc], |b| - pc;
    if op == 22 then if left >= 6 then Some(ILoop(b[pc + 1], Signed(GetU32(b, pc + 2)))) else None
    else if 23 <= op <= 26 then
      if left >= 10 then Some(ILoopSplit(op >= 25, op % 2 == 0, b[pc + 1], GetU32(b, pc + 2), Signed(GetU32(b, pc + 6)))) else None
    else if left < 5 then None
    else if op == 13 then Some(IGoto(Signed(GetU32(b, pc + 1))))
    else if op == 14 || op == 15 then Some(ISplit(op == 15, Signed(GetU32(b, pc + 1))))
    else if op == 40 || op == 41 then Some(ILook(op == 41, Signed(GetU32(b, pc + 1))))
    else None
  }

  /** Instructions of variable length. */
  function FetchLong(b: seq<byte>, pc: nat): Option<Instr>
    requires pc < |b|
  {
    var op, left := b[pc], |b| - pc;
    if 32 <= op <= 35 then
      if left >= 2 && left >= 2 + b[pc + 1] as int then Some(IBackRef(op >= 34, op % 2 == 1, FetchRefs(b, pc + 2, b[pc + 1]))) else None
    else if left < 3 then None
    else if op == 36 || op == 37 then
      if left >= 3 + 4 * GetU16(b, pc + 1) && GetU16(b, pc + 1) >= 1 then Some(IRange(false, op == 37, FetchRanges(b, pc + 3, GetU16(b, pc + 1), false))) else None
    else if op == 38 || op == 39 then
      if left >= 3 + 8 * GetU16(b, pc + 1) && GetU16(b, pc + 1) >= 1 then Some(IRange(true, op == 39, FetchRanges(b, pc + 3, GetU16(b, pc + 1), true))) else None
    else None
  }

  function IsJumpOp(op: byte): bool { 13 <= op <= 15 || 22 <= op <= 26 || 40 <= op <= 41 }
  function IsLongOp(op: byte): bool { 32 <= op <= 39 }

  /** The instruction at byte offset `pc`, if one is there. */
  function Fetch(b: seq<byte>, pc: int): Option<Instr> {
    if pc < 0 || pc >= |b| then None
    else if IsJumpOp(b[pc]) then FetchJump(b, pc)
    else if IsLongOp(b[pc]) then FetchLong(b, pc)
    else FetchPlain(b, pc)
  }

  lemma {:induction false} RefsRoundTrip(refs: seq<nat>, b: seq<byte>, p: nat)
    requires forall k :: 0 <= k < |refs| ==> refs[k] < 256
    requires Holds(b, p, EncodeRefs(refs))
    ensures FetchRefs(b, p, |refs|) == refs
  {
    if refs != [] {
      HoldsSplit(b, p, [(refs[0] % 256) as byte], EncodeRefs(refs[1..]));
      RefsRoundTrip(refs[1..], b, p + 1);
      assert b[p] == [(refs[0] % 256) as byte][0];
    }
  }

  predicate ValidRanges(wide: bool, rs: seq<(nat, nat)>) {
    var bound := if wide then WORD else 0x1_0000;
    forall k :: 0 <= k < |rs| ==> rs[k].0 < bound && rs[k].1 < bound
  }

  lemma {:induction false} Ranges16RoundTrip(rs: seq<(nat, nat)>, b: seq<byte>, p: nat)
    requires ValidRanges(false, rs) && Holds(b, p, EncodeRanges(false, rs))
    ensures FetchRanges(b, p, |rs|, false) == rs
  {
    if rs != [] {
      var lo, hi := U16(rs[0].0), U16(rs[0].1);
      HoldsSplit(b, p, lo + hi, EncodeRanges(false, rs[1..]));
      HoldsSplit(b, p, lo, hi);
      U16RoundTrip(rs[0].0, b, p);
      U16RoundTrip(rs[0].1, b, p + 2);
      Ranges16RoundTrip(rs[1..], b, p + 4);
    }
  }

  lemma Pair32RoundTrip(lo: nat, hi: nat, rest: seq<byte>, b: seq<byte>, p: nat)
    requires lo < WORD && hi < WORD && Holds(b, p, U32(lo) + U32(hi) + rest)
    ensures p + 8 <= |b| && GetU32(b, p) == lo && GetU32(b, p + 4) == hi && Holds(b, p + 8, rest)
  {
    hide *;
    U32Length(lo);
    U32Length(hi);
    HoldsSplit(b, p, U32(lo) + U32(hi), rest);
    HoldsSplit(b, p, U32(lo), U32(hi));
    HoldsBound(b, p + 4, U32(hi));
    U32RoundTrip(lo, b, p);
    U32RoundTrip(hi, b, p + 4);
    SmallMod(lo);
    SmallMod(hi);
  }

  lemma U32Length(v: int)
    ensures |U32(v)| == 4
  {
  }

  lemma HoldsBound(b: seq<byte>, p: nat, x: seq<byte>)
    requires Holds(b, p, x)
    ensures p + |x| <= |b|
  {
  }

  lemma SmallMod(v: nat)
    requires v < WORD
    ensures v % WORD == v && -0x8000_0000 <= v < WORD
  {
  }

  lemma {:induction false} Ranges32RoundTrip(rs: seq<(nat, nat)>, b: seq<byte>, p: nat)
    requires ValidRanges(true, rs) && Holds(b, p, EncodeRanges(true, rs))
    ensures FetchRanges(b, p, |rs|, true) == rs
  {
    hide ValidRanges, Holds, U32, GetU32;
    if rs != [] {
      ValidRangesHead(true, rs);
      Pair32RoundTrip(rs[0].0, rs[0].1, EncodeRanges(true, rs[1..]), b, p);
      Ranges32RoundTrip(rs[1..], b, p + 8);
    }
  }

  lemma ValidRangesHead(wide: bool, rs: seq<(nat, nat)>)
    requires ValidRanges(wide, rs) && rs != []
    ensures rs[0].0 < (if wide then WORD else 0x1_0000) && rs[0].1 < (if wide then WORD else 0x1_0000)
    ensures ValidRanges(wide, rs[1..])
  {
  }

  predicate EncodedAt(b: seq<byte>, pc: nat, i: Instr) {
    Holds(b, pc, Encode(i))
  }

  lemma FetchEncodedPlain(b: seq<byte>, pc: nat, i: Instr)
    requires EncodedAt(b, pc, i) && ValidInstr(i) && !IsJumpOp(Encode(i)[0]) && !IsLongOp(Encode(i)[0])
    ensures Fetch(b, pc) == Some(i)
  {
    var e := Encode(i);
    assert b[pc] == e[0];
    match i {
      case IChar(wide, icase, c) => FetchEncodedChar(b, pc, wide, icase, c);
      case ISave(_, _) => assert b[pc + 1] == e[1];
      case IReset(_, _) => assert b[pc + 1] == e[1] && b[pc + 2] == e[2];
      case ISetPos(_) => assert b[pc + 1] == e[1];
      case ICheckAdv(_) => assert b[pc + 1] == e[1];
      case ISetI32(r, v) => FetchEncodedSetI32(b, pc, r, v);
      case _ =>
    }
  }

  lemma FetchEncodedChar(b: seq<byte>, pc: nat, wide: bool, icase: bool, c: nat)
    requires EncodedAt(b, pc, IChar(wide, icase, c)) && c < (if wide then WORD else 0x1_0000)
    ensures Fetch(b, pc) == Some(IChar(wide, icase, c))
  {
    var op := (if wide then OP_CHAR32 else OP_CHAR) + Flag(icase);
    assert b[pc] == Encode(IChar(wide, icase, c))[0];
    if wide {
      HoldsSplit(b, pc, [op], U32(c));
      U32RoundTrip(c, b, pc + 1);
    } else {
      HoldsSplit(b, pc, [op], U16(c));
      U16RoundTrip(c, b, pc + 1);
    }
  }

  lemma FetchEncodedSetI32(b: seq<byte>, pc: nat, r: nat, v: nat)
    requires EncodedAt(b, pc, ISetI32(r, v)) && r < 256 && v < WORD
    ensures Fetch(b, pc) == Some(ISetI32(r, v))
  {
    HoldsSplit(b, pc, [OP_SET_I32, r % 256], U32(v));
    assert b[pc] == [OP_SET_I32, r % 256][0] && b[pc + 1] == [OP_SET_I32, r % 256][1];
    U32RoundTrip(v, b, pc + 2);
  }

  lemma FetchEncodedLoop(b: seq<byte>, pc: nat, r: nat, off: int)
    requires EncodedAt(b, pc, ILoop(r, off)) && r < 256 && Fits32(off)
    ensures Fetch(b, pc) == Some(ILoop(r, off))
  {
    HoldsSplit(b, pc, [OP_LOOP, r % 256], U32(off));
    assert b[pc] == [OP_LOOP, r % 256][0] && b[pc + 1] == [OP_LOOP, r % 256][1];
    U32RoundTrip(off, b, pc + 2);
  }

  lemma LoopSplitOperands(b: seq<byte>, pc: nat, head: seq<byte>, limit: nat, off: int)
    requires |head| == 2 && Holds(b, pc, head + U32(limit) + U32(off)) && limit < WORD && Fits32(off)
    ensures pc + 10 <= |b| && b[pc] == head[0] && b[pc + 1] == head[1]
    ensures GetU32(b, pc + 2) == limit && Signed(GetU32(b, pc + 6)) == off
  {
    HoldsSplit(b, pc, head + U32(limit), U32(off));
    HoldsSplit(b, pc, head, U32(limit));
    U32RoundTrip(limit, b, pc + 2);
    U32RoundTrip(off, b, pc + 6);
  }

  lemma FetchEncodedLoopSplit(b: seq<byte>, pc: nat, adv: bool, nextFirst: bool, r: nat, limit: nat, off: int)
    requires EncodedAt(b, pc, ILoopSplit(adv, nextFirst, r, limit, off)) && r < 256 && limit < WORD && Fits32(off)
    ensures Fetch(b, pc) == Some(ILoopSplit(adv, nextFirst, r, limit, off))
  {
    hide Holds, U32, GetU32, Signed;
    var head: seq<byte> :=
      [(if adv then OP_LOOP_CHECK_ADV_SPLIT_GOTO_FIRST else OP_LOOP_SPLIT_GOTO_FIRST) + Flag(nextFirst), r % 256];
    U32Length(limit);
    U32Length(off);
    LoopSplitOperands(b, pc, head, limit, off);
  }

  lemma FetchEncodedJump(b: seq<byte>, pc: nat, i: Instr)
    requires EncodedAt(b, pc, i) && ValidInstr(i) && IsJumpOp(Encode(i)[0])
    ensures Fetch(b, pc) == Some(i)
  {
    match i {
      case ILoop(r, off) => FetchEncodedLoop(b, pc, r, off);
      case ILoopSplit(adv, nextFirst, r, limit, off) => FetchEncodedLoopSplit(b, pc, adv, nextFirst, r, limit, off);
      case IGoto(off) => FetchEncodedOffset(b, pc, i, OP_GOTO, off);
      case ISplit(nextFirst, off) => FetchEncodedOffset(b, pc, i, OP_SPLIT_GOTO_FIRST + Flag(nextFirst), off);
      case ILook(negated, off) => FetchEncodedOffset(b, pc, i, OP_LOOKAHEAD + Flag(negated), off);
      case _ =>
    }
  }

  lemma FetchEncodedOffset(b: seq<byte>, pc: nat, i: Instr, op: byte, off: int)
    requires EncodedAt(b, pc, i) && Encode(i) == [op] + U32(off) && Fits32(off)
    ensures b[pc] == op && pc + 5 <= |b| && Signed(GetU32(b, pc + 1)) == off
  {
    HoldsSplit(b, pc, [op], U32(off));
    assert b[pc] == [op][0];
    U32RoundTrip(off, b, pc + 1);
  }

  lemma BackRefOperands(b: seq<byte>, pc: nat, head: seq<byte>, refs: seq<nat>)
    requires |head| == 2 && Holds(b, pc, head + EncodeRefs(refs)) && forall k :: 0 <= k < |refs| ==> refs[k] < 256
    ensures pc + 2 + |refs| <= |b| && b[pc] == head[0] && b[pc + 1] == head[1]
    ensures FetchRefs(b, pc + 2, |refs|) == refs
  {
    HoldsSplit(b, pc, head, EncodeRefs(refs));
    RefsRoundTrip(refs, b, pc + 2);
  }

  lemma FetchEncodedBackRef(b: seq<byte>, pc: nat, back: bool, icase: bool, refs: seq<nat>)
    requires EncodedAt(b, pc, IBackRef(back, icase, refs)) && |refs| < 256
    requires forall k :: 0 <= k < |refs| ==> refs[k] < 256
    ensures Fetch(b, pc) == Some(IBackRef(back, icase, refs))
  {
    hide Holds, FetchRefs, EncodeRefs;
    var head: seq<byte> := [OP_BACK_REFERENCE + 2 * Flag(back) + Flag(icase), |refs| % 256];
    BackRefOperands(b, pc, head, refs);
  }

  lemma FetchEncodedRange(b: seq<byte>, pc: nat, wide: bool, icase: bool, rs: seq<(nat, nat)>)
    requires EncodedAt(b, pc, IRange(wide, icase, rs)) && 1 <= |rs| < 0x1_0000 && ValidRanges(wide, rs)
    ensures Fetch(b, pc) == Some(IRange(wide, icase, rs))
  {
    var head: seq<byte> := [(if wide then OP_RANGE32 else OP_RANGE) + Flag(icase)];
    HoldsSplit(b, pc, head + U16(|rs|), EncodeRanges(wide, rs));
    HoldsSplit(b, pc, head, U16(|rs|));
    assert b[pc] == head[0];
    U16RoundTrip(|rs|, b, pc + 1);
    if wide { Ranges32RoundTrip(rs, b, pc + 3); } else { Ranges16RoundTrip(rs, b, pc + 3); }
  }

  /** Decoding an encoded instruction gives it back, wherever it sits. */
  lemma FetchEncoded(b: seq<byte>, pc: nat, i: Instr)
    requires EncodedAt(b, pc, i) && ValidInstr(i)
    ensures Fetch(b, pc) == Some(i)
  {
    hide Fetch;
    match i {
      case IBackRef(back, icase, refs) => FetchEncodedBackRef(b, pc, back, icase, refs);
      case IRange(wide, icase, rs) => FetchEncodedRange(b, pc, wide, icase, rs);
      case _ =>
        if IsJumpOp(Encode(i)[0]) { FetchEncodedJump(b, pc, i); } else { FetchEncodedPlain(b, pc, i); }
    }
  }

  // ----- instruction lists -----

  function Bytes(ins: seq<Instr>): (r: seq<byte>) {
    if ins == [] then [] else Encode(ins[0]) + Bytes(ins[1..])
  }

  function Size(ins: seq<Instr>): nat {
    if ins == [] then 0 else ISize(ins[0]) + Size(ins[1..])
  }

  predicate ValidCode(ins: seq<Instr>) {
    forall k :: 0 <= k < |ins| ==> ValidInstr(ins[k])
  }

  lemma {:induction false} BytesConcat(a: seq<Instr>, b: seq<Instr>)
    ensures Bytes(a + b) == Bytes(a) + Bytes(b)
    ensures Size(a + b) == Size(a) + Size(b)
  {
    if a == [] {
      assert a + b == b;
    } else {
      assert (a + b)[1..] == a[1..] + b;
      BytesConcat(a[1..], b);
    }
  }

  lemma {:induction false} BytesSize(ins: seq<Instr>)
    ensures |Bytes(ins)| == Size(ins)
  {
    if ins != [] { BytesSize(ins[1..]); }
  }

  /** The machine reads exactly the instructions `ins` from offset `pc` on. */
  predicate HasCode(b: seq<byte>, pc: int, ins: seq<Instr>)
    decreases |ins|
  {
    ins != [] ==> Fetch(b, pc) == Some(ins[0]) && HasCode(b, pc + ISize(ins[0]), ins[1..])
  }

  lemma SizeOne(i: Instr)
    ensures Size([i]) == ISize(i)
  {
    hide ISize;
    assert [i][1..] == [];
  }

  lemma HasCodeOne(b: seq<byte>, pc: int, i: Instr)
    requires HasCode(b, pc, [i])
    ensures Fetch(b, pc) == Some(i)
  {
    hide Fetch, ISize;
    assert [i][0] == i;
  }

  lemma HasCodeHead(b: seq<byte>, pc: int, i: Instr, rest: seq<Instr>)
    requires HasCode(b, pc, [i] + rest)
    ensures Fetch(b, pc) == Some(i) && HasCode(b, pc + ISize(i), rest)
    ensures Size([i] + rest) == ISize(i) + Size(rest)
  {
    hide Fetch, ISize;
    assert ([i] + rest)[0] == i && ([i] + rest)[1..] == rest;
  }

  lemma {:induction false} HasCodeSplit(b: seq<byte>, pc: int, xs: seq<Instr>, ys: seq<Instr>)
    requires HasCode(b, pc, xs + ys)
    ensures HasCode(b, pc, xs) && HasCode(b, pc + Size(xs), ys)
    decreases |xs|
  {
    hide Fetch, Encode;
    if xs == [] {
      assert xs + ys == ys;
    } else {
      assert (xs + ys)[1..] == xs[1..] + ys;
      HasCodeSplit(b, pc + ISize(xs[0]), xs[1..], ys);
    }
  }

  /** Encoded code is read back as it was written. */
  lemma {:induction false} EncodedHasCode(pre: seq<byte>, ins: seq<Instr>, post: seq<byte>)
    requires ValidCode(ins)
    ensures HasCode(pre + Bytes(ins) + post, |pre|, ins)
    decreases |ins|
  {
    hide Fetch, Encode, ValidInstr;
    if ins != [] {
      var b := pre + Bytes(ins) + post;
      var i := ins[0];
      assert forall k :: 0 <= k < ISize(i) ==> Encode(i)[k] == b[|pre| + k];
      FetchEncoded(b, |pre|, i);
      EncodedHasCode(pre + Encode(i), ins[1..], post);
      assert b == pre + Encode(i) + Bytes(ins[1..]) + post;
    }
  }
}
