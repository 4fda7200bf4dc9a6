/** The one-pass compiler: byte code is appended, shifted to open gaps, and patched in place. Every
  * method is proved to leave exactly the code that Emit gives for the pattern. */
module Compiler {
  import opened Wrappers
  import opened RegexSyntax
  import opened Bytecode
  import opened Emit
  import opened CodeScan
  import opened RegisterScan
  import opened CodeBounds

  // ----- terms and alternatives of a pattern, as the parser meets them -----

  function NodeSize(n: Node): (r: nat)
    ensures r > 0
  {
    match n
    case Cat(a, b) => 1 + NodeSize(a) + NodeSize(b)
    case Alt(a, b) => 1 + NodeSize(a) + NodeSize(b)
    case Group(b) => 1 + NodeSize(b)
    case Quant(b, _, _, _) => 1 + NodeSize(b)
    case Look(_, _, b) => 1 + NodeSize(b)
    case _ => 1
  }

  function TermsOf(n: Node): seq<Node> {
    match n
    case Empty => []
    case Cat(a, b) => TermsOf(a) + [b]
    case _ => [n]
  }

  function AltsOf(n: Node): (r: seq<Node>)
    ensures r != []
  {
    match n
    case Alt(a, b) => AltsOf(a) + [b]
    case _ => [n]
  }

  predicate AllValid(ns: seq<Node>) {
    forall k :: 0 <= k < |ns| ==> ValidNode(ns[k])
  }

  predicate AllFit(ns: seq<Node>) {
    forall k :: 0 <= k < |ns| ==> RangesFit(ns[k])
  }

  function GroupsOf(ns: seq<Node>): nat {
    if ns == [] then 0 else GroupsOf(ns[..|ns| - 1]) + Groups(ns[|ns| - 1])
  }

  /** Code of a run of terms. */
  function TermsCode(e: Env, ts: seq<Node>, cc: nat, back: bool): seq<Instr>
    requires AllValid(ts)
  {
    if ts == [] then [] else
    var init, last := ts[..|ts| - 1], ts[|ts| - 1];
    var before, code := TermsCode(e, init, cc, back), Code(e, last, cc + GroupsOf(init), back, false, 0);
    if back then code + before else before + code
  }

  function AltsCode(e: Env, alts: seq<Node>, cc: nat, back: bool): seq<Instr>
    requires AllValid(alts) && alts != []
  {
    if |alts| == 1 then Code(e, alts[0], cc, back, false, 0) else
    var init, last := alts[..|alts| - 1], alts[|alts| - 1];
    AltCode(AltsCode(e, init, cc, back), Code(e, last, cc + GroupsOf(init), back, false, 0))
  }

  /** One more term, or alternative, at the end. */
  lemma Snoc(e: Env, ns: seq<Node>, n: Node, cc: nat, back: bool)
    requires AllValid(ns) && ValidNode(n)
    ensures AllValid(ns + [n]) && GroupsOf(ns + [n]) == GroupsOf(ns) + Groups(n)
    ensures AllFit(ns + [n]) == (AllFit(ns) && RangesFit(n))
    ensures var code := Code(e, n, cc + GroupsOf(ns), back, false, 0);
      && TermsCode(e, ns + [n], cc, back) == (if back then code + TermsCode(e, ns, cc, back) else TermsCode(e, ns, cc, back) + code)
      && AltsCode(e, ns + [n], cc, back) == if ns == [] then Code(e, n, cc, back, false, 0) else AltCode(AltsCode(e, ns, cc, back), code)
  {
    hide Code, AltCode, Groups, ValidNode, RangesFit;
    var all := ns + [n];
    assert all[..|all| - 1] == ns && all[|ns|] == n;
    assert forall k :: 0 <= k < |ns| ==> all[k] == ns[k];
  }

  lemma NoTerms(e: Env, cc: nat, back: bool)
    ensures AllValid([]) && GroupsOf([]) == 0 && AllFit([]) && TermsCode(e, [], cc, back) == []
    ensures Code(e, Empty, cc, back, false, 0) == [] && Groups(Empty) == 0 && RangesFit(Empty)
  {
  }

  lemma PairParts(a: Node, b: Node)
    ensures Groups(Cat(a, b)) == Groups(Alt(a, b)) == Groups(a) + Groups(b)
    ensures RangesFit(Cat(a, b)) == RangesFit(Alt(a, b)) == (RangesFit(a) && RangesFit(b))
    ensures NodeSize(Cat(a, b)) == NodeSize(Alt(a, b)) == 1 + NodeSize(a) + NodeSize(b)
    ensures TermsOf(Cat(a, b)) == TermsOf(a) + [b] && AltsOf(Alt(a, b)) == AltsOf(a) + [b]
  {
  }

  lemma OneTerm(n: Node)
    ensures !n.Cat? && !n.Empty? ==> TermsOf(n) == [] + [n]
    ensures !n.Alt? ==> AltsOf(n) == [] + [n]
    ensures TermsOf(Empty) == []
  {
  }

  /** Every element is smaller than the whole. */
  predicate Smaller(ns: seq<Node>, n: Node) {
    forall k :: 0 <= k < |ns| ==> NodeSize(ns[k]) < NodeSize(n)
  }

  lemma SmallerSnoc(ns: seq<Node>, a: Node, b: Node, n: Node)
    requires Smaller(ns, a) || ns == [a]
    requires NodeSize(n) == 1 + NodeSize(a) + NodeSize(b)
    ensures Smaller(ns + [b], n)
  {
    hide NodeSize;
    forall k | 0 <= k < |ns + [b]| ensures NodeSize((ns + [b])[k]) < NodeSize(n) {
      if k < |ns| { assert (ns + [b])[k] == ns[k]; }
      if ns == [a] && k == 0 { assert ns[0] == a; }
    }
  }

  /** Compiling the terms one by one compiles the pattern. */
  lemma {:induction false} TermsFacts(e: Env, n: Node, cc: nat, back: bool)
    requires ValidNode(n)
    ensures AllValid(TermsOf(n)) && GroupsOf(TermsOf(n)) == Groups(n) && AllFit(TermsOf(n)) == RangesFit(n)
    ensures TermsCode(e, TermsOf(n), cc, back) == Code(e, n, cc, back, false, 0)
    ensures Smaller(TermsOf(n), n) || (TermsOf(n) == [n] && !n.Cat? && !n.Empty?)
  {
    hide *;
    ValidParts(n);
    OneTerm(n);
    NoTerms(e, cc, back);
    if n.Cat? {
      var a, b := n.first, n.second;
      PairParts(a, b);
      TermsFacts(e, a, cc, back);
      CatCode(e, a, b, cc, back, false, 0);
      Snoc(e, TermsOf(a), b, cc, back);
      SmallerSnoc(TermsOf(a), a, b, n);
    } else if n.Empty? {
      SmallerNothing(n);
    } else {
      Snoc(e, [], n, cc, back);
    }
  }

  lemma SmallerNothing(n: Node)
    ensures Smaller([], n)
  {
  }

  /** Compiling the alternatives one by one compiles the pattern. */
  lemma {:induction false} AltsFacts(e: Env, n: Node, cc: nat, back: bool)
    requires ValidNode(n)
    ensures AllValid(AltsOf(n)) && GroupsOf(AltsOf(n)) == Groups(n) && AllFit(AltsOf(n)) == RangesFit(n)
    ensures AltsCode(e, AltsOf(n), cc, back) == Code(e, n, cc, back, false, 0)
    ensures Smaller(AltsOf(n), n) || (AltsOf(n) == [n] && !n.Alt?)
  {
    hide *;
    ValidParts(n);
    OneTerm(n);
    NoTerms(e, cc, back);
    if n.Alt? {
      var a, b := n.first, n.second;
      PairParts(a, b);
      AltsFacts(e, a, cc, back);
      AltCodeUnfold(e, a, b, cc, back, false, 0);
      Snoc(e, AltsOf(a), b, cc, back);
      SmallerSnoc(AltsOf(a), a, b, n);
    } else {
      Snoc(e, [], n, cc, back);
    }
  }

  // ----- writing bytes -----

  /** `x` written over `b` at `pos`. */
  function Overwrite(b: seq<byte>, pos: nat, x: seq<byte>): (r: seq<byte>)
    requires pos + |x| <= |b|
  {
    b[..pos] + x + b[pos + |x|..]
  }

  /** Writing at the front of a gap. */
  lemma FillGap(pre: seq<byte>, gap: seq<byte>, rest: seq<byte>, x: seq<byte>)
    requires |x| <= |gap|
    ensures Overwrite(pre + gap + rest, |pre|, x) == (pre + x) + gap[|x|..] + rest
  {
    var b := pre + gap + rest;
    assert b[..|pre|] == pre;
    assert b[|pre| + |x|..] == gap[|x|..] + rest;
  }

  lemma BytesOne(i: Instr)
    ensures Bytes([i]) == Encode(i)
  {
    hide Encode;
    assert [i][1..] == [];
    assert Encode(i) + [] == Encode(i);
  }

  class REParseState {
    const env: Env
    var byteCode: seq<byte>
    var captureCount: nat

    constructor (env: Env)
      ensures this.env == env && byteCode == [] && captureCount == 1
    {
      this.env := env;
      byteCode := [];
      captureCount := 1;
    }

    method EmitOp(op: byte)
      modifies this`byteCode
      ensures byteCode == old(byteCode) + [op]
    {
      byteCode := byteCode + [op];
    }

    method PutU16(v: nat)
      modifies this`byteCode
      ensures byteCode == old(byteCode) + U16(v)
    {
      byteCode := byteCode + U16(v);
    }

    method PutU32(v: int)
      modifies this`byteCode
      ensures byteCode == old(byteCode) + U32(v)
    {
      byteCode := byteCode + U32(v);
    }

    /** Returns the offset of the operand. */
    method EmitOpU32(op: byte, v: int) returns (pos: nat)
      modifies this`byteCode
      ensures byteCode == old(byteCode) + ([op] + U32(v)) && pos == |old(byteCode)| + 1
    {
      EmitOp(op);
      pos := |byteCode|;
      PutU32(v);
    }

    method EmitOpU8(op: byte, v: nat)
      modifies this`byteCode
      ensures byteCode == old(byteCode) + [op, v % 256]
    {
      EmitOp(op);
      EmitOp(v % 256);
    }

    method EmitOpU16(op: byte, v: nat)
      modifies this`byteCode
      ensures byteCode == old(byteCode) + ([op] + U16(v))
    {
      EmitOp(op);
      PutU16(v);
    }

    /** A jump to the offset `target`. */
    method EmitGoto(op: byte, target: int)
      modifies this`byteCode
      ensures byteCode == old(byteCode) + ([op] + U32(target - (|old(byteCode)| + 5)))
    {
      EmitOp(op);
      var pos := |byteCode|;
      PutU32(target - (pos + 4));
    }

    method EmitGotoU8(op: byte, arg: nat, target: int)
      modifies this`byteCode
      ensures byteCode == old(byteCode) + ([op, arg % 256] + U32(target - (|old(byteCode)| + 6)))
    {
      EmitOpU8(op, arg);
      var pos := |byteCode|;
      PutU32(target - (pos + 4));
    }

    method EmitGotoU8U32(op: byte, arg0: nat, arg1: nat, target: int)
      modifies this`byteCode
      ensures byteCode == old(byteCode) + ([op, arg0 % 256] + U32(arg1) + U32(target - (|old(byteCode)| + 10)))
    {
      EmitOpU8(op, arg0);
      PutU32(arg1);
      var pos := |byteCode|;
      PutU32(target - (pos + 4));
    }

    /** dbuf_insert: open a gap of `len` bytes at `pos`; what is in it does not matter. */
    method DbufInsert(pos: nat, len: nat)
      requires pos <= |byteCode|
      modifies this`byteCode
      ensures |byteCode| == |old(byteCode)| + len
      ensures byteCode == old(byteCode)[..pos] + byteCode[pos..pos + len] + old(byteCode)[pos..]
    {
      byteCode := byteCode[..pos] + seq(len, _ => 0) + byteCode[pos..];
    }

    /** Bytes written in place. */
    method Patch(pos: nat, x: seq<byte>)
      requires pos + |x| <= |byteCode|
      modifies this`byteCode
      ensures byteCode == Overwrite(old(byteCode), pos, x)
    {
      byteCode := byteCode[..pos] + x + byteCode[pos + |x|..];
    }

    /** Opens a gap in front of what follows `pre` and fills it with `x`. */
    method InsertAt(ghost pre: seq<byte>, ghost rest: seq<byte>, pos: nat, x: seq<byte>)
      requires byteCode == pre + rest && pos == |pre|
      modifies this`byteCode
      ensures byteCode == (pre + x) + rest
    {
      DbufInsert(pos, |x|);
      ghost var gap := byteCode[pos..pos + |x|];
      assert (pre + rest)[..pos] == pre && (pre + rest)[pos..] == rest;
      FillGap(pre, gap, rest, x);
      assert gap[|x|..] == [];
      assert (pre + x) + [] + rest == (pre + x) + rest;
      Patch(pos, x);
    }

    // ----- quantifiers -----

    /** The zero-or-one and zero-or-more shapes, around the atom behind `pre`. */
    method EmitOptional(ghost pre: seq<byte>, ghost atom: seq<Instr>, start: nat, len: nat, adv: bool, again: bool, greedy: bool)
      requires byteCode == pre + Bytes(atom) && start == |pre| && len == Size(atom)
      modifies this`byteCode
      ensures byteCode == pre + Bytes(OptionalCode(adv, again, greedy, atom, 0))
    {
      hide Bytes, Size, U32, OptionalCode;
      var x: seq<byte> := [OP_SPLIT_GOTO_FIRST + Flag(greedy)] + U32(len + (if again then 5 else 0) + (if adv then 4 else 0));
      if adv { x := x + [OP_SET_CHAR_POS, 0]; }
      OptionalBytes(adv, again, greedy, atom);
      BytesSize(atom);
      InsertAt(pre, Bytes(atom), start, x);
      if adv { EmitOpU8(OP_CHECK_ADVANCE, 0); }
      if again { EmitGoto(OP_GOTO, start); }
      assert byteCode == pre + (x + Bytes(atom) + (if adv then [OP_CHECK_ADVANCE, 0] else [])
        + (if again then [OP_GOTO] + U32(-(Size(atom) + (if adv then 4 else 0) + 10)) else []));
    }

    /** Counted loops: a counter, an optional advance check, and a conditional jump back. */
    method EmitCounted(ghost pre: seq<byte>, ghost atom: seq<Instr>, start: nat, adv: bool, max: nat, limit: nat, greedy: bool)
      requires byteCode == pre + Bytes(atom) && start == |pre|
      modifies this`byteCode
      ensures byteCode == pre + Bytes(CountedCode(adv, max, limit, greedy, atom, 0, 0))
    {
      hide Bytes, Size, U32, CountedCode;
      var x: seq<byte> := [OP_SET_I32, 0] + U32(max);
      var back := start + 6;
      if adv { x := x + [OP_SET_CHAR_POS, 0]; }
      CountedBytes(adv, max, limit, greedy, atom);
      BytesSize(atom);
      InsertAt(pre, Bytes(atom), start, x);
      EmitGotoU8U32((if adv then OP_LOOP_CHECK_ADV_SPLIT_GOTO_FIRST else OP_LOOP_SPLIT_GOTO_FIRST) + 1 - Flag(greedy), 0, limit, back);
    }

    /** The split in front of a counted loop that may be skipped altogether. */
    method EmitCountedOptional(ghost pre: seq<byte>, ghost atom: seq<Instr>, start: nat, len: nat, adv: bool, max: nat, greedy: bool)
      requires byteCode == pre + Bytes(atom) && start == |pre| && len == Size(atom)
      modifies this`byteCode
      ensures byteCode == pre + Bytes(CountedOptionalCode(adv, max, greedy, atom, 0, 0))
    {
      hide Bytes, Size, U32, CountedOptionalCode;
      var x: seq<byte> := [OP_SPLIT_GOTO_FIRST + Flag(greedy)] + U32(6 + (if adv then 2 else 0) + len + 10);
      CountedOptionalBytes(adv, max, greedy, atom);
      InsertAt(pre, Bytes(atom), start, x);
      EmitCounted(pre + x, atom, start + 5, adv, max, max, greedy);
    }

    /** Everything that happens after a quantifier has been read: the code of the atom is already
      * there, behind `pre`. */
    method EmitQuantifier(ghost pre: seq<byte>, ghost body: seq<Instr>, ghost b: Node, ghost back: bool,
                          atomStart: nat, lastCaptureCount: nat, min: nat, max: nat, greedy: bool)
      requires byteCode == pre + Bytes(body) && atomStart == |pre| && min <= max
      requires AllSized(body) && ScanCode(body) == NodeEffect(b, back)
      requires captureCount == lastCaptureCount + Groups(b) <= CAPTURE_COUNT_MAX
      modifies this`byteCode
      ensures byteCode == pre + Bytes(QuantCode(b, lastCaptureCount, back, min, max, greedy, body, 0, 0))
    {
      hide *;
      BytesSize(body);
      assert byteCode[atomStart..] == Bytes(body);
      var needAdv, needInit := NeedCheckAdvAndCaptureInit(byteCode[atomStart..], body);
      EffectFacts(b, back, min, max);
      ghost var cc := lastCaptureCount;
      ghost var atom := AtomCode(b, cc, body);
      ResetBytes(b, cc, min, body);
      if needInit && lastCaptureCount != captureCount {
        InsertAt(pre, Bytes(body), atomStart, ResetOp(lastCaptureCount, captureCount));
        assert (pre + ResetOp(cc, captureCount)) + Bytes(body) == pre + Bytes(atom);
      }
      assert byteCode == pre + Bytes(atom);
      if min == 0 {
        EmitSkippable(pre, body, b, back, atomStart, lastCaptureCount, needAdv, needInit, max, greedy);
      } else {
        EmitRequired(pre, body, b, back, atomStart, lastCaptureCount, needAdv, min, max, greedy);
      }
    }

    /** The atom may run zero times. */
    method EmitSkippable(ghost pre: seq<byte>, ghost body: seq<Instr>, ghost b: Node, ghost back: bool,
                         atomStart: nat, lastCaptureCount: nat, needAdv: bool, needInit: bool, max: nat, greedy: bool)
      requires byteCode == pre + Bytes(AtomCode(b, lastCaptureCount, body)) && atomStart == |pre|
      requires captureCount == lastCaptureCount + Groups(b) <= CAPTURE_COUNT_MAX
      requires needAdv == NeedAdvance(b, back) && needInit == NeedInit(b)
      modifies this`byteCode
      ensures byteCode == pre + Bytes(QuantCode(b, lastCaptureCount, back, 0, max, greedy, body, 0, 0))
    {
      hide *;
      ghost var cc := lastCaptureCount;
      ghost var atom := AtomCode(b, cc, body);
      ResetBytes(b, cc, 0, body);
      EffectFacts(b, back, 0, max);
      BytesSize(atom);
      var start, len := atomStart, |byteCode| - atomStart;
      ghost var front := pre + Bytes(SkipReset(b, cc, 0));
      if !needInit && lastCaptureCount != captureCount {
        InsertAt(pre, Bytes(atom), start, ResetOp(lastCaptureCount, captureCount));
        start := start + 3;
      }
      assert byteCode == front + Bytes(atom) && start == |front|;
      if max == 0 {
        byteCode := byteCode[..start];
        DroppedBytes(b, cc, back, greedy, body);
      } else {
        QuantBytes(b, cc, back, 0, max, greedy, body);
        if max == 1 || max == INT32_MAX {
          EmitOptional(front, atom, start, len, needAdv, max == INT32_MAX, greedy);
        } else {
          EmitCountedOptional(front, atom, start, len, needAdv, max, greedy);
        }
      }
    }

    /** The atom runs at least once. */
    method EmitRequired(ghost pre: seq<byte>, ghost body: seq<Instr>, ghost b: Node, ghost back: bool,
                        atomStart: nat, lastCaptureCount: nat, needAdv: bool, min: nat, max: nat, greedy: bool)
      requires byteCode == pre + Bytes(AtomCode(b, lastCaptureCount, body)) && atomStart == |pre|
      requires needAdv == NeedAdvance(b, back) && 0 < min <= max
      modifies this`byteCode
      ensures byteCode == pre + Bytes(QuantCode(b, lastCaptureCount, back, min, max, greedy, body, 0, 0))
    {
      hide *;
      ghost var cc := lastCaptureCount;
      ghost var atom := AtomCode(b, cc, body);
      EffectFacts(b, back, min, max);
      QuantBytes(b, cc, back, min, max, greedy, body);
      BytesSize(atom);
      if min == 1 && max == INT32_MAX && !needAdv {
        SplitOp(greedy);
        EmitGoto(OP_SPLIT_GOTO_FIRST + 1 - Flag(greedy), atomStart);
        PlusBytes(atom, greedy);
      } else if min == max {
        EmitExact(pre, atom, atomStart, max);
      } else {
        EmitCounted(pre, atom, atomStart, needAdv, max, max - min, greedy);
      }
    }

    /** `{n}`: a plain countdown. */
    method EmitExact(ghost pre: seq<byte>, ghost atom: seq<Instr>, start: nat, max: nat)
      requires byteCode == pre + Bytes(atom) && start == |pre|
      modifies this`byteCode
      ensures byteCode == pre + Bytes([ISetI32(0, max)] + atom + [ILoop(0, -(Size(atom) + 6))])
    {
      hide Bytes, Size, U32;
      var x: seq<byte> := [OP_SET_I32, 0] + U32(max);
      ExactBytes(max, atom);
      BytesSize(atom);
      InsertAt(pre, Bytes(atom), start, x);
      EmitGotoU8(OP_LOOP, 0, start + 6);
    }

    // ----- one-character matchers -----

    /** re_emit_char. */
    method EmitChar(c: nat, icase: bool)
      requires c < WORD
      modifies this`byteCode
      ensures byteCode == old(byteCode) + Encode(IChar(c > 0xffff, icase, c))
    {
      if c > 0xffff {
        var pos := EmitOpU32(OP_CHAR32 + Flag(icase), c);
      } else {
        EmitOpU16(OP_CHAR + Flag(icase), c);
      }
    }

    /** re_emit_range: the 16-bit form when every bound but infinity fits, else the 32-bit form. */
    method EmitRange(points: seq<nat>, icase: bool) returns (ok: bool)
      requires CanonicalPoints(points)
      modifies this`byteCode
      ensures ok == (|points| / 2 < 65535)
      ensures ok ==> byteCode == old(byteCode) + Encode(EmitClass(points, icase))
    {
      hide Encode, EncodeRanges, FitsRange16, U16, U32, CanonicalPoints, RangePairs, Cap16, EmitClass;
      CanonicalLength(points);
      EmitClassNone(icase);
      var len := |points| / 2;
      if len >= 65535 { return false; }
      EmptyClassCode();
      if len == 0 {
        var pos := EmitOpU32(OP_CHAR32, -1);
        return true;
      }
      ClassCode(points, icase);
      var high := points[|points| - 1];
      if high == UINT32_MAX { high := points[|points| - 2]; }
      if high <= 0xffff {
        EmitOpU16(OP_RANGE + Flag(icase), len);
        EmitPairs(false, points, Cap16(RangePairs(points)));
      } else {
        EmitOpU16(OP_RANGE32 + Flag(icase), len);
        EmitPairs(true, points, RangePairs(points));
      }
      return true;
    }

    /** The bounds, two by two; the upper one is exclusive in the set and inclusive in the code. */
    method EmitPairs(wide: bool, points: seq<nat>, ghost pairs: seq<(nat, nat)>)
      requires CanonicalPoints(points) && pairs == if wide then RangePairs(points) else Cap16(RangePairs(points))
      modifies this`byteCode
      ensures byteCode == old(byteCode) + EncodeRanges(wide, pairs)
    {
      hide *;
      var i := 0;
      ghost var k := 0;
      ghost var pre := byteCode;
      PairsStart(wide, pre, pairs);
      while i < |points|
        invariant i == 2 * k && PairsDone(wide, pre, pairs, k, byteCode)
        decreases |points| - i
      {
        PairAt(wide, points, pairs, k);
        PairsStep(wide, pre, pairs, k, byteCode);
        EmitPair(wide, points[i], points[i + 1] - 1);
        i := i + 2;
        k := k + 1;
      }
      PairAt(wide, points, pairs, k);
      PairsEnd(wide, pre, pairs, k, byteCode);
    }

    method EmitPair(wide: bool, low: nat, high: nat)
      modifies this`byteCode
      ensures byteCode == old(byteCode) + PairBytes(wide, (low, if !wide && high == UINT32_MAX - 1 then 0xffff else high))
    {
      hide U32, U16;
      if wide {
        PutU32(low);
        PutU32(high);
      } else {
        PutU16(low);
        PutU16(if high == UINT32_MAX - 1 then 0xffff else high);
      }
    }

    method EmitMatcher(t: CharTest) returns (ok: bool)
      requires ValidTest(t) && ValidEnv(env)
      modifies this`byteCode
      ensures ok == RangesFit(Single(t))
      ensures ok ==> byteCode == old(byteCode) + Encode(EmitTest(env, t))
    {
      hide CanonicalPoints;
      ok := true;
      match t
      case Literal(c, icase) => EmitChar(if icase then env.canon(c) else c, icase);
      case Dot(dotAll) => EmitOp(if dotAll then OP_ANY else OP_DOT);
      case Space(negated) => EmitOp(OP_SPACE + Flag(negated));
      case Class(p, icase) => ok := EmitRange(p, icase);
    }

    /** Backward, the character before the position is tested and the position left in front of it. */
    method EmitSingleTest(t: CharTest, back: bool) returns (ok: bool)
      requires ValidTest(t) && ValidEnv(env)
      modifies this`byteCode
      ensures ok == RangesFit(Single(t))
      ensures ok ==> byteCode == old(byteCode) + Bytes(EmitSingle(env, t, back))
    {
      hide Bytes, EmitTest, Encode, ValidEnv, ValidTest;
      SingleBytes(env, t, back);
      if back { EmitOp(OP_PREV); }
      ok := EmitMatcher(t);
      if back { EmitOp(OP_PREV); }
    }

    method EmitLeaf(n: Node, back: bool) returns (ok: bool)
      requires Leaf(n) && !n.Empty? && ValidNode(n) && ValidEnv(env)
      modifies this`byteCode
      ensures ok == RangesFit(n)
      ensures ok ==> byteCode == old(byteCode) + Bytes(LeafCode(env, n, back))
    {
      hide Bytes, ValidEnv, EmitSingle, ValidTest, LeafCode, ValidNode, RangesFit;
      LeafFacts(env, n, back);
      ok := true;
      match n
      case Single(t) => ok := EmitSingleTest(t, back);
      case LineStart(multi) => EmitOp(OP_LINE_START + Flag(multi));
      case LineEnd(multi) => EmitOp(OP_LINE_END + Flag(multi));
      case WordBoundary(negated, icase) => EmitOp(OP_WORD_BOUNDARY + 2 * Flag(negated) + Flag(icase));
      case BackRef(refs, icase) =>
        EmitOpU8(OP_BACK_REFERENCE + 2 * Flag(back) + Flag(icase), |refs|);
        EmitRefs(refs);
    }

    method EmitRefs(refs: seq<nat>)
      modifies this`byteCode
      ensures byteCode == old(byteCode) + EncodeRefs(refs)
    {
      var i := 0;
      while i < |refs|
        invariant 0 <= i <= |refs|
        invariant byteCode + EncodeRefs(refs[i..]) == old(byteCode) + EncodeRefs(refs)
      {
        assert refs[i..][0] == refs[i] && refs[i..][1..] == refs[i + 1..];
        EmitOp(refs[i] % 256);
        i := i + 1;
      }
    }

    // ----- terms, alternatives, disjunctions -----

    /** Room for the capture groups of `n`, and no class with too many ranges. */
    predicate Accepts(n: Node)
      reads this`captureCount
    {
      captureCount + Groups(n) <= CAPTURE_COUNT_MAX && RangesFit(n)
    }

    /** re_parse_term: `ok` exactly when the limits allow it, and then the code of `n` is added. A
      * sequence or an alternation in the place of a term was written as a non-capturing group. */
    method ParseTerm(n: Node, back: bool) returns (ok: bool)
      requires ValidNode(n) && ValidEnv(env) && captureCount <= CAPTURE_COUNT_MAX
      modifies this`byteCode, this`captureCount
      ensures ok == old(Accepts(n))
      ensures ok ==> captureCount == old(captureCount) + Groups(n)
      ensures ok ==> byteCode == old(byteCode) + Bytes(Code(env, n, old(captureCount), back, false, 0))
      decreases NodeSize(n), if n.Cat? || n.Alt? || n.Empty? then 3 else 0
    {
      hide *;
      ValidParts(n);
      NodeParts(n);
      match n
      case Group(b) => ok := ParseGroup(b, back);
      case Look(negated, behind, b) => ok := ParseLook(negated, behind, b, back);
      case Quant(b, min, max, greedy) => ok := ParseQuantified(b, min, max, greedy, back);
      case Cat(_, _) => ok := ParseDisjunction(n, back);
      case Alt(_, _) => ok := ParseDisjunction(n, back);
      case Empty => ok := ParseDisjunction(n, back);
      case Single(_) => ok := ParseLeaf(n, back);
      case LineStart(_) => ok := ParseLeaf(n, back);
      case LineEnd(_) => ok := ParseLeaf(n, back);
      case WordBoundary(_, _) => ok := ParseLeaf(n, back);
      case BackRef(_, _) => ok := ParseLeaf(n, back);
    }

    method ParseLeaf(n: Node, back: bool) returns (ok: bool)
      requires (n.Single? || n.LineStart? || n.LineEnd? || n.WordBoundary? || n.BackRef?)
      requires ValidNode(n) && ValidEnv(env) && captureCount <= CAPTURE_COUNT_MAX
      modifies this`byteCode
      ensures ok == old(Accepts(n)) && Groups(n) == 0
      ensures ok ==> byteCode == old(byteCode) + Bytes(Code(env, n, old(captureCount), back, false, 0))
    {
      hide ValidNode, Code, Bytes, LeafCode, RangesFit, ValidEnv;
      LeafCodeUnfold(env, n, captureCount, back, false, 0);
      ok := EmitLeaf(n, back);
    }

    method ParseGroup(b: Node, back: bool) returns (ok: bool)
      requires ValidNode(b) && ValidEnv(env) && captureCount <= CAPTURE_COUNT_MAX
      modifies this`byteCode, this`captureCount
      ensures ok == old(Accepts(Group(b)))
      ensures ok ==> captureCount == old(captureCount) + Groups(Group(b))
      ensures ok ==> ValidNode(Group(b)) && byteCode == old(byteCode) + Bytes(Code(env, Group(b), old(captureCount), back, false, 0))
      decreases NodeSize(b), 5
    {
      hide Code, Bytes, ValidNode, ValidEnv;
      if captureCount >= CAPTURE_COUNT_MAX { return false; }
      var captureIndex := captureCount;
      captureCount := captureCount + 1;
      EmitOpU8(OP_SAVE_START + Flag(back), captureIndex);
      ok := ParseDisjunction(b, back);
      if ok {
        EmitOpU8(OP_SAVE_START + 1 - Flag(back), captureIndex);
        GroupBytes(env, b, captureIndex, back);
      }
    }

    method ParseLook(negated: bool, behind: bool, b: Node, back: bool) returns (ok: bool)
      requires ValidNode(b) && ValidEnv(env) && captureCount <= CAPTURE_COUNT_MAX
      modifies this`byteCode, this`captureCount
      ensures var n := Look(negated, behind, b);
        && ok == old(Accepts(n))
        && (ok ==> captureCount == old(captureCount) + Groups(n) && ValidNode(n))
        && (ok ==> byteCode == old(byteCode) + Bytes(Code(env, n, old(captureCount), back, false, 0)))
      decreases NodeSize(b), 5
    {
      hide *;
      ghost var pre, body := byteCode, Code(env, b, captureCount, behind, false, 0);
      LookParts(negated, behind, b);
      AcceptsIs(b);
      AcceptsIs(Look(negated, behind, b));
      var op := LookOp(negated);
      var pos := EmitOpU32(op, 0);
      ok := ParseDisjunction(b, behind);
      if ok {
        EmitOp(LookMatchOp(negated));
        LookBytes(env, negated, behind, b, old(captureCount), back);
        PatchLook(pre, op, Bytes(body) + [LookMatchOp(negated)], pos);
      }
    }

    /** The jump over a lookaround, now that its length is known. */
    method PatchLook(ghost pre: seq<byte>, ghost op: byte, ghost tail: seq<byte>, pos: nat)
      requires byteCode == pre + ([op] + U32(0)) + tail && pos == |pre| + 1
      modifies this`byteCode
      ensures byteCode == pre + ([op] + U32(|tail|) + tail)
    {
      hide U32;
      U32Len(0);
      U32Len(|tail|);
      assert byteCode == (pre + [op]) + U32(0) + tail;
      FillGap(pre + [op], U32(0), tail, U32(|tail|));
      assert U32(0)[4..] == [];
      Patch(pos, U32(|byteCode| - (pos + 4)));
    }

    method ParseQuantified(b: Node, min: nat, max: nat, greedy: bool, back: bool) returns (ok: bool)
      requires ValidNode(Quant(b, min, max, greedy)) && ValidEnv(env) && captureCount <= CAPTURE_COUNT_MAX
      modifies this`byteCode, this`captureCount
      ensures var n := Quant(b, min, max, greedy);
        && ok == old(Accepts(n))
        && (ok ==> captureCount == old(captureCount) + Groups(n))
        && (ok ==> byteCode == old(byteCode) + Bytes(Code(env, n, old(captureCount), back, false, 0)))
      decreases NodeSize(b), 5
    {
      hide Code, Bytes, ValidEnv, QuantCode, Held, ScanCode, NodeEffect, ValidNode;
      var lastAtomStart, lastCaptureCount := |byteCode|, captureCount;
      ValidParts(Quant(b, min, max, greedy));
      ghost var pre, body := byteCode, Code(env, b, captureCount, back, false, 0);
      ok := ParseTerm(b, back);
      if ok {
        CodeEffect(env, b, lastCaptureCount, back, false, 0);
        CodeWithin(env, b, lastCaptureCount, back, false, 0);
        WithinIsSized(body, Size(body));
        EmitQuantifier(pre, body, b, back, lastAtomStart, lastCaptureCount, min, max, greedy);
        QuantCodeIs(env, b, min, max, greedy, lastCaptureCount, back, false, 0);
        UnallocSame(env, b, lastCaptureCount, back, Held(b, back, min, max));
      }
    }

    /** re_parse_alternative: terms in order; backward, each new term is moved in front of the rest. */
    method ParseAlternative(n: Node, back: bool) returns (ok: bool)
      requires ValidNode(n) && ValidEnv(env) && captureCount <= CAPTURE_COUNT_MAX
      modifies this`byteCode, this`captureCount
      ensures ok == old(Accepts(n))
      ensures ok ==> captureCount == old(captureCount) + Groups(n)
      ensures ok ==> byteCode == old(byteCode) + Bytes(Code(env, n, old(captureCount), back, false, 0))
      decreases NodeSize(n), if n.Alt? then 4 else 1
    {
      hide *;
      var terms := TermsOf(n);
      ghost var pre, cc := byteCode, captureCount;
      TermsFacts(env, n, cc, back);
      NoTerms(env, cc, back);
      BytesNone();
      AcceptsIs(n);
      var start := |byteCode|;
      var i := 0;
      assert terms[..0] == [];
      while i < |terms|
        invariant 0 <= i <= |terms| && AllValid(terms[..i]) && AllFit(terms[..i])
        invariant captureCount == cc + GroupsOf(terms[..i]) <= CAPTURE_COUNT_MAX
        invariant byteCode == pre + Bytes(TermsCode(env, terms[..i], cc, back))
        decreases |terms| - i
      {
        var termStart := |byteCode|;
        ghost var before, cc1 := TermsCode(env, terms[..i], cc, back), captureCount;
        TermAt(terms, i, n);
        ghost var term := Code(env, terms[i], cc1, back, false, 0);
        AcceptsIs(terms[i]);
        ok := ParseTerm(terms[i], back);
        GroupsUpTo(terms, i + 1);
        SnocAt(env, terms, i, cc, back);
        if !ok {
          AllFitAt(terms, i);
          return;
        }
        if back {
          MoveTermToFront(pre, Bytes(before), Bytes(term), start, termStart);
          BytesConcat(term, before);
        } else {
          BytesConcat(before, term);
        }
        i := i + 1;
      }
      assert terms[..|terms|] == terms;
      ok := true;
    }

    /** The memmove and memcpy that swap the newest term with those before it. */
    method MoveTermToFront(ghost pre: seq<byte>, ghost before: seq<byte>, ghost term: seq<byte>, start: nat, termStart: nat)
      requires byteCode == pre + before + term && start == |pre| && termStart == |pre + before|
      modifies this`byteCode
      ensures byteCode == pre + (term + before)
    {
      var end := |byteCode|;
      assert byteCode[termStart..end] == term && byteCode[start..termStart] == before && byteCode[..start] == pre;
      byteCode := byteCode[..start] + byteCode[termStart..end] + byteCode[start..termStart];
    }

    /** re_parse_disjunction: a split is inserted in front of what has been emitted so far, a jump
      * over the next alternative is added behind it and patched afterwards. */
    method ParseDisjunction(n: Node, back: bool) returns (ok: bool)
      requires ValidNode(n) && ValidEnv(env) && captureCount <= CAPTURE_COUNT_MAX
      modifies this`byteCode, this`captureCount
      ensures ok == old(Accepts(n))
      ensures ok ==> captureCount == old(captureCount) + Groups(n)
      ensures ok ==> byteCode == old(byteCode) + Bytes(Code(env, n, old(captureCount), back, false, 0))
      decreases NodeSize(n), 2
    {
      hide *;
      var alts := AltsOf(n);
      ghost var pre, cc := byteCode, captureCount;
      AltsFacts(env, n, cc, back);
      NoTerms(env, cc, back);
      var start := |byteCode|;
      AcceptsIs(n);
      AltAt(alts, 0, n);
      assert alts[..0] == [];
      AcceptsIs(alts[0]);
      ok := ParseAlternative(alts[0], back);
      GroupsUpTo(alts, 1);
      SnocAt(env, alts, 0, cc, back);
      if !ok {
        AllFitAt(alts, 0);
        return;
      }
      var i := 1;
      while i < |alts|
        invariant 1 <= i <= |alts| && AllValid(alts[..i]) && AllFit(alts[..i]) && ok
        invariant captureCount == cc + GroupsOf(alts[..i]) <= CAPTURE_COUNT_MAX
        invariant byteCode == pre + Bytes(AltsCode(env, alts[..i], cc, back))
        decreases |alts| - i
      {
        ghost var before, cc1 := AltsCode(env, alts[..i], cc, back), captureCount;
        var len := |byteCode| - start;
        AltAt(alts, i, n);
        ghost var code := Code(env, alts[i], cc1, back, false, 0);
        BytesSize(before);
        var pos := OpenBranch(pre, before, start, len);
        ghost var head := byteCode;
        AcceptsIs(alts[i]);
        ok := ParseAlternative(alts[i], back);
        GroupsUpTo(alts, i + 1);
        SnocAt(env, alts, i, cc, back);
        if !ok {
          AllFitAt(alts, i);
          return;
        }
        CloseBranch(pre, before, code, pos);
        i := i + 1;
      }
      assert alts[..|alts|] == alts;
    }

    /** The split before the first branch and the jump, still without target, after it. */
    method OpenBranch(ghost pre: seq<byte>, ghost before: seq<Instr>, start: nat, len: nat) returns (pos: nat)
      requires byteCode == pre + Bytes(before) && start == |pre| && len == Size(before)
      modifies this`byteCode
      ensures byteCode == pre + BranchHead(before) + [OP_GOTO] + U32(0) && pos == |pre + BranchHead(before)| + 1
    {
      hide Bytes, Size, U32;
      InsertAt(pre, Bytes(before), start, [OP_SPLIT_GOTO_FIRST + 1] + U32(len + 5));
      pos := EmitOpU32(OP_GOTO, 0);
    }

    method CloseBranch(ghost pre: seq<byte>, ghost before: seq<Instr>, ghost code: seq<Instr>, pos: nat)
      requires byteCode == pre + BranchHead(before) + [OP_GOTO] + U32(0) + Bytes(code) && pos == |pre + BranchHead(before)| + 1
      modifies this`byteCode
      ensures byteCode == pre + Bytes(AltCode(before, code))
    {
      hide Bytes, Size, U32, AltCode, BranchHead;
      ghost var head := pre + BranchHead(before) + [OP_GOTO];
      U32Len(0);
      U32Len(|Bytes(code)|);
      FillGap(head, U32(0), Bytes(code), U32(|Bytes(code)|));
      assert U32(0)[4..] == [];
      var len := |byteCode| - (pos + 4);
      Patch(pos, U32(len));
      AltBytes(before, code);
      assert byteCode == pre + (BranchHead(before) + [OP_GOTO] + U32(|Bytes(code)|) + Bytes(code));
    }

    lemma AcceptsIs(n: Node)
      ensures Accepts(n) == (captureCount + Groups(n) <= CAPTURE_COUNT_MAX && RangesFit(n))
    {
      hide Groups, RangesFit;
    }

    // ----- whole programs -----

    /** compute_register_count: the registers as a stack, in one pass over the finished code; -1 when
      * more than 255 are needed. */
    method ComputeRegisterCount(ghost head: seq<byte>, ghost ins: seq<Instr>) returns (count: int)
      requires byteCode == head + Bytes(ins) && |head| == HEADER_LEN && AllSized(ins) && Alloc(ins, 0).ok
      modifies this`byteCode
      ensures if Alloc(ins, 0).peak > 255 then count == -1
        else count == Alloc(ins, 0).peak && byteCode == head + Bytes(Alloc(ins, 0).code)
    {
      hide Bytes, Alloc, Encode, Opens, Closes, WithRegister, ScanState, Holds, GetU16, ISize, Max, InstrEffect, AllSized, Sized;
      var pos: nat, stackSize: nat, stackSizeMax: nat := HEADER_LEN, 0, 0;
      ghost var done, rest := [], ins;
      StartScan(head, ins);
      while pos < |byteCode|
        invariant ScanState(byteCode, head, done, rest, ins, pos, stackSize, stackSizeMax)
        invariant |byteCode| == |old(byteCode)|
      {
        ghost var i := NextInstr(byteCode, head, done, rest, ins, pos, stackSize, stackSizeMax);
        ghost var before := byteCode;
        RegisterOps(i, byteCode, pos);
        OpcodeFacts(i, byteCode, pos);
        RegisterRoom(i, byteCode, pos);
        var opcode := byteCode[pos];
        var len := OpSize(opcode);
        ghost var size, max := stackSize, stackSizeMax;
        if OpensOp(opcode) {
          if stackSize >= REGISTER_COUNT_MAX {
            StackOverflow(byteCode, head, done, rest, ins, pos, stackSize, stackSizeMax);
            return -1;
          }
          SmallRegister(stackSize);
          byteCode := byteCode[pos + 1 := stackSize];
          stackSize := stackSize + 1;
          if stackSize > stackSizeMax { stackSizeMax := stackSize; }
        } else if ClosesOneOp(opcode) {
          SmallRegister(stackSize - 1);
          stackSize := stackSize - 1;
          byteCode := byteCode[pos + 1 := stackSize];
        } else if ClosesTwoOp(opcode) {
          SmallRegister(stackSize - 2);
          stackSize := stackSize - 2;
          byteCode := byteCode[pos + 1 := stackSize];
        } else if IsRange16(opcode) {
          len := len + GetU16(byteCode, pos + 1) * 4;
        } else if IsRange32(opcode) {
          len := len + GetU16(byteCode, pos + 1) * 8;
        } else if IsBackRef(opcode) {
          len := len + byteCode[pos + 1] as int;
        }
        ScanMax(max, stackSize);
        AdvanceScan(before, byteCode, head, done, rest, ins, pos, size, max, stackSizeMax);
        done, rest := done + [WithRegister(i, size - Closes(i))], rest[1..];
        pos := pos + len;
      }
      EndScan(byteCode, head, done, rest, ins, pos, stackSize, stackSizeMax);
      return stackSizeMax;
    }

    /** lre_compile, from the parsed pattern on; `flags` is the word for the flags `f`. */
    method LreCompile(n: Node, flags: nat, ghost f: Flags) returns (r: Result<seq<byte>, CompileError>)
      requires ValidNode(n) && ValidEnv(env) && flags == FlagWord(f) && byteCode == [] && captureCount == 1
      modifies this`byteCode, this`captureCount
      ensures r.Ok? == Compilable(env, n, f.sticky)
      ensures r.Ok? ==> r.value == Image(env, n, f)
      ensures r == Err(TooLarge) ==> ImageSize(env, n, f.sticky) > SIZE_MAX
      ensures r == Err(TooManyRegisters) ==> Depth(n, false) > REGISTER_COUNT_MAX
    {
      hide *;
      FlagBits(f);
      var sticky := flags / 32 % 2 != 0;
      PutU16(flags);
      EmitOp(0);
      EmitOp(0);
      PutU32(0);
      ghost var head := byteCode;
      StartHeader(flags, head);
      CompilableIs(env, n, sticky);
      var ok := EmitProgram(n, sticky);
      if !ok { return Err(TooManyCapturesOrRanges); }
      ghost var ins, code := ProgramCode(env, n, sticky, false), ProgramCode(env, n, sticky, true);
      BytesSize(ins);
      if |byteCode| > SIZE_MAX { return Err(TooLarge); }
      ProgramAllocated(env, n, sticky);
      var registers := ComputeRegisterCount(head, ins);
      if registers < 0 { return Err(TooManyRegisters); }
      FillHeader(env, n, f, head, captureCount, registers);
      return Ok(byteCode);
    }

    /** The search prefix, capture 0 around the pattern, and the final opcode. */
    method EmitProgram(n: Node, sticky: bool) returns (ok: bool)
      requires ValidNode(n) && ValidEnv(env) && captureCount == 1
      modifies this`byteCode, this`captureCount
      ensures ok == (1 + Groups(n) <= CAPTURE_COUNT_MAX && RangesFit(n))
      ensures ok ==> captureCount == 1 + Groups(n)
      ensures ok ==> byteCode == old(byteCode) + Bytes(ProgramCode(env, n, sticky, false))
    {
      hide Bytes, U32, ProgramCode, RangesFit, Groups, Code, ValidNode, ValidEnv;
      if !sticky {
        var pos := EmitOpU32(OP_SPLIT_GOTO_FIRST, 6);
        EmitOp(OP_ANY);
        pos := EmitOpU32(OP_GOTO, -11);
      }
      EmitOpU8(OP_SAVE_START, 0);
      AcceptsIs(n);
      ok := ParseDisjunction(n, false);
      if ok {
        EmitOpU8(OP_SAVE_START + 1, 0);
        EmitOp(OP_MATCH);
        ProgramBytes(env, n, sticky);
      }
    }

    method FillHeader(ghost e: Env, ghost n: Node, ghost f: Flags, ghost head: seq<byte>, captures: nat, registers: nat)
      requires ValidNode(n) && captures == 1 + Groups(n) < 256 && registers == Depth(n, false) < 256
      requires |head| == HEADER_LEN && head[..2] == U16(FlagWord(f))
      requires byteCode == head + Bytes(ProgramCode(e, n, f.sticky, true))
      modifies this`byteCode
      ensures byteCode == Image(e, n, f)
    {
      hide Bytes, ProgramCode, U32, U16, Depth, Groups, ValidNode, FlagWord;
      ghost var code := Bytes(ProgramCode(e, n, f.sticky, true));
      U32Len(|code|);
      Patch(2, [captures]);
      Patch(3, [registers]);
      Patch(4, U32(|byteCode| - HEADER_LEN));
      U16Len(FlagWord(f));
      assert byteCode == U16(FlagWord(f)) + [captures, registers] + U32(|code|) + code;
    }
  }

  lemma U32Len(v: int)
    ensures |U32(v)| == 4
  {
  }

  lemma BytesFive(a: seq<Instr>, b: seq<Instr>, c: seq<Instr>, d: seq<Instr>, f: seq<Instr>)
    ensures Bytes(a + (b + c + d) + f) == Bytes(a) + Bytes(b) + Bytes(c) + Bytes(d) + Bytes(f)
  {
    hide Bytes, Size;
    BytesConcat(b, c);
    BytesConcat(b + c, d);
    BytesConcat(a, b + c + d);
    BytesConcat(a + (b + c + d), f);
  }

  lemma BytesOfAdvance(adv: bool)
    ensures Bytes(SetPosCode(adv, 0)) == (if adv then [OP_SET_CHAR_POS, 0] else [])
    ensures Bytes(CheckAdvCode(adv, 0)) == (if adv then [OP_CHECK_ADVANCE, 0] else [])
    ensures AdvSize(adv) == if adv then 2 else 0
  {
    BytesOne(ISetPos(0));
    BytesOne(ICheckAdv(0));
  }

  lemma BytesOfJump(greedy: bool, off: int, again: bool, off': int)
    ensures Bytes([ISplit(greedy, off)]) == [OP_SPLIT_GOTO_FIRST + Flag(greedy)] + U32(off) && |U32(off)| == 4
    ensures Bytes(if again then [IGoto(off')] else []) == if again then [OP_GOTO] + U32(off') else []
  {
    hide Bytes;
    BytesOne(ISplit(greedy, off));
    BytesOne(IGoto(off'));
    BytesNone();
    U32Len(off);
  }

  lemma BytesNone()
    ensures Bytes([]) == []
  {
  }

  lemma OptionalBytes(adv: bool, again: bool, greedy: bool, atom: seq<Instr>)
    ensures Bytes(OptionalCode(adv, again, greedy, atom, 0)) ==
      [OP_SPLIT_GOTO_FIRST + Flag(greedy)] + U32(Size(atom) + (if again then 5 else 0) + (if adv then 4 else 0))
      + (if adv then [OP_SET_CHAR_POS, 0] else []) + Bytes(atom) + (if adv then [OP_CHECK_ADVANCE, 0] else [])
      + (if again then [OP_GOTO] + U32(-(Size(atom) + (if adv then 4 else 0) + 10)) else [])
    ensures |U32(Size(atom) + (if again then 5 else 0) + (if adv then 4 else 0))| == 4
  {
    hide *;
    BytesOfAdvance(adv);
    var off, off' := Size(atom) + (if again then 5 else 0) + 2 * AdvSize(adv), -(Size(atom) + 2 * AdvSize(adv) + 10);
    var jump := if again then [IGoto(off')] else [];
    OptionalParts(adv, again, greedy, atom, 0, ISplit(greedy, off), jump);
    BytesFive([ISplit(greedy, off)], SetPosCode(adv, 0), atom, CheckAdvCode(adv, 0), jump);
    BytesOfJump(greedy, off, again, off');
  }

  lemma BytesOfLoop(max: nat, adv: bool, greedy: bool, limit: nat, off: int)
    ensures Bytes([ISetI32(0, max)]) == [OP_SET_I32, 0] + U32(max) && |U32(max)| == 4
    ensures Bytes([ILoopSplit(adv, !greedy, 0, limit, off)]) ==
      [(if adv then OP_LOOP_CHECK_ADV_SPLIT_GOTO_FIRST else OP_LOOP_SPLIT_GOTO_FIRST) + 1 - Flag(greedy), 0] + U32(limit) + U32(off)
  {
    hide Bytes;
    BytesOne(ISetI32(0, max));
    BytesOne(ILoopSplit(adv, !greedy, 0, limit, off));
    U32Len(max);
  }

  lemma CountedBytes(adv: bool, max: nat, limit: nat, greedy: bool, atom: seq<Instr>)
    ensures Bytes(CountedCode(adv, max, limit, greedy, atom, 0, 0)) ==
      [OP_SET_I32, 0] + U32(max) + (if adv then [OP_SET_CHAR_POS, 0] else []) + Bytes(atom)
      + ([(if adv then OP_LOOP_CHECK_ADV_SPLIT_GOTO_FIRST else OP_LOOP_SPLIT_GOTO_FIRST) + 1 - Flag(greedy), 0] + U32(limit)
         + U32(-((if adv then 2 else 0) + Size(atom) + 10)))
    ensures |U32(max)| == 4
  {
    hide *;
    BytesOfAdvance(adv);
    var off := -(AdvSize(adv) + Size(atom) + 10);
    CountedParts(adv, max, limit, greedy, atom, 0, 0);
    BytesOfLoop(max, adv, greedy, limit, off);
    var sp := SetPosCode(adv, 0);
    BytesConcat(sp, atom);
    BytesConcat([ISetI32(0, max)], sp + atom);
    BytesConcat([ISetI32(0, max)] + (sp + atom), [ILoopSplit(adv, !greedy, 0, limit, off)]);
  }

  /** REOP_save_reset over the captures lo .. hi-1. */
  function ResetOp(lo: nat, hi: nat): (r: seq<byte>)
    ensures |r| == 3
  {
    [OP_SAVE_RESET, lo % 256, (hi - 1) % 256]
  }

  lemma SplitOp(greedy: bool)
    ensures 0 <= OP_SPLIT_GOTO_FIRST + 1 - Flag(greedy) < 256
  {
  }

  lemma CountedOptionalBytes(adv: bool, max: nat, greedy: bool, atom: seq<Instr>)
    ensures Bytes(CountedOptionalCode(adv, max, greedy, atom, 0, 0)) ==
      [OP_SPLIT_GOTO_FIRST + Flag(greedy)] + U32(6 + (if adv then 2 else 0) + Size(atom) + 10) + Bytes(CountedCode(adv, max, max, greedy, atom, 0, 0))
    ensures |U32(6 + (if adv then 2 else 0) + Size(atom) + 10)| == 4
  {
    hide Bytes, Size, U32, CountedCode;
    var off := 6 + AdvSize(adv) + Size(atom) + 10;
    BytesOne(ISplit(greedy, off));
    BytesConcat([ISplit(greedy, off)], CountedCode(adv, max, max, greedy, atom, 0, 0));
    U32Len(off);
  }

  lemma ExactBytes(max: nat, atom: seq<Instr>)
    ensures Bytes([ISetI32(0, max)] + atom + [ILoop(0, -(Size(atom) + 6))]) ==
      [OP_SET_I32, 0] + U32(max) + Bytes(atom) + ([OP_LOOP, 0] + U32(-(Size(atom) + 6)))
    ensures |U32(max)| == 4
  {
    hide Bytes, Size, U32;
    BytesOne(ISetI32(0, max));
    BytesOne(ILoop(0, -(Size(atom) + 6)));
    BytesConcat([ISetI32(0, max)], atom);
    BytesConcat([ISetI32(0, max)] + atom, [ILoop(0, -(Size(atom) + 6))]);
    U32Len(max);
  }

  lemma PlusBytes(atom: seq<Instr>, greedy: bool)
    ensures Bytes(atom + [ISplit(!greedy, -(Size(atom) + 5))]) == Bytes(atom) + ([OP_SPLIT_GOTO_FIRST + 1 - Flag(greedy)] + U32(-(Size(atom) + 5)))
  {
    hide Bytes, Size, U32;
    BytesOne(ISplit(!greedy, -(Size(atom) + 5)));
    BytesConcat(atom, [ISplit(!greedy, -(Size(atom) + 5))]);
  }

  /** The pass over the code of the atom decides as Emit does. */
  lemma EffectFacts(b: Node, back: bool, min: nat, max: nat)
    ensures NeedAdvance(b, back) == !NodeEffect(b, back).moved && NeedInit(b) == NodeEffect(b, back).unsure
    ensures UsesAdvance(b, back, min, max) == (NeedAdvance(b, back) && (min == 0 || min != max))
    ensures ShapeOf(min, max, NeedAdvance(b, back)) ==
      if min == 0 then
        if max == 0 then Dropped
        else if max == 1 || max == INT32_MAX then Optional(max == INT32_MAX)
        else CountedOptional
      else if min == 1 && max == INT32_MAX && !NeedAdvance(b, back) then PlusLoop
      else if min == max then Exact
      else Counted
    ensures INT32_MAX > 1
  {
    hide Scan, Straight;
  }

  lemma ResetBytes(b: Node, cc: nat, min: nat, body: seq<Instr>)
    requires cc + Groups(b) <= CAPTURE_COUNT_MAX
    ensures Bytes(AtomCode(b, cc, body)) == (if NeedInit(b) && Groups(b) != 0 then ResetOp(cc, cc + Groups(b)) else []) + Bytes(body)
    ensures Bytes(SkipReset(b, cc, min)) == if min == 0 && !NeedInit(b) && Groups(b) != 0 then ResetOp(cc, cc + Groups(b)) else []
  {
    hide Bytes, Straight, Groups;
    BytesNone();
    if Groups(b) != 0 { BytesOne(IReset(cc, cc + Groups(b) - 1)); }
    BytesConcat(ResetCode(cc, Groups(b)), body);
    BytesConcat([], body);
  }

  lemma DroppedBytes(b: Node, cc: nat, back: bool, greedy: bool, body: seq<Instr>)
    ensures QuantCode(b, cc, back, 0, 0, greedy, body, 0, 0) == SkipReset(b, cc, 0)
  {
    hide Scan, Straight, Size, ResetCode, AtomCode, SkipReset;
    assert SkipReset(b, cc, 0) + [] == SkipReset(b, cc, 0);
  }

  lemma QuantBytes(b: Node, cc: nat, back: bool, min: nat, max: nat, greedy: bool, body: seq<Instr>)
    requires min <= max && max != 0
    ensures var adv := UsesAdvance(b, back, min, max);
      var atom := AtomCode(b, cc, body);
      Bytes(QuantCode(b, cc, back, min, max, greedy, body, 0, 0)) == Bytes(SkipReset(b, cc, min)) +
      match ShapeOf(min, max, NeedAdvance(b, back))
      case Dropped => []
      case Optional(again) => Bytes(OptionalCode(adv, again, greedy, atom, 0))
      case CountedOptional => Bytes(CountedOptionalCode(adv, max, greedy, atom, 0, 0))
      case PlusLoop => Bytes(atom + [ISplit(!greedy, -(Size(atom) + 5))])
      case Exact => Bytes([ISetI32(0, max)] + atom + [ILoop(0, -(Size(atom) + 6))])
      case Counted => Bytes(CountedCode(adv, max, max - min, greedy, atom, 0, 0))
    ensures min != 0 ==> Bytes(SkipReset(b, cc, min)) == []
  {
    hide Bytes, Size, UsesAdvance, NeedAdvance, AtomCode, OptionalCode, CountedOptionalCode, CountedCode, ResetCode, Straight, LoopCode, QuantCode, Groups;
    BytesNone();
    QuantIs(b, cc, back, min, max, greedy, body, 0, 0);
    BytesConcat(SkipReset(b, cc, min), LoopCode(b, cc, back, min, max, greedy, body, 0, 0));
  }

  function PairBytes(wide: bool, r: (nat, nat)): seq<byte> {
    if wide then U32(r.0) + U32(r.1) else U16(r.0) + U16(r.1)
  }

  lemma EncodeRangesNone(wide: bool)
    ensures EncodeRanges(wide, []) == []
  {
  }

  lemma {:induction false} EncodeRangesSnoc(wide: bool, rs: seq<(nat, nat)>, r: (nat, nat))
    ensures EncodeRanges(wide, rs + [r]) == EncodeRanges(wide, rs) + PairBytes(wide, r)
  {
    hide U32, U16;
    if rs == [] {
      assert [r][1..] == [];
    } else {
      assert (rs + [r])[1..] == rs[1..] + [r];
      EncodeRangesSnoc(wide, rs[1..], r);
    }
  }

  lemma CanonicalLength(points: seq<nat>)
    requires CanonicalPoints(points)
    ensures |points| / 2 * 2 == |points|
  {
  }

  lemma EmitClassNone(icase: bool)
    ensures EmitClass([], icase) == IChar(true, false, UINT32_MAX)
  {
  }

  lemma EmptyClassCode()
    ensures Encode(IChar(true, false, UINT32_MAX)) == [OP_CHAR32] + U32(-1)
  {
  }

  lemma ClassCode(points: seq<nat>, icase: bool)
    requires CanonicalPoints(points) && points != []
    ensures |points| >= 2 && |points| / 2 * 2 == |points|
    ensures FitsRange16(points) == ((if points[|points| - 1] == UINT32_MAX then points[|points| - 2] else points[|points| - 1]) <= 0xffff)
    ensures Encode(EmitClass(points, icase)) ==
      if FitsRange16(points) then [OP_RANGE + Flag(icase)] + U16(|points| / 2) + EncodeRanges(false, Cap16(RangePairs(points)))
      else [OP_RANGE32 + Flag(icase)] + U16(|points| / 2) + EncodeRanges(true, RangePairs(points))
  {
    hide EncodeRanges, U16;
  }

  lemma SingleBytes(e: Env, t: CharTest, back: bool)
    requires ValidTest(t)
    ensures Bytes(EmitSingle(e, t, back)) == if back then [OP_PREV] + Encode(EmitTest(e, t)) + [OP_PREV] else Encode(EmitTest(e, t))
  {
    hide Bytes, EmitTest, ValidTest;
    var i := EmitTest(e, t);
    BytesOne(i);
    BytesOne(IPrev);
    BytesConcat([IPrev], [i] + [IPrev]);
    BytesConcat([i], [IPrev]);
    assert [IPrev, i, IPrev] == [IPrev] + ([i] + [IPrev]);
  }

  lemma PairAt(wide: bool, points: seq<nat>, pairs: seq<(nat, nat)>, k: nat)
    requires CanonicalPoints(points) && pairs == if wide then RangePairs(points) else Cap16(RangePairs(points))
    ensures 2 * |pairs| == |points|
    ensures k < |pairs| ==> points[2 * k] < points[2 * k + 1]
    ensures var high := if 2 * k + 1 < |points| then points[2 * k + 1] - 1 else 0;
      k < |pairs| ==> pairs[k] == (points[2 * k], if !wide && high == UINT32_MAX - 1 then 0xffff else high)
  {
  }

  /** `b` is `pre` and the first `k` pairs. */
  predicate PairsDone(wide: bool, pre: seq<byte>, pairs: seq<(nat, nat)>, k: nat, b: seq<byte>) {
    k <= |pairs| && b == pre + EncodeRanges(wide, pairs[..k])
  }

  lemma PairsStart(wide: bool, pre: seq<byte>, pairs: seq<(nat, nat)>)
    ensures PairsDone(wide, pre, pairs, 0, pre)
  {
    EncodeRangesNone(wide);
    assert pairs[..0] == [];
  }

  lemma PairsStep(wide: bool, pre: seq<byte>, pairs: seq<(nat, nat)>, k: nat, b: seq<byte>)
    requires PairsDone(wide, pre, pairs, k, b) && k < |pairs|
    ensures PairsDone(wide, pre, pairs, k + 1, b + PairBytes(wide, pairs[k]))
  {
    hide EncodeRanges, PairBytes;
    EncodeRangesSnoc(wide, pairs[..k], pairs[k]);
    assert pairs[..k + 1] == pairs[..k] + [pairs[k]];
  }

  lemma PairsEnd(wide: bool, pre: seq<byte>, pairs: seq<(nat, nat)>, k: nat, b: seq<byte>)
    requires PairsDone(wide, pre, pairs, k, b) && k >= |pairs|
    ensures b == pre + EncodeRanges(wide, pairs)
  {
    hide EncodeRanges;
    assert pairs[..k] == pairs;
  }

  lemma LeafFacts(e: Env, n: Node, back: bool)
    requires Leaf(n) && ValidNode(n)
    ensures n.Single? ==> ValidTest(n.test)
    ensures !n.Single? ==> RangesFit(n)
    ensures Bytes(LeafCode(e, n, back)) ==
      match n
      case Empty => []
      case Single(t) => Bytes(EmitSingle(e, t, back))
      case LineStart(multi) => [OP_LINE_START + Flag(multi)]
      case LineEnd(multi) => [OP_LINE_END + Flag(multi)]
      case WordBoundary(negated, icase) => [OP_WORD_BOUNDARY + 2 * Flag(negated) + Flag(icase)]
      case BackRef(refs, icase) => [OP_BACK_REFERENCE + 2 * Flag(back) + Flag(icase), |refs| % 256] + EncodeRefs(refs)
  {
    hide Bytes, EmitSingle, ValidTest;
    BytesNone();
    match n {
      case LineStart(multi) => BytesOne(ILineStart(multi));
      case LineEnd(multi) => BytesOne(ILineEnd(multi));
      case WordBoundary(negated, icase) => BytesOne(IWordBoundary(negated, icase));
      case BackRef(refs, icase) => BytesOne(IBackRef(back, icase, refs));
      case _ =>
    }
  }

  lemma NodeParts(n: Node)
    ensures match n
      case Group(b) => NodeSize(b) < NodeSize(n)
      case Look(_, _, b) => NodeSize(b) < NodeSize(n)
      case Quant(b, _, _, _) => NodeSize(b) < NodeSize(n)
      case _ => true
  {
  }

  lemma GroupBytes(e: Env, b: Node, cc: nat, back: bool)
    requires ValidNode(b)
    ensures ValidNode(Group(b))
    ensures Bytes(Code(e, Group(b), cc, back, false, 0)) ==
      [OP_SAVE_START + Flag(back), cc % 256] + Bytes(Code(e, b, cc + 1, back, false, 0)) + [OP_SAVE_START + 1 - Flag(back), cc % 256]
  {
    hide Code, Bytes;
    var code := Code(e, b, cc + 1, back, false, 0);
    GroupCode(e, b, cc, back, false, 0);
    BytesOne(ISave(back, cc));
    BytesOne(ISave(!back, cc));
    BytesConcat([ISave(back, cc)], code);
    BytesConcat([ISave(back, cc)] + code, [ISave(!back, cc)]);
  }

  function LookOp(negated: bool): byte { OP_LOOKAHEAD + Flag(negated) }
  function LookMatchOp(negated: bool): byte { OP_LOOKAHEAD_MATCH + Flag(negated) }

  lemma LookParts(negated: bool, behind: bool, b: Node)
    ensures Groups(Look(negated, behind, b)) == Groups(b) && RangesFit(Look(negated, behind, b)) == RangesFit(b)
  {
  }

  lemma LookBytes(e: Env, negated: bool, behind: bool, b: Node, cc: nat, back: bool)
    requires ValidNode(b)
    ensures ValidNode(Look(negated, behind, b))
    ensures var body := Code(e, b, cc, behind, false, 0);
      Bytes(Code(e, Look(negated, behind, b), cc, back, false, 0)) ==
      [LookOp(negated)] + U32(|Bytes(body) + [LookMatchOp(negated)]|) + (Bytes(body) + [LookMatchOp(negated)])
  {
    hide Code, Bytes, Size, U32;
    var body := Code(e, b, cc, behind, false, 0);
    LookCodeUnfold(e, negated, behind, b, cc, back, false, 0);
    BytesSize(body);
    var i, j := ILook(negated, Size(body) + 1), ILookMatch(negated);
    BytesOne(i);
    BytesOne(j);
    BytesConcat([i], body);
    BytesConcat([i] + body, [j]);
  }

  function BranchHead(before: seq<Instr>): seq<byte> {
    [OP_SPLIT_GOTO_FIRST + 1] + U32(Size(before) + 5) + Bytes(before)
  }

  lemma AltBytes(a: seq<Instr>, b: seq<Instr>)
    ensures Bytes(AltCode(a, b)) == BranchHead(a) + [OP_GOTO] + U32(|Bytes(b)|) + Bytes(b)
  {
    hide Bytes, Size, U32;
    BytesSize(b);
    var split, jump := ISplit(true, Size(a) + 5), IGoto(Size(b));
    BytesOne(split);
    BytesOne(jump);
    BytesConcat([split], a);
    BytesConcat([split] + a, [jump]);
    BytesConcat([split] + a + [jump], b);
  }

  lemma TermAt(ns: seq<Node>, i: nat, n: Node)
    requires i < |ns| && AllValid(ns)
    requires Smaller(ns, n) || (ns == [n] && !n.Cat? && !n.Empty?)
    ensures ValidNode(ns[i])
    ensures NodeSize(ns[i]) < NodeSize(n) || (ns[i] == n && !n.Cat? && !n.Empty?)
  {
    hide ValidNode, NodeSize;
  }

  lemma AltAt(ns: seq<Node>, i: nat, n: Node)
    requires i < |ns| && AllValid(ns)
    requires Smaller(ns, n) || (ns == [n] && !n.Alt?)
    ensures ValidNode(ns[i])
    ensures NodeSize(ns[i]) < NodeSize(n) || (ns[i] == n && !n.Alt?)
  {
    hide ValidNode, NodeSize;
  }

  /** One more element of the list compiled. */
  lemma SnocAt(e: Env, ns: seq<Node>, i: nat, cc: nat, back: bool)
    requires i < |ns| && AllValid(ns)
    ensures AllValid(ns[..i]) && AllValid(ns[..i + 1])
    ensures GroupsOf(ns[..i + 1]) == GroupsOf(ns[..i]) + Groups(ns[i])
    ensures AllFit(ns[..i + 1]) == (AllFit(ns[..i]) && RangesFit(ns[i]))
    ensures ValidNode(ns[i])
    ensures var code := Code(e, ns[i], cc + GroupsOf(ns[..i]), back, false, 0);
      && TermsCode(e, ns[..i + 1], cc, back) == (if back then code + TermsCode(e, ns[..i], cc, back) else TermsCode(e, ns[..i], cc, back) + code)
      && AltsCode(e, ns[..i + 1], cc, back) == if i == 0 then Code(e, ns[i], cc, back, false, 0) else AltCode(AltsCode(e, ns[..i], cc, back), code)
  {
    hide Code, AltCode, Groups, ValidNode, RangesFit, TermsCode, AltsCode, GroupsOf;
    assert ns[..i + 1] == ns[..i] + [ns[i]];
    assert forall k :: 0 <= k < i ==> ns[..i][k] == ns[k];
    Snoc(e, ns[..i], ns[i], cc, back);
    GroupsNone();
  }

  lemma GroupsNone()
    ensures GroupsOf([]) == 0
  {
  }

  /** Groups only add up. */
  lemma {:induction false} GroupsUpTo(ns: seq<Node>, i: nat)
    requires i <= |ns|
    ensures GroupsOf(ns[..i]) <= GroupsOf(ns)
    decreases |ns|
  {
    if i == |ns| {
      assert ns[..i] == ns;
    } else {
      var init := ns[..|ns| - 1];
      assert ns[..i] == init[..i];
      GroupsUpTo(init, i);
    }
  }

  lemma AllFitAt(ns: seq<Node>, i: nat)
    requires i < |ns|
    ensures AllFit(ns) ==> RangesFit(ns[i])
  {
    hide RangesFit;
  }

  // ----- the register pass -----

  const HEADER_LEN: nat := 8

  /** After `done`, with `rest` to go. */
  predicate ScanState(b: seq<byte>, head: seq<byte>, done: seq<Instr>, rest: seq<Instr>, ins: seq<Instr>, pos: nat, size: nat, max: nat) {
    && |head| == HEADER_LEN && b == head + Bytes(done) + Bytes(rest) && pos == |head + Bytes(done)|
    && AllSized(rest) && size <= max <= REGISTER_COUNT_MAX
    && Alloc(rest, size).ok && Alloc(ins, 0).code == done + Alloc(rest, size).code
    && Alloc(ins, 0).peak == Max(max, Alloc(rest, size).peak)
  }

  lemma StartScan(head: seq<byte>, ins: seq<Instr>)
    requires |head| == HEADER_LEN && AllSized(ins) && Alloc(ins, 0).ok
    ensures ScanState(head + Bytes(ins), head, [], ins, ins, HEADER_LEN, 0, 0)
  {
    hide Alloc;
    BytesNone();
    assert head + [] + Bytes(ins) == head + Bytes(ins);
  }

  lemma NextInstr(b: seq<byte>, head: seq<byte>, done: seq<Instr>, rest: seq<Instr>, ins: seq<Instr>, pos: nat, size: nat, max: nat) returns (i: Instr)
    requires ScanState(b, head, done, rest, ins, pos, size, max) && pos < |b|
    ensures rest != [] && i == rest[0] && Holds(b, pos, Encode(i)) && Sized(i) && Closes(i) <= size <= max <= REGISTER_COUNT_MAX
  {
    hide Encode, Sized, WithRegister, Opens, Closes;
    assert b[pos..] == Bytes(rest);
    NotEmpty(rest);
    BytesHead(rest, b, pos);
    i := rest[0];
  }

  lemma SmallRegister(r: int)
    requires 0 <= r < REGISTER_COUNT_MAX
    ensures 0 <= r < 256
  {
  }

  lemma ScanMax(max: nat, size: nat)
    ensures Max(max, size) == if size > max then size else max
  {
  }

  lemma StackOverflow(b: seq<byte>, head: seq<byte>, done: seq<Instr>, rest: seq<Instr>, ins: seq<Instr>, pos: nat, size: nat, max: nat)
    requires ScanState(b, head, done, rest, ins, pos, size, max) && rest != [] && Opens(rest[0]) == 1 && Closes(rest[0]) == 0
    requires size >= REGISTER_COUNT_MAX
    ensures Alloc(ins, 0).peak > REGISTER_COUNT_MAX
  {
  }

  lemma AdvanceScan(b: seq<byte>, b': seq<byte>, head: seq<byte>, done: seq<Instr>, rest: seq<Instr>, ins: seq<Instr>, pos: nat, size: nat, max: nat, max': nat)
    requires ScanState(b, head, done, rest, ins, pos, size, max) && rest != []
    requires var i := rest[0];
      var now := size - Closes(i);
      && now >= 0 && max' == Max(max, now + Opens(i)) <= REGISTER_COUNT_MAX
      && (Opens(i) == 0 && Closes(i) == 0 ==> b' == b)
      && (Opens(i) != 0 || Closes(i) != 0 ==> pos + 1 < |b| && now < 256 && b' == b[pos + 1 := now])
    ensures var i := rest[0];
      ScanState(b', head, done + [WithRegister(i, size - Closes(i))], rest[1..], ins, pos + ISize(i), size - Closes(i) + Opens(i), max')
  {
    hide *;
    ScanParts(b, head, done, rest, ins, pos, size, max);
    var i, now := rest[0], size - Closes(rest[0]);
    var j := WithRegister(i, now);
    var next := now + Opens(i);
    AllocStep(rest, size);
    RegisterSame(i, now);
    PatchedBytes(b, b', head + Bytes(done), rest, pos, now);
    BytesConcat(done, [j]);
    BytesOne(j);
    assert head + (Bytes(done) + Encode(j)) == head + Bytes(done) + Encode(j);
    RegisterSize(i, now);
    EncodeSize(j);
    assert done + ([j] + Alloc(rest[1..], next).code) == done + [j] + Alloc(rest[1..], next).code;
    MaxThree(max, size, next, Alloc(rest[1..], next).peak);
    ScanWhole(b', head, done + [j], rest[1..], ins, pos + ISize(i), next, max');
  }

  lemma EncodeSize(i: Instr)
    ensures |Encode(i)| == ISize(i)
  {
    hide Encode;
  }

  lemma RegisterSame(i: Instr, r: nat)
    ensures Opens(i) == 0 && Closes(i) == 0 ==> WithRegister(i, r) == i
  {
  }

  lemma MaxThree(max: nat, size: nat, next: nat, peak: nat)
    requires size <= max && peak >= next
    ensures Max(max, Max(Max(size, next), peak)) == Max(Max(max, next), peak) && next <= Max(max, next)
  {
  }

  lemma AllocStep(rest: seq<Instr>, size: nat)
    requires rest != [] && Alloc(rest, size).ok
    ensures var i := rest[0];
      var now := size - Closes(i);
      && now >= 0 && Alloc(rest[1..], now + Opens(i)).ok
      && Alloc(rest, size).code == [WithRegister(i, now)] + Alloc(rest[1..], now + Opens(i)).code
      && Alloc(rest, size).peak == Max(Max(size, now + Opens(i)), Alloc(rest[1..], now + Opens(i)).peak)
      && Alloc(rest[1..], now + Opens(i)).peak >= now + Opens(i)
  {
    hide WithRegister, Closes, Opens, Max;
  }

  lemma ScanParts(b: seq<byte>, head: seq<byte>, done: seq<Instr>, rest: seq<Instr>, ins: seq<Instr>, pos: nat, size: nat, max: nat)
    requires ScanState(b, head, done, rest, ins, pos, size, max)
    ensures b == head + Bytes(done) + Bytes(rest) && pos == |head + Bytes(done)| && |head| == HEADER_LEN && size <= max
    ensures rest != [] ==> AllSized(rest[1..])
    ensures Alloc(rest, size).ok && Alloc(ins, 0).code == done + Alloc(rest, size).code
    ensures Alloc(ins, 0).peak == Max(max, Alloc(rest, size).peak)
  {
    hide Alloc, Bytes, Max, Sized;
  }

  lemma ScanWhole(b: seq<byte>, head: seq<byte>, done: seq<Instr>, rest: seq<Instr>, ins: seq<Instr>, pos: nat, size: nat, max: nat)
    requires |head| == HEADER_LEN && b == head + Bytes(done) + Bytes(rest) && pos == |head + Bytes(done)|
    requires AllSized(rest) && size <= max <= REGISTER_COUNT_MAX
    requires Alloc(rest, size).ok && Alloc(ins, 0).code == done + Alloc(rest, size).code
    requires Alloc(ins, 0).peak == Max(max, Alloc(rest, size).peak)
    ensures ScanState(b, head, done, rest, ins, pos, size, max)
  {
    hide Alloc, Bytes, Max, Sized;
  }

  lemma RegisterRoom(i: Instr, b: seq<byte>, pos: nat)
    requires Holds(b, pos, Encode(i))
    ensures Opens(i) != 0 || Closes(i) != 0 ==> pos + 1 < |b|
  {
    if Opens(i) != 0 || Closes(i) != 0 { PatchRegister(i, 0); }
  }

  lemma PatchedBytes(b: seq<byte>, b': seq<byte>, before: seq<byte>, rest: seq<Instr>, pos: nat, now: nat)
    requires rest != [] && b == before + Bytes(rest) && pos == |before|
    requires Opens(rest[0]) == 0 && Closes(rest[0]) == 0 ==> b' == b && WithRegister(rest[0], now) == rest[0]
    requires Opens(rest[0]) != 0 || Closes(rest[0]) != 0 ==> pos + 1 < |b| && now < 256 && b' == b[pos + 1 := now]
    ensures b' == before + Encode(WithRegister(rest[0], now)) + Bytes(rest[1..])
  {
    hide Encode, Closes, Opens, WithRegister;
    var x, tail := Encode(rest[0]), Bytes(rest[1..]);
    assert b == before + x + tail;
    if Opens(rest[0]) != 0 || Closes(rest[0]) != 0 {
      PatchRegister(rest[0], now);
      assert b' == before + x[1 := now] + tail;
    }
  }

  lemma EndScan(b: seq<byte>, head: seq<byte>, done: seq<Instr>, rest: seq<Instr>, ins: seq<Instr>, pos: nat, size: nat, max: nat)
    requires ScanState(b, head, done, rest, ins, pos, size, max) && pos >= |b|
    ensures Alloc(ins, 0).peak == max <= REGISTER_COUNT_MAX && b == head + Bytes(Alloc(ins, 0).code)
  {
    NoBytes(rest);
    assert done + [] == done;
  }

  // ----- what lre_compile produces -----

  datatype CompileError = TooManyCapturesOrRanges | TooManyRegisters | TooLarge

  /** Byte code is refused beyond this size. */
  const SIZE_MAX: nat := INT32_MAX / 2

  /** The flags of a regular expression. */
  datatype Flags = Flags(
    global: bool, ignoreCase: bool, multiline: bool, dotAll: bool, unicode: bool, sticky: bool, indices: bool, namedGroups: bool, unicodeSets: bool)

  function Bit(b: bool): nat { if b then 1 else 0 }

  /** The word the program passes them in: bit 0 first. */
  function FlagWord(f: Flags): nat {
    FromBits([f.global, f.ignoreCase, f.multiline, f.dotAll, f.unicode, f.sticky, f.indices, f.namedGroups, f.unicodeSets])
  }

  function FromBits(b: seq<bool>): nat { if b == [] then 0 else Bit(b[0]) + 2 * FromBits(b[1..]) }

  lemma LowBit(b: bool, rest: nat)
    ensures (Bit(b) + 2 * rest) / 2 == rest && ((Bit(b) + 2 * rest) % 2 == 1 <==> b)
  {
  }

  function Half(w: nat, k: nat): nat { if k == 0 then w else Half(w / 2, k - 1) }

  lemma {:induction false} BitAt(b: seq<bool>, k: nat)
    requires k < |b|
    ensures Half(FromBits(b), k) % 2 == 1 <==> b[k]
  {
    LowBit(b[0], FromBits(b[1..]));
    if k > 0 { BitAt(b[1..], k - 1); }
  }

  lemma Halves(w: nat)
    ensures Half(w, 0) == w && Half(w, 1) == w / 2 && Half(w, 2) == w / 4 && Half(w, 3) == w / 8
  {
    assert Half(w, 2) == Half(w / 2, 1) == Half(w / 2 / 2, 0);
    assert Half(w, 3) == Half(w / 2, 2) == Half(w / 2 / 2, 1) == Half(w / 2 / 2 / 2, 0);
  }

  lemma MoreHalves(w: nat, k: nat)
    ensures Half(w, k + 3) == Half(w / 8, k)
  {
    assert Half(w, k + 3) == Half(w / 2, k + 2) == Half(w / 2 / 2, k + 1) == Half(w / 2 / 2 / 2, k);
  }

  lemma AllHalves(w: nat)
    ensures Half(w, 0) == w && Half(w, 1) == w / 2 && Half(w, 2) == w / 4 && Half(w, 3) == w / 8 && Half(w, 4) == w / 16
    ensures Half(w, 5) == w / 32 && Half(w, 6) == w / 64 && Half(w, 7) == w / 128 && Half(w, 8) == w / 256
  {
    hide Half;
    var v := w / 8;
    Halves(w);
    Halves(v);
    Halves(v / 8);
    MoreHalves(w, 1);
    MoreHalves(w, 2);
    MoreHalves(w, 3);
    MoreHalves(w, 4);
    MoreHalves(w, 5);
    MoreHalves(v, 1);
    MoreHalves(v, 2);
    assert v / 2 == w / 16 && v / 4 == w / 32 && v / 8 == w / 64;
    assert v / 8 / 2 == w / 64 / 2 == w / 128;
    assert v / 8 / 4 == w / 64 / 4 == w / 256;
  }

  /** Each flag is one bit of the word. */
  lemma FlagBits(f: Flags)
    ensures (FlagWord(f) % 2 == 1 <==> f.global) && (FlagWord(f) / 2 % 2 == 1 <==> f.ignoreCase) && (FlagWord(f) / 4 % 2 == 1 <==> f.multiline)
    ensures (FlagWord(f) / 8 % 2 == 1 <==> f.dotAll) && (FlagWord(f) / 16 % 2 == 1 <==> f.unicode) && (FlagWord(f) / 32 % 2 == 1 <==> f.sticky)
    ensures (FlagWord(f) / 64 % 2 == 1 <==> f.indices) && (FlagWord(f) / 128 % 2 == 1 <==> f.namedGroups)
    ensures (FlagWord(f) / 256 % 2 == 1 <==> f.unicodeSets) && FlagWord(f) < 512
  {
    hide FromBits, Half, FlagWord;
    var b := [f.global, f.ignoreCase, f.multiline, f.dotAll, f.unicode, f.sticky, f.indices, f.namedGroups, f.unicodeSets];
    var w := FromBits(b);
    WordIs(f);
    BitAt(b, 0);
    BitAt(b, 1);
    BitAt(b, 2);
    BitAt(b, 3);
    BitAt(b, 4);
    BitAt(b, 5);
    BitAt(b, 6);
    BitAt(b, 7);
    BitAt(b, 8);
    AllHalves(w);
    Below(b);
  }

  lemma WordIs(f: Flags)
    ensures FlagWord(f) == FromBits([f.global, f.ignoreCase, f.multiline, f.dotAll, f.unicode, f.sticky, f.indices, f.namedGroups, f.unicodeSets])
  {
    hide FromBits;
  }

  lemma Below(b: seq<bool>)
    requires |b| == 9
    ensures FromBits(b) < 512
  {
    hide FromBits;
    BitsOf(b);
    BitsOf(b[3..]);
    BitsOf(b[3..][3..]);
    NoBits(b[3..][3..][3..]);
  }

  lemma BitsOf(b: seq<bool>)
    requires |b| >= 3
    ensures FromBits(b) <= 7 + 8 * FromBits(b[3..])
  {
    assert b[1..][1..][1..] == b[3..];
    assert FromBits(b) == Bit(b[0]) + 2 * (Bit(b[1]) + 2 * (Bit(b[2]) + 2 * FromBits(b[3..])));
  }

  lemma NoBits(b: seq<bool>)
    requires b == []
    ensures FromBits(b) == 0
  {
  }

  function ImageSize(e: Env, n: Node, sticky: bool): nat
    requires ValidNode(n)
  {
    HEADER_LEN + Size(ProgramCode(e, n, sticky, false))
  }

  /** Patterns within the limits of the engine. */
  predicate Compilable(e: Env, n: Node, sticky: bool)
    requires ValidNode(n)
  {
    && 1 + Groups(n) <= 255 && RangesFit(n) && Depth(n, false) <= 255
    && ImageSize(e, n, sticky) <= 0x3fff_ffff
  }

  function Header(flags: nat, captures: byte, registers: byte, size: nat): (r: seq<byte>)
    ensures |r| == HEADER_LEN
  {
    U16(flags) + [captures, registers] + U32(size)
  }

  /** The compiled pattern: header, then code. */
  function Image(e: Env, n: Node, f: Flags): seq<byte>
    requires ValidNode(n)
  {
    var code := Bytes(ProgramCode(e, n, f.sticky, true));
    Header(FlagWord(f), (1 + Groups(n)) % 256, Depth(n, false) % 256, |code|) + code
  }

  /** Of the flags only `sticky` reaches the code: otherwise the images differ in the two bytes of the word, from which
    * the flags are read back. */
  lemma FlagsInHeader(e: Env, n: Node, f: Flags, g: Flags)
    requires ValidNode(n)
    ensures |Image(e, n, f)| >= HEADER_LEN && GetU16(Image(e, n, f), 0) == FlagWord(f)
    ensures f.sticky == g.sticky ==> Image(e, n, f)[2..] == Image(e, n, g)[2..]
    ensures Image(e, n, f) == Image(e, n, g) ==> f == g
  {
    hide Bytes, ProgramCode, U32, Groups, Depth, ValidNode, FlagWord;
    HeaderBytes(e, n, f);
    HeaderBytes(e, n, g);
    FlagBits(f);
    FlagBits(g);
  }

  lemma HeaderBytes(e: Env, n: Node, f: Flags)
    requires ValidNode(n)
    ensures |Image(e, n, f)| >= HEADER_LEN && GetU16(Image(e, n, f), 0) == FlagWord(f)
    ensures (var code := Bytes(ProgramCode(e, n, f.sticky, true));
      Image(e, n, f)[2..] == [(1 + Groups(n)) % 256, Depth(n, false) % 256] + U32(|code|) + code)
  {
    hide Bytes, ProgramCode, U32, Groups, Depth, ValidNode, FlagWord;
    FlagBits(f);
    U32Len(|Bytes(ProgramCode(e, n, f.sticky, true))|);
  }

  lemma U16Len(v: nat)
    ensures |U16(v)| == 2
  {
  }

  lemma StartHeader(flags: nat, head: seq<byte>)
    requires head == [] + U16(flags) + [0] + [0] + U32(0)
    ensures |head| == HEADER_LEN && head[..2] == U16(flags) && 1 <= CAPTURE_COUNT_MAX
  {
  }

  lemma CompilableIs(e: Env, n: Node, sticky: bool)
    requires ValidNode(n)
    ensures Compilable(e, n, sticky) ==
      (1 + Groups(n) <= CAPTURE_COUNT_MAX && RangesFit(n) && Depth(n, false) <= REGISTER_COUNT_MAX
       && HEADER_LEN + Size(ProgramCode(e, n, sticky, false)) <= SIZE_MAX)
    ensures ImageSize(e, n, sticky) == HEADER_LEN + Size(ProgramCode(e, n, sticky, false))
    ensures CAPTURE_COUNT_MAX == REGISTER_COUNT_MAX == 255
  {
    hide Groups, RangesFit, Depth, Size, ProgramCode;
  }

  lemma ProgramBytes(e: Env, n: Node, sticky: bool)
    requires ValidNode(n)
    ensures Bytes(ProgramCode(e, n, sticky, false)) ==
      (if sticky then [] else [OP_SPLIT_GOTO_FIRST] + U32(6) + [OP_ANY] + ([OP_GOTO] + U32(-11)))
      + ([OP_SAVE_START, 0] + Bytes(Code(e, n, 1, false, false, 0)) + [OP_SAVE_START + 1, 0] + [OP_MATCH])
  {
    hide *;
    var code := Code(e, n, 1, false, false, 0);
    ProgramShape(e, n, sticky);
    PrefixBytes(sticky);
    FrameBytes();
    BytesConcat([ISave(false, 0)], code);
    BytesConcat([ISave(false, 0)] + code, [ISave(true, 0), IMatch]);
    BytesConcat(SearchPrefix(sticky), [ISave(false, 0)] + code + [ISave(true, 0), IMatch]);
  }

  lemma ProgramShape(e: Env, n: Node, sticky: bool)
    requires ValidNode(n)
    ensures ProgramCode(e, n, sticky, false) == SearchPrefix(sticky) + ([ISave(false, 0)] + Code(e, n, 1, false, false, 0) + [ISave(true, 0), IMatch])
  {
    hide Code, ValidNode, SearchPrefix;
  }

  lemma FrameBytes()
    ensures Bytes([ISave(false, 0)]) == [OP_SAVE_START, 0]
    ensures Bytes([ISave(true, 0), IMatch]) == [OP_SAVE_START + 1, 0] + [OP_MATCH]
  {
    hide Bytes;
    BytesOne(ISave(false, 0));
    BytesOne(ISave(true, 0));
    BytesOne(IMatch);
    BytesConcat([ISave(true, 0)], [IMatch]);
    assert [ISave(true, 0), IMatch] == [ISave(true, 0)] + [IMatch];
  }

  lemma PrefixBytes(sticky: bool)
    ensures Bytes(SearchPrefix(sticky)) == if sticky then [] else [OP_SPLIT_GOTO_FIRST] + U32(6) + [OP_ANY] + ([OP_GOTO] + U32(-11))
  {
    hide Bytes, U32;
    BytesNone();
    BytesOne(ISplit(false, 6));
    BytesOne(IAny);
    BytesOne(IGoto(-11));
    BytesConcat([ISplit(false, 6)], [IAny]);
    BytesConcat([ISplit(false, 6)] + [IAny], [IGoto(-11)]);
    assert [ISplit(false, 6), IAny, IGoto(-11)] == [ISplit(false, 6)] + [IAny] + [IGoto(-11)];
  }

  /** Operands of a whole program. */
  lemma ProgramWithin(e: Env, n: Node, sticky: bool, alloc: bool)
    requires ValidEnv(e) && ValidNode(n) && RangesFit(n) && 1 + Groups(n) <= 256 && (alloc ==> Depth(n, false) <= 256)
    ensures AllWithin(ProgramCode(e, n, sticky, alloc), Size(ProgramCode(e, n, sticky, alloc)) + 11)
  {
    hide Code, Within, Size, ValidNode, RangesFit, Groups, Depth, ValidEnv, ISize;
    var code := Code(e, n, 1, false, alloc, 0);
    CodeWithin(e, n, 1, false, alloc, 0);
    var all := ProgramCode(e, n, sticky, alloc);
    var k := Size(all) + 11;
    var tail := [ISave(true, 0), IMatch];
    BytesConcat([ISave(false, 0)], code);
    BytesConcat([ISave(false, 0)] + code, tail);
    BytesConcat(SearchPrefix(sticky), [ISave(false, 0)] + code + tail);
    PrefixWithin(sticky, k);
    WithinMore(code, Size(code), k);
    WithinConcat([ISave(false, 0)], k, code, k, k);
    WithinConcat([ISave(false, 0)] + code, k, tail, k, k);
    WithinConcat(SearchPrefix(sticky), k, [ISave(false, 0)] + code + tail, k, k);
  }

  lemma PrefixWithin(sticky: bool, k: nat)
    requires k >= 11
    ensures AllWithin(SearchPrefix(sticky), k) && AllWithin([ISave(false, 0)], k) && AllWithin([ISave(true, 0), IMatch], k)
  {
  }

  lemma ProgramAllocated(e: Env, n: Node, sticky: bool)
    requires ValidEnv(e) && ValidNode(n) && RangesFit(n) && 1 + Groups(n) <= CAPTURE_COUNT_MAX
    ensures var ins := ProgramCode(e, n, sticky, false);
      && AllSized(ins) && Alloc(ins, 0).ok && Alloc(ins, 0).code == ProgramCode(e, n, sticky, true)
      && Alloc(ins, 0).peak == Depth(n, false) && Size(ProgramCode(e, n, sticky, true)) == Size(ins)
  {
    hide Alloc, ProgramCode, Size, ValidNode, RangesFit, Groups, Depth, ValidEnv, AllWithin, AllSized;
    var ins := ProgramCode(e, n, sticky, false);
    ProgramWithin(e, n, sticky, false);
    WithinIsSized(ins, Size(ins) + 11);
    ProgramAlloc(e, n, sticky);
    AllocatesSize(ins, 0, ProgramCode(e, n, sticky, true), 0, Depth(n, false));
  }
}
