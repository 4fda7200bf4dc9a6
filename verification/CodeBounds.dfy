/** Operands of emitted code: every jump stays within the size of its own term, and every other
  * operand fits its field. */
module CodeBounds {
  import opened RegexSyntax
  import opened Bytecode
  import opened Emit
  import opened CodeScan
  import opened RegisterScan

  /** Class matchers whose ranges can be counted in the 16-bit operand. */
  predicate RangesFit(n: Node) {
    match n
    case Single(Class(p, _)) => |p| / 2 < 65535
    case Cat(a, b) => RangesFit(a) && RangesFit(b)
    case Alt(a, b) => RangesFit(a) && RangesFit(b)
    case Group(b) => RangesFit(b)
    case Quant(b, _, _, _) => RangesFit(b)
    case Look(_, _, b) => RangesFit(b)
    case _ => true
  }

  function Offset(i: Instr): int {
    match i
    case IGoto(off) => off
    case ISplit(_, off) => off
    case ILoop(_, off) => off
    case ILoopSplit(_, _, _, _, off) => off
    case ILook(_, off) => off
    case _ => 0
  }

  /** The operands other than the jump. */
  predicate OperandsFit(i: Instr) {
    match i
    case IGoto(_) => true
    case ISplit(_, _) => true
    case ILook(_, _) => true
    case ILoop(r, _) => r < 256
    case ILoopSplit(_, _, r, limit, _) => r < 256 && limit < WORD
    case _ => ValidInstr(i)
  }

  predicate Within(i: Instr, k: nat) {
    Offset(i) <= k && -Offset(i) <= k && OperandsFit(i)
  }

  predicate AllWithin(ins: seq<Instr>, k: nat) {
    forall j :: 0 <= j < |ins| ==> Within(ins[j], k)
  }

  lemma WithinIsValid(ins: seq<Instr>, k: nat)
    requires AllWithin(ins, k) && k < 0x8000_0000
    ensures ValidCode(ins)
  {
  }

  lemma WithinIsSized(ins: seq<Instr>, k: nat)
    requires AllWithin(ins, k)
    ensures AllSized(ins)
  {
    forall j | 0 <= j < |ins| ensures Sized(ins[j]) {
      assert Within(ins[j], k);
    }
  }

  lemma WithinConcat(a: seq<Instr>, ka: nat, b: seq<Instr>, kb: nat, k: nat)
    requires AllWithin(a, ka) && AllWithin(b, kb) && ka <= k && kb <= k
    ensures AllWithin(a + b, k)
  {
    hide OperandsFit;
  }

  lemma WithinOne(i: Instr, k: nat)
    requires Within(i, k)
    ensures AllWithin([i], k)
  {
    hide Within;
  }

  lemma WithinMore(a: seq<Instr>, k: nat, k': nat)
    requires AllWithin(a, k) && k <= k'
    ensures AllWithin(a, k')
  {
    hide OperandsFit;
  }

  lemma WithinPair(i: Instr, a: seq<Instr>, ka: nat, j: Instr, k: nat)
    requires AllWithin(a, ka) && ka <= k && Within(i, k) && Within(j, k)
    ensures AllWithin([i] + a + [j], k)
  {
    hide Within;
    WithinMore(a, ka, k);
    assert forall m :: 0 <= m < |a| ==> ([i] + a + [j])[m + 1] == a[m];
  }

  /** Sizes of the fixed-length instructions. */
  lemma FixedSizes(i: Instr)
    ensures i.ISplit? || i.IGoto? || i.ILook? ==> ISize(i) == 5
    ensures i.ILoop? || i.ISetI32? ==> ISize(i) == 6
    ensures i.ILoopSplit? ==> ISize(i) == 10
    ensures i.ISetPos? || i.ICheckAdv? || i.ISave? ==> ISize(i) == 2
    ensures i.IReset? ==> ISize(i) == 3
  {
  }

  lemma ResetWithin(cc: nat, groups: nat, k: nat)
    requires cc + groups <= 256
    ensures AllWithin(ResetCode(cc, groups), k)
  {
  }

  lemma AtomWithin(b: Node, cc: nat, body: seq<Instr>)
    requires AllWithin(body, Size(body)) && cc + Groups(b) <= 256
    ensures AllWithin(AtomCode(b, cc, body), Size(AtomCode(b, cc, body)))
  {
    hide Within, Straight, Groups, ResetCode;
    var k := Size(AtomCode(b, cc, body));
    if NeedInit(b) {
      ResetWithin(cc, Groups(b), k);
      BytesConcat(ResetCode(cc, Groups(b)), body);
      WithinConcat(ResetCode(cc, Groups(b)), k, body, Size(body), k);
    } else {
      assert [] + body == body;
    }
  }

  lemma SetPosWithin(adv: bool, r: nat, k: nat)
    requires adv ==> r < 256
    ensures AllWithin(SetPosCode(adv, r), k) && AllWithin(CheckAdvCode(adv, r), k)
    ensures Size(SetPosCode(adv, r)) == Size(CheckAdvCode(adv, r)) == AdvSize(adv)
  {
    if adv {
      SizeOne(ISetPos(r));
      SizeOne(ICheckAdv(r));
    }
  }

  lemma OptionalWithin(adv: bool, again: bool, greedy: bool, atom: seq<Instr>, r: nat)
    requires AllWithin(atom, Size(atom)) && (adv ==> r < 256)
    ensures AllWithin(OptionalCode(adv, again, greedy, atom, r), Size(OptionalCode(adv, again, greedy, atom, r)))
  {
    hide *;
    var split := ISplit(greedy, Size(atom) + (if again then 5 else 0) + 2 * AdvSize(adv));
    var jump := if again then [IGoto(-(Size(atom) + 2 * AdvSize(adv) + 10))] else [];
    OptionalParts(adv, again, greedy, atom, r, split, jump);
    var sp, ca := SetPosCode(adv, r), CheckAdvCode(adv, r);
    var k := 5 + AdvSize(adv) + Size(atom) + AdvSize(adv) + (if again then 5 else 0);
    SetPosWithin(adv, r, k);
    JumpSize(again, Size(atom) + 2 * AdvSize(adv) + 10);
    SizeOne(split);
    FixedSizes(split);
    SizeFive([split], sp, atom, ca, jump);
    JumpWithin(split, k);
    WithinOne(split, k);
    WithinMore(atom, Size(atom), k);
    BackWithin(again, Size(atom) + 2 * AdvSize(adv) + 10, k);
    WithinFive([split], sp, atom, ca, jump, k);
  }

  lemma SizeFive(a: seq<Instr>, b: seq<Instr>, c: seq<Instr>, d: seq<Instr>, f: seq<Instr>)
    ensures Size(a + (b + c + d) + f) == Size(a) + Size(b) + Size(c) + Size(d) + Size(f)
  {
    hide *;
    BytesConcat(b, c);
    BytesConcat(b + c, d);
    BytesConcat(a, b + c + d);
    BytesConcat(a + (b + c + d), f);
  }

  lemma WithinFive(a: seq<Instr>, b: seq<Instr>, c: seq<Instr>, d: seq<Instr>, f: seq<Instr>, k: nat)
    requires AllWithin(a, k) && AllWithin(b, k) && AllWithin(c, k) && AllWithin(d, k) && AllWithin(f, k)
    ensures AllWithin(a + (b + c + d) + f, k)
  {
    hide *;
    WithinConcat(b, k, c, k, k);
    WithinConcat(b + c, k, d, k, k);
    WithinConcat(a, k, b + c + d, k, k);
    WithinConcat(a + (b + c + d), k, f, k, k);
  }

  lemma BackWithin(again: bool, off: int, k: nat)
    requires again ==> 0 <= off <= k
    ensures AllWithin(if again then [IGoto(-off)] else [], k)
  {
  }

  lemma JumpSize(again: bool, off: int)
    ensures Size(if again then [IGoto(-off)] else []) == if again then 5 else 0
  {
    SizeOne(IGoto(-off));
  }

  lemma JumpWithin(i: Instr, k: nat)
    requires (i.ISplit? || i.IGoto? || i.ILook?) && i.off <= k && -i.off <= k
    ensures Within(i, k)
  {
  }

  lemma LoopWithin(i: Instr, k: nat)
    requires (i.ILoop? && i.r < 256 && i.off <= k && -i.off <= k) || (i.ILoopSplit? && i.r < 256 && i.limit < WORD && i.off <= k && -i.off <= k)
      || (i.ISetI32? && i.r < 256 && i.v < WORD)
    ensures Within(i, k)
  {
  }

  lemma CountedWithin(adv: bool, max: nat, limit: nat, greedy: bool, atom: seq<Instr>, r: nat, rp: nat)
    requires AllWithin(atom, Size(atom)) && r < 256 && (adv ==> rp < 256) && max <= INT32_MAX && limit <= INT32_MAX
    ensures AllWithin(CountedCode(adv, max, limit, greedy, atom, r, rp), Size(CountedCode(adv, max, limit, greedy, atom, r, rp)))
    ensures Size(CountedCode(adv, max, limit, greedy, atom, r, rp)) == 6 + AdvSize(adv) + Size(atom) + 10
  {
    hide Within, Size, SetPosCode, ISize;
    var first := ISetI32(r, max);
    var last := ILoopSplit(adv, !greedy, r, limit, -(AdvSize(adv) + Size(atom) + 10));
    CountedParts(adv, max, limit, greedy, atom, r, rp);
    var sp := SetPosCode(adv, rp);
    var k := 6 + AdvSize(adv) + Size(atom) + 10;
    SetPosWithin(adv, rp, k);
    BytesConcat(sp, atom);
    BytesConcat([first], sp + atom);
    BytesConcat([first] + (sp + atom), [last]);
    SizeOne(first);
    SizeOne(last);
    FixedSizes(first);
    FixedSizes(last);
    WithinConcat(sp, k, atom, Size(atom), k);
    LoopWithin(first, k);
    LoopWithin(last, k);
    WithinPair(first, sp + atom, k, last, k);
  }

  lemma CountedOptionalWithin(adv: bool, max: nat, greedy: bool, atom: seq<Instr>, r: nat, rp: nat)
    requires AllWithin(atom, Size(atom)) && r < 256 && (adv ==> rp < 256) && max <= INT32_MAX
    ensures AllWithin(CountedOptionalCode(adv, max, greedy, atom, r, rp), Size(CountedOptionalCode(adv, max, greedy, atom, r, rp)))
  {
    hide Within, Size, CountedCode, ISize;
    var split := ISplit(greedy, 6 + AdvSize(adv) + Size(atom) + 10);
    CountedWithin(adv, max, max, greedy, atom, r, rp);
    var loop := CountedCode(adv, max, max, greedy, atom, r, rp);
    BytesConcat([split], loop);
    SizeOne(split);
    FixedSizes(split);
    JumpWithin(split, Size(loop) + 5);
    WithinOne(split, Size(loop) + 5);
    WithinConcat([split], Size(loop) + 5, loop, Size(loop), Size(loop) + 5);
  }

  lemma ExactWithin(max: nat, atom: seq<Instr>, r: nat)
    requires AllWithin(atom, Size(atom)) && r < 256 && max <= INT32_MAX
    ensures var code := [ISetI32(r, max)] + atom + [ILoop(r, -(Size(atom) + 6))];
      AllWithin(code, Size(code))
  {
    hide Within, Size, ISize;
    var first, last := ISetI32(r, max), ILoop(r, -(Size(atom) + 6));
    BytesConcat([first], atom);
    BytesConcat([first] + atom, [last]);
    SizeOne(first);
    SizeOne(last);
    FixedSizes(first);
    FixedSizes(last);
    LoopWithin(first, Size(atom) + 12);
    LoopWithin(last, Size(atom) + 12);
    WithinPair(first, atom, Size(atom), last, Size(atom) + 12);
  }

  lemma PlusWithin(greedy: bool, atom: seq<Instr>)
    requires AllWithin(atom, Size(atom))
    ensures var code := atom + [ISplit(!greedy, -(Size(atom) + 5))];
      AllWithin(code, Size(code))
  {
    hide Within, Size, ISize;
    var last := ISplit(!greedy, -(Size(atom) + 5));
    BytesConcat(atom, [last]);
    SizeOne(last);
    FixedSizes(last);
    JumpWithin(last, Size(atom) + 5);
    WithinOne(last, Size(atom) + 5);
    WithinConcat(atom, Size(atom), [last], Size(atom) + 5, Size(atom) + 5);
  }

  lemma QuantWithin(b: Node, cc: nat, back: bool, min: nat, max: nat, greedy: bool, body: seq<Instr>, r: nat, step: nat)
    requires min <= max <= INT32_MAX && AllWithin(body, Size(body)) && cc + Groups(b) <= 256
    requires r + Held(b, back, min, max) <= 256 && step <= 1 && (step == 0 ==> r == 0)
    ensures var code := QuantCode(b, cc, back, min, max, greedy, body, r, step);
      AllWithin(code, Size(code))
  {
    hide *;
    var code := QuantCode(b, cc, back, min, max, greedy, body, r, step);
    if max == 0 {
      DroppedWithin(b, cc, back, greedy, body, r, step);
    } else {
      HeldIs(b, back, min, max);
      QuantIs(b, cc, back, min, max, greedy, body, r, step);
      AtomWithin(b, cc, body);
      var adv := UsesAdvance(b, back, min, max);
      var atom := AtomCode(b, cc, body);
      var loop := LoopCode(b, cc, back, min, max, greedy, body, r, step);
      match ShapeOf(min, max, NeedAdvance(b, back)) {
        case Optional(again) => OptionalWithin(adv, again, greedy, atom, r);
        case CountedOptional => CountedOptionalWithin(adv, max, greedy, atom, r, r + step);
        case PlusLoop => PlusWithin(greedy, atom);
        case Exact => ExactWithin(max, atom, r);
        case Counted => CountedWithin(adv, max, max - min, greedy, atom, r, r + step);
      }
      SkipWithin(b, cc, min, Size(loop));
      BytesConcat(SkipReset(b, cc, min), loop);
      WithinConcat(SkipReset(b, cc, min), Size(loop), loop, Size(loop), Size(code));
    }
  }

  lemma SkipWithin(b: Node, cc: nat, min: nat, k: nat)
    requires cc + Groups(b) <= 256
    ensures AllWithin(SkipReset(b, cc, min), k)
  {
    hide Within, Straight, Groups, ResetCode;
    ResetWithin(cc, Groups(b), k);
  }

  lemma DroppedWithin(b: Node, cc: nat, back: bool, greedy: bool, body: seq<Instr>, r: nat, step: nat)
    requires cc + Groups(b) <= 256
    ensures var code := QuantCode(b, cc, back, 0, 0, greedy, body, r, step);
      AllWithin(code, Size(code))
  {
    hide Within, Straight, Groups, ResetCode, Size, Scan;
    var code := QuantCode(b, cc, back, 0, 0, greedy, body, r, step);
    assert SkipReset(b, cc, 0) + [] == SkipReset(b, cc, 0);
    SkipWithin(b, cc, 0, Size(code));
  }

  lemma LeafWithin(e: Env, n: Node, back: bool)
    requires Leaf(n) && ValidNode(n) && RangesFit(n) && ValidEnv(e)
    ensures AllWithin(LeafCode(e, n, back), 0)
  {
    hide EmitSingle;
    if n.Single? { SingleWithin(e, n.test, back); }
  }

  lemma SingleWithin(e: Env, t: CharTest, back: bool)
    requires ValidTest(t) && RangesFit(Single(t)) && ValidEnv(e)
    ensures AllWithin(EmitSingle(e, t, back), 0)
  {
    hide EmitTest, Within;
    TestWithin(e, t);
    WithinOne(EmitTest(e, t), 0);
    PrevWithin();
    if back {
      assert EmitSingle(e, t, back) == [IPrev] + [EmitTest(e, t)] + [IPrev];
      WithinPair(IPrev, [EmitTest(e, t)], 0, IPrev, 0);
    }
  }

  lemma PrevWithin()
    ensures Within(IPrev, 0)
  {
  }

  lemma TestWithin(e: Env, t: CharTest)
    requires ValidTest(t) && RangesFit(Single(t)) && ValidEnv(e)
    ensures Within(EmitTest(e, t), 0)
  {
    hide CanonicalPoints, EmitClass;
    match t {
      case Class(p, icase) => ClassWithin(p, icase);
      case _ =>
    }
  }

  lemma ClassWithin(p: seq<nat>, icase: bool)
    requires CanonicalPoints(p) && |p| / 2 < 65535
    ensures Within(EmitClass(p, icase), 0)
  {
    if p != [] {
      var rs := RangePairs(p);
      forall k | 0 <= k < |rs| ensures rs[k].0 < rs[k].1 + 1 <= UINT32_MAX && rs[k].0 < WORD && rs[k].1 < WORD {
        assert p[2 * k] < p[2 * k + 1];
      }
      if FitsRange16(p) { NarrowRanges(p); }
    }
  }

  lemma NarrowRanges(p: seq<nat>)
    requires CanonicalPoints(p) && p != [] && FitsRange16(p)
    ensures ValidRanges(false, Cap16(RangePairs(p)))
  {
    var rs := Cap16(RangePairs(p));
    forall k | 0 <= k < |rs| ensures rs[k].0 < 0x1_0000 && rs[k].1 < 0x1_0000 {
      var last := |p| - 1;
      assert p[2 * k] < p[2 * k + 1];
      if 2 * k + 1 < last { assert p[2 * k + 1] < p[last - 1] < p[last]; }
    }
  }

  lemma FitParts(n: Node)
    requires RangesFit(n)
    ensures match n
      case Cat(a, b) => RangesFit(a) && RangesFit(b)
      case Alt(a, b) => RangesFit(a) && RangesFit(b)
      case Group(b) => RangesFit(b)
      case Quant(b, _, _, _) => RangesFit(b)
      case Look(_, _, b) => RangesFit(b)
      case _ => true
  {
  }

  lemma GroupParts(n: Node)
    ensures match n
      case Cat(a, b) => Groups(n) == Groups(a) + Groups(b)
      case Alt(a, b) => Groups(n) == Groups(a) + Groups(b)
      case Group(b) => Groups(n) == 1 + Groups(b)
      case Quant(b, _, _, _) => Groups(n) == Groups(b)
      case Look(_, _, b) => Groups(n) == Groups(b)
      case _ => true
  {
  }

  /** No jump of a pattern's code is longer than that code, and all operands fit, as long as the
    * capture and register limits are kept. */
  lemma {:induction false} CodeWithin(e: Env, n: Node, cc: nat, back: bool, alloc: bool, d: nat)
    requires ValidEnv(e) && ValidNode(n) && RangesFit(n) && cc + Groups(n) <= 256 && (alloc ==> d + Depth(n, back) <= 256)
    ensures var code := Code(e, n, cc, back, alloc, d);
      AllWithin(code, Size(code))
    decreases n, 0
  {
    hide *;
    ValidParts(n);
    FitParts(n);
    GroupParts(n);
    DepthParts(n, back);
    match n {
      case Cat(a, b) =>
        MaxBounds(Depth(a, back), Depth(b, back));
        CodeWithin(e, a, cc, back, alloc, d);
        CodeWithin(e, b, cc + Groups(a), back, alloc, d);
        CatCode(e, a, b, cc, back, alloc, d);
        var ca, cb := Code(e, a, cc, back, alloc, d), Code(e, b, cc + Groups(a), back, alloc, d);
        BytesConcat(ca, cb);
        BytesConcat(cb, ca);
        WithinConcat(ca, Size(ca), cb, Size(cb), Size(ca) + Size(cb));
        WithinConcat(cb, Size(cb), ca, Size(ca), Size(ca) + Size(cb));
      case Alt(a, b) =>
        MaxBounds(Depth(a, back), Depth(b, back));
        CodeWithin(e, a, cc, back, alloc, d);
        CodeWithin(e, b, cc + Groups(a), back, alloc, d);
        AltCodeUnfold(e, a, b, cc, back, alloc, d);
        AltWithin(Code(e, a, cc, back, alloc, d), Code(e, b, cc + Groups(a), back, alloc, d));
      case Group(b) =>
        CodeWithin(e, b, cc + 1, back, alloc, d);
        GroupCode(e, b, cc, back, alloc, d);
        SaveWithin(cc, back);
        WrapWithin(ISave(back, cc), Code(e, b, cc + 1, back, alloc, d), ISave(!back, cc), 0);
      case Quant(b, min, max, greedy) => CodeWithinQuant(e, b, min, max, greedy, cc, back, alloc, d);
      case Look(negated, behind, b) =>
        CodeWithin(e, b, cc, behind, alloc, d);
        LookCodeUnfold(e, negated, behind, b, cc, back, alloc, d);
        var code := Code(e, b, cc, behind, alloc, d);
        LookMatchWithin(negated, Size(code) + 1);
        JumpWithin(ILook(negated, Size(code) + 1), Size(code) + 1);
        WrapWithin(ILook(negated, Size(code) + 1), code, ILookMatch(negated), 1);
      case Empty => CodeWithinLeaf(e, n, cc, back, alloc, d);
      case Single(_) => CodeWithinLeaf(e, n, cc, back, alloc, d);
      case LineStart(_) => CodeWithinLeaf(e, n, cc, back, alloc, d);
      case LineEnd(_) => CodeWithinLeaf(e, n, cc, back, alloc, d);
      case WordBoundary(_, _) => CodeWithinLeaf(e, n, cc, back, alloc, d);
      case BackRef(_, _) => CodeWithinLeaf(e, n, cc, back, alloc, d);
    }
  }

  lemma MaxBounds(a: nat, b: nat)
    ensures a <= Max(a, b) && b <= Max(a, b)
  {
  }

  lemma SaveWithin(cc: nat, back: bool)
    requires cc < 256
    ensures Within(ISave(back, cc), 0) && Within(ISave(!back, cc), 0)
  {
  }

  lemma LookMatchWithin(negated: bool, k: nat)
    ensures Within(ILookMatch(negated), k)
  {
  }

  lemma WrapWithin(i: Instr, code: seq<Instr>, j: Instr, more: nat)
    requires AllWithin(code, Size(code)) && more <= 1
    requires Within(i, Size(code) + more) || Within(i, 0)
    requires Within(j, Size(code) + more) || Within(j, 0)
    ensures AllWithin([i] + code + [j], Size([i] + code + [j]))
  {
    hide Size, ISize, OperandsFit;
    BytesConcat([i], code);
    BytesConcat([i] + code, [j]);
    SizeOne(i);
    SizeOne(j);
    WithinPair(i, code, Size(code), j, Size([i] + code + [j]));
  }

  lemma AltWithin(a: seq<Instr>, b: seq<Instr>)
    requires AllWithin(a, Size(a)) && AllWithin(b, Size(b))
    ensures AllWithin(AltCode(a, b), Size(AltCode(a, b)))
  {
    hide Size, ISize, Within;
    var split, jump := ISplit(true, Size(a) + 5), IGoto(Size(b));
    var k := Size(AltCode(a, b));
    BytesConcat([split], a);
    BytesConcat([split] + a, [jump]);
    BytesConcat([split] + a + [jump], b);
    SizeOne(split);
    SizeOne(jump);
    FixedSizes(split);
    FixedSizes(jump);
    JumpWithin(split, k);
    JumpWithin(jump, k);
    WithinPair(split, a, Size(a), jump, k);
    WithinConcat([split] + a + [jump], k, b, Size(b), k);
  }

  lemma CodeWithinLeaf(e: Env, n: Node, cc: nat, back: bool, alloc: bool, d: nat)
    requires (n.Empty? || n.Single? || n.LineStart? || n.LineEnd? || n.WordBoundary? || n.BackRef?)
    requires ValidEnv(e) && ValidNode(n) && RangesFit(n)
    ensures var code := Code(e, n, cc, back, alloc, d);
      AllWithin(code, Size(code))
  {
    hide Code, ValidNode, RangesFit, LeafCode, AllWithin, Size, ValidEnv;
    LeafCodeUnfold(e, n, cc, back, alloc, d);
    LeafWithin(e, n, back);
    WithinMore(LeafCode(e, n, back), 0, Size(LeafCode(e, n, back)));
  }

  lemma {:induction false} CodeWithinQuant(e: Env, b: Node, min: nat, max: nat, greedy: bool, cc: nat, back: bool, alloc: bool, d: nat)
    requires ValidEnv(e) && ValidNode(Quant(b, min, max, greedy)) && RangesFit(b) && cc + Groups(b) <= 256
    requires alloc ==> d + Depth(Quant(b, min, max, greedy), back) <= 256
    ensures var code := Code(e, Quant(b, min, max, greedy), cc, back, alloc, d);
      AllWithin(code, Size(code))
    decreases b, 1
  {
    hide *;
    DepthParts(Quant(b, min, max, greedy), back);
    QuantCodeIs(e, b, min, max, greedy, cc, back, alloc, d);
    var held := Held(b, back, min, max);
    var body := Code(e, b, cc, back, alloc, d + held);
    var r, step := if alloc then d else 0, if alloc then 1 else 0;
    if max == 0 {
      DroppedWithin(b, cc, back, greedy, body, r, step);
    } else {
      HeldSmall(b, back, min, max);
      CodeWithin(e, b, cc, back, alloc, d + held);
      QuantWithin(b, cc, back, min, max, greedy, body, r, step);
    }
  }

  lemma HeldSmall(b: Node, back: bool, min: nat, max: nat)
    ensures Held(b, back, min, max) <= 2
  {
    hide Scan;
  }
}
