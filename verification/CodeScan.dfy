/** The two linear passes over emitted code: what an atom is sure to do, and which registers the
  * loops use. Both give on the code what Emit says of the pattern. */
module CodeScan {
  import opened RegexSyntax
  import opened Bytecode
  import opened Emit

  // ----- re_need_check_adv_and_capture_init -----

  /** `moved`: a character is consumed for sure; `unsure`: some capture may stay unset;
    * `stopped`: the pass gave up at an unpredictable opcode. */
  datatype Effect = Effect(stopped: bool, moved: bool, unsure: bool)

  const NO_EFFECT: Effect := Effect(false, false, false)

  function InstrEffect(i: Instr): Effect {
    match i
    case IChar(_, _, _) => Effect(false, true, false)
    case IDot => Effect(false, true, false)
    case IAny => Effect(false, true, false)
    case ISpace(_) => Effect(false, true, false)
    case IRange(_, _, _) => Effect(false, true, false)
    case IBackRef(_, _, _) => Effect(false, false, true)
    case ILineStart(_) => NO_EFFECT
    case ILineEnd(_) => NO_EFFECT
    case IWordBoundary(_, _) => NO_EFFECT
    case ISetI32(_, _) => NO_EFFECT
    case ISetPos(_) => NO_EFFECT
    case IPrev => NO_EFFECT
    case ISave(_, _) => NO_EFFECT
    case IReset(_, _) => NO_EFFECT
    case _ => Effect(true, false, true)
  }

  function Join(a: Effect, b: Effect): Effect {
    if a.stopped then a else Effect(b.stopped, a.moved || b.moved, a.unsure || b.unsure)
  }

  function ScanCode(ins: seq<Instr>): Effect {
    if ins == [] then NO_EFFECT else Join(InstrEffect(ins[0]), ScanCode(ins[1..]))
  }

  lemma {:induction false} ScanConcat(a: seq<Instr>, b: seq<Instr>)
    ensures ScanCode(a + b) == Join(ScanCode(a), ScanCode(b))
  {
    if a == [] {
      assert a + b == b;
    } else {
      assert (a + b)[1..] == a[1..] + b;
      ScanConcat(a[1..], b);
    }
  }

  lemma ScanOne(i: Instr)
    ensures ScanCode([i]) == InstrEffect(i)
  {
    assert [i][1..] == [];
  }

  lemma ScanReset(cc: nat, groups: nat)
    ensures ScanCode(ResetCode(cc, groups)) == NO_EFFECT
  {
    if groups != 0 { ScanOne(IReset(cc, cc + groups - 1)); }
  }

  lemma ScanSetPos(adv: bool, r: nat)
    ensures ScanCode(SetPosCode(adv, r)) == NO_EFFECT
  {
    if adv { ScanOne(ISetPos(r)); }
  }

  function NodeEffect(n: Node, back: bool): Effect {
    Effect(Scan(n, back).stopped, Scan(n, back).moved, !Straight(n))
  }

  lemma ScanSingle(e: Env, t: CharTest, back: bool)
    requires ValidTest(t)
    ensures ScanCode(EmitSingle(e, t, back)) == Effect(false, true, false)
  {
    ScanOne(EmitTest(e, t));
    if back {
      ScanOne(IPrev);
      assert EmitSingle(e, t, back) == [IPrev] + ([EmitTest(e, t)] + [IPrev]);
      ScanConcat([EmitTest(e, t)], [IPrev]);
      ScanConcat([IPrev], [EmitTest(e, t)] + [IPrev]);
    }
  }

  /** Code that opens with a branch tells nothing. */
  lemma ScanBranch(i: Instr, rest: seq<Instr>)
    requires InstrEffect(i).stopped
    ensures ScanCode([i] + rest) == Effect(true, false, true)
  {
    ScanOne(i);
    ScanConcat([i], rest);
  }

  lemma ScanAtom(b: Node, cc: nat, body: seq<Instr>)
    ensures ScanCode(AtomCode(b, cc, body)) == ScanCode(body)
  {
    hide Straight, Groups, ScanCode;
    if NeedInit(b) {
      ScanReset(cc, Groups(b));
      ScanConcat(ResetCode(cc, Groups(b)), body);
    } else {
      assert AtomCode(b, cc, body) == body;
    }
  }

  /** A loop around an atom that must run at least once. */
  lemma ScanLoop(before: seq<Instr>, atom: seq<Instr>, last: Instr)
    requires ScanCode(before) == NO_EFFECT && InstrEffect(last) == Effect(true, false, true)
    ensures ScanCode(before + atom + [last]) == Join(ScanCode(atom), Effect(true, false, true))
  {
    hide ScanCode;
    ScanOne(last);
    ScanConcat(before, atom);
    ScanConcat(before + atom, [last]);
  }

  lemma ScanQuant(b: Node, cc: nat, back: bool, min: nat, max: nat, greedy: bool, body: seq<Instr>, r: nat, step: nat)
    requires min <= max && max != 0 && ScanCode(body) == NodeEffect(b, back)
    requires Scan(b, back).stopped ==> !Straight(b)
    ensures ScanCode(QuantCode(b, cc, back, min, max, greedy, body, r, step)) == Effect(true, min != 0 && Scan(b, back).moved, true)
  {
    hide *;
    QuantParts(b, cc, back, min, max, greedy, body, r, step);
    var adv := UsesAdvance(b, back, min, max);
    var atom := AtomCode(b, cc, body);
    var code := QuantCode(b, cc, back, min, max, greedy, body, r, step);
    ScanAtom(b, cc, body);
    JoinLoop(b, back);
    match ShapeOf(min, max, NeedAdvance(b, back)) {
      case Optional(again) => ScanSkipped(b, cc, code, OptionalCode(adv, again, greedy, atom, r));
      case CountedOptional => ScanSkipped(b, cc, code, CountedOptionalCode(adv, max, greedy, atom, r, r + step));
      case PlusLoop => ScanPlus(atom, ISplit(!greedy, -(Size(atom) + 5)));
      case Exact => ScanExact(r, max, atom, ILoop(r, -(Size(atom) + 6)));
      case Counted => ScanCounted(adv, max, max - min, greedy, atom, r, r + step);
    }
  }

  lemma JoinLoop(b: Node, back: bool)
    requires Scan(b, back).stopped ==> !Straight(b)
    ensures Join(NodeEffect(b, back), Effect(true, false, true)) == Effect(true, Scan(b, back).moved, true)
  {
  }

  lemma QuantParts(b: Node, cc: nat, back: bool, min: nat, max: nat, greedy: bool, body: seq<Instr>, r: nat, step: nat)
    requires min <= max && max != 0
    ensures var adv := UsesAdvance(b, back, min, max);
      var atom := AtomCode(b, cc, body);
      var code := QuantCode(b, cc, back, min, max, greedy, body, r, step);
      match ShapeOf(min, max, NeedAdvance(b, back))
      case Dropped => false
      case Optional(again) => min == 0 && code == SkipReset(b, cc, 0) + OptionalCode(adv, again, greedy, atom, r)
        && OptionalCode(adv, again, greedy, atom, r) != [] && OptionalCode(adv, again, greedy, atom, r)[0].ISplit?
      case CountedOptional => min == 0 && code == SkipReset(b, cc, 0) + CountedOptionalCode(adv, max, greedy, atom, r, r + step)
        && CountedOptionalCode(adv, max, greedy, atom, r, r + step) != [] && CountedOptionalCode(adv, max, greedy, atom, r, r + step)[0].ISplit?
      case PlusLoop => min != 0 && code == atom + [ISplit(!greedy, -(Size(atom) + 5))]
      case Exact => min != 0 && code == [ISetI32(r, max)] + atom + [ILoop(r, -(Size(atom) + 6))]
      case Counted => min != 0 && code == CountedCode(adv, max, max - min, greedy, atom, r, r + step)
  {
    hide Size, AtomCode, NeedAdvance, Straight, ResetCode, Groups;
    assert min != 0 ==> SkipReset(b, cc, min) == [];
  }

  lemma ScanPlus(atom: seq<Instr>, last: Instr)
    requires last.ISplit?
    ensures ScanCode(atom + [last]) == Join(ScanCode(atom), Effect(true, false, true))
  {
    hide ScanCode;
    ScanNothing();
    assert [] + atom + [last] == atom + [last];
    ScanLoop([], atom, last);
  }

  lemma ScanExact(r: nat, max: nat, atom: seq<Instr>, last: Instr)
    requires last.ILoop?
    ensures ScanCode([ISetI32(r, max)] + atom + [last]) == Join(ScanCode(atom), Effect(true, false, true))
  {
    hide ScanCode;
    ScanOne(ISetI32(r, max));
    ScanLoop([ISetI32(r, max)], atom, last);
  }

  lemma ScanCounted(adv: bool, max: nat, limit: nat, greedy: bool, atom: seq<Instr>, r: nat, rp: nat)
    ensures ScanCode(CountedCode(adv, max, limit, greedy, atom, r, rp)) == Join(ScanCode(atom), Effect(true, false, true))
  {
    hide ScanCode, Size, SetPosCode;
    ScanOne(ISetI32(r, max));
    ScanSetPos(adv, rp);
    var last := ILoopSplit(adv, !greedy, r, limit, -(AdvSize(adv) + Size(atom) + 10));
    var before := [ISetI32(r, max)] + SetPosCode(adv, rp);
    ScanConcat([ISetI32(r, max)], SetPosCode(adv, rp));
    assert CountedCode(adv, max, limit, greedy, atom, r, rp) == before + atom + [last];
    ScanLoop(before, atom, last);
  }

  lemma ScanNothing()
    ensures ScanCode([]) == NO_EFFECT
  {
  }

  lemma ScanSkipped(b: Node, cc: nat, code: seq<Instr>, rest: seq<Instr>)
    requires rest != [] && rest[0].ISplit? && code == SkipReset(b, cc, 0) + rest
    ensures ScanCode(code) == Effect(true, false, true)
  {
    hide Straight, Groups, ScanCode;
    ScanReset(cc, Groups(b));
    ScanNothing();
    assert rest == [rest[0]] + rest[1..];
    ScanBranch(rest[0], rest[1..]);
    ScanConcat(SkipReset(b, cc, 0), rest);
  }

  lemma {:induction false} StoppedIsUnsure(n: Node, back: bool)
    requires Scan(n, back).stopped
    ensures !Straight(n)
  {
    match n {
      case Cat(a, b) =>
        if Scan(a, back).stopped { StoppedIsUnsure(a, back); }
        if Scan(b, back).stopped { StoppedIsUnsure(b, back); }
      case Group(b) => StoppedIsUnsure(b, back);
      case _ =>
    }
  }

  lemma LeafEffect(e: Env, n: Node, back: bool)
    requires Leaf(n) && ValidNode(n)
    ensures ScanCode(LeafCode(e, n, back)) == NodeEffect(n, back)
  {
    hide ScanCode, EmitSingle;
    ScanNothing();
    if n.Single? {
      ScanSingle(e, n.test, back);
    } else if !n.Empty? {
      ScanOne(LeafCode(e, n, back)[0]);
    }
  }

  lemma CatEffect(a: Node, b: Node, back: bool)
    ensures NodeEffect(Cat(a, b), back) ==
      if back then Join(NodeEffect(b, back), NodeEffect(a, back)) else Join(NodeEffect(a, back), NodeEffect(b, back))
  {
    if Scan(a, back).stopped { StoppedIsUnsure(a, back); }
    if Scan(b, back).stopped { StoppedIsUnsure(b, back); }
  }

  lemma NestEffect(b: Node, back: bool, a: Node, n: Node, min: nat, max: nat, greedy: bool, negated: bool, behind: bool)
    ensures NodeEffect(Group(b), back) == NodeEffect(b, back)
    ensures NodeEffect(Alt(a, b), back) == NodeEffect(Look(negated, behind, b), back) == Effect(true, false, true)
    ensures NodeEffect(Quant(b, min, max, greedy), back) ==
      if max == 0 then NO_EFFECT else Effect(true, min != 0 && Scan(b, back).moved, true)
  {
  }

  /** The pass over the code of a pattern finds what Straight and Scan say of the pattern. */
  lemma {:induction false} CodeEffect(e: Env, n: Node, cc: nat, back: bool, alloc: bool, d: nat)
    requires ValidNode(n)
    ensures ScanCode(Code(e, n, cc, back, alloc, d)) == NodeEffect(n, back)
    decreases n, 0
  {
    hide *;
    ValidParts(n);
    match n {
      case Cat(a, b) =>
        CatCode(e, a, b, cc, back, alloc, d);
        CodeEffect(e, a, cc, back, alloc, d);
        CodeEffect(e, b, cc + Groups(a), back, alloc, d);
        ScanConcat(Code(e, a, cc, back, alloc, d), Code(e, b, cc + Groups(a), back, alloc, d));
        ScanConcat(Code(e, b, cc + Groups(a), back, alloc, d), Code(e, a, cc, back, alloc, d));
        CatEffect(a, b, back);
      case Alt(a, b) =>
        AltCodeUnfold(e, a, b, cc, back, alloc, d);
        NestEffect(b, back, a, n, 0, 0, false, false, false);
        AltCodeEffect(Code(e, a, cc, back, alloc, d), Code(e, b, cc + Groups(a), back, alloc, d));
      case Group(b) =>
        GroupCode(e, b, cc, back, alloc, d);
        NestEffect(b, back, b, n, 0, 0, false, false, false);
        CodeEffect(e, b, cc + 1, back, alloc, d);
        GroupCodeEffect(back, cc, Code(e, b, cc + 1, back, alloc, d));
      case Quant(b, min, max, greedy) => CodeEffectQuant(e, b, min, max, greedy, cc, back, alloc, d);
      case Look(negated, behind, b) =>
        LookCodeUnfold(e, negated, behind, b, cc, back, alloc, d);
        NestEffect(b, back, b, n, 0, 0, false, negated, behind);
        LookCodeEffect(negated, Code(e, b, cc, behind, alloc, d));
      case Empty => CodeEffectLeaf(e, n, cc, back, alloc, d);
      case Single(_) => CodeEffectLeaf(e, n, cc, back, alloc, d);
      case LineStart(_) => CodeEffectLeaf(e, n, cc, back, alloc, d);
      case LineEnd(_) => CodeEffectLeaf(e, n, cc, back, alloc, d);
      case WordBoundary(_, _) => CodeEffectLeaf(e, n, cc, back, alloc, d);
      case BackRef(_, _) => CodeEffectLeaf(e, n, cc, back, alloc, d);
    }
  }

  lemma CodeEffectLeaf(e: Env, n: Node, cc: nat, back: bool, alloc: bool, d: nat)
    requires (n.Empty? || n.Single? || n.LineStart? || n.LineEnd? || n.WordBoundary? || n.BackRef?) && ValidNode(n)
    ensures ScanCode(Code(e, n, cc, back, alloc, d)) == NodeEffect(n, back)
  {
    hide Code, ScanCode, NodeEffect, ValidNode, LeafCode;
    LeafCodeUnfold(e, n, cc, back, alloc, d);
    LeafEffect(e, n, back);
  }

  lemma AltCodeEffect(a: seq<Instr>, b: seq<Instr>)
    ensures ScanCode(AltCode(a, b)) == Effect(true, false, true)
  {
    hide ScanCode, Size;
    var i := ISplit(true, Size(a) + 5);
    assert AltCode(a, b) == [i] + (a + [IGoto(Size(b))] + b);
    ScanBranch(i, a + [IGoto(Size(b))] + b);
  }

  lemma LookCodeEffect(negated: bool, b: seq<Instr>)
    ensures ScanCode([ILook(negated, Size(b) + 1)] + b + [ILookMatch(negated)]) == Effect(true, false, true)
  {
    hide ScanCode, Size;
    var i := ILook(negated, Size(b) + 1);
    assert [i] + b + [ILookMatch(negated)] == [i] + (b + [ILookMatch(negated)]);
    ScanBranch(i, b + [ILookMatch(negated)]);
  }

  lemma GroupCodeEffect(back: bool, cc: nat, code: seq<Instr>)
    ensures ScanCode([ISave(back, cc)] + code + [ISave(!back, cc)]) == ScanCode(code)
  {
    hide ScanCode;
    ScanOne(ISave(back, cc));
    ScanOne(ISave(!back, cc));
    ScanConcat([ISave(back, cc)], code);
    ScanConcat([ISave(back, cc)] + code, [ISave(!back, cc)]);
  }

  lemma {:induction false} CodeEffectQuant(e: Env, b: Node, min: nat, max: nat, greedy: bool, cc: nat, back: bool, alloc: bool, d: nat)
    requires ValidNode(Quant(b, min, max, greedy))
    ensures ScanCode(Code(e, Quant(b, min, max, greedy), cc, back, alloc, d)) == NodeEffect(Quant(b, min, max, greedy), back)
    decreases b, 1
  {
    hide *;
    QuantCodeIs(e, b, min, max, greedy, cc, back, alloc, d);
    NestEffect(b, back, b, b, min, max, greedy, false, false);
    var body := Code(e, b, cc, back, alloc, d + Held(b, back, min, max));
    CodeEffect(e, b, cc, back, alloc, d + Held(b, back, min, max));
    if Scan(b, back).stopped { StoppedIsUnsure(b, back); }
    var r, step := if alloc then d else 0, if alloc then 1 else 0;
    if max == 0 { ScanDropped(b, cc, back, greedy, body, r, step); } else { ScanQuant(b, cc, back, min, max, greedy, body, r, step); }
  }

  lemma ScanDropped(b: Node, cc: nat, back: bool, greedy: bool, body: seq<Instr>, r: nat, step: nat)
    ensures ScanCode(QuantCode(b, cc, back, 0, 0, greedy, body, r, step)) == NO_EFFECT
  {
    hide ScanCode, Straight, Groups, ResetCode, Encode, Scan;
    ScanReset(cc, Groups(b));
    ScanNothing();
    assert QuantCode(b, cc, back, 0, 0, greedy, body, r, step) == SkipReset(b, cc, 0);
  }

  // ----- the same, read off the bytes -----

  /** The size column of the opcode table. */
  function OpSize(op: byte): nat {
    if op == 1 || op == 2 || op == 21 || 36 <= op <= 39 then 3
    else if op == 3 || op == 4 || 13 <= op <= 15 || op == 40 || op == 41 then 5
    else if op == 19 || op == 20 || 32 <= op <= 35 || op == 42 || op == 43 then 2
    else if op == 22 || op == 27 then 6
    else if 23 <= op <= 26 then 10
    else 1
  }

  predicate IsRange16(op: byte) { op == 36 || op == 37 }
  predicate IsRange32(op: byte) { op == 38 || op == 39 }
  predicate IsBackRef(op: byte) { 32 <= op <= 35 }
  predicate IsCharOp(op: byte) { 1 <= op <= 8 }

  predicate IsNeutral(op: byte) {
    9 <= op <= 12 || 19 <= op <= 21 || 27 <= op <= 31 || op == 42 || op == 44
  }

  /** Operand counts that survive encoding. */
  predicate Sized(i: Instr) {
    (i.IRange? ==> |i.ranges| < 0x1_0000) && (i.IBackRef? ==> |i.refs| < 256)
  }

  predicate AllSized(ins: seq<Instr>) {
    forall k :: 0 <= k < |ins| ==> Sized(ins[k])
  }

  /** How the passes classify an instruction from its opcode, and the length they skip. */
  lemma OpcodeFacts(i: Instr, b: seq<byte>, pos: nat)
    requires Holds(b, pos, Encode(i)) && Sized(i)
    ensures pos < |b| && pos + OpSize(b[pos]) <= |b|
    ensures var op := b[pos];
      && IsRange16(op) == (i.IRange? && !i.wide) && IsRange32(op) == (i.IRange? && i.wide) && IsBackRef(op) == i.IBackRef?
      && InstrEffect(i) == (if IsRange16(op) || IsRange32(op) || IsCharOp(op) then Effect(false, true, false)
        else if IsBackRef(op) then Effect(false, false, true) else if IsNeutral(op) then NO_EFFECT else Effect(true, false, true))
      && ISize(i) == OpSize(op) + (if i.IRange? then |i.ranges| * (if i.wide then 8 else 4) else if i.IBackRef? then |i.refs| else 0)
    ensures i.IRange? ==> GetU16(b, pos + 1) == |i.ranges|
    ensures i.IBackRef? ==> b[pos + 1] as int == |i.refs|
  {
    assert b[pos] == Encode(i)[0];
    if i.IRange? {
      RangeOperand(i, b, pos);
    } else if i.IBackRef? {
      assert b[pos + 1] == Encode(i)[1];
    }
  }

  lemma RangeOperand(i: Instr, b: seq<byte>, pos: nat)
    requires Holds(b, pos, Encode(i)) && i.IRange? && |i.ranges| < 0x1_0000
    ensures pos + 3 <= |b| && GetU16(b, pos + 1) == |i.ranges|
  {
    var head: seq<byte> := [(if i.wide then OP_RANGE32 else OP_RANGE) + Flag(i.icase)];
    HoldsSplit(b, pos, head + U16(|i.ranges|), EncodeRanges(i.wide, i.ranges));
    HoldsSplit(b, pos, head, U16(|i.ranges|));
    U16RoundTrip(|i.ranges|, b, pos + 1);
  }

  lemma BytesHead(ins: seq<Instr>, b: seq<byte>, pos: nat)
    requires ins != [] && pos <= |b| && b[pos..] == Bytes(ins)
    ensures Holds(b, pos, Encode(ins[0])) && pos + ISize(ins[0]) <= |b| && b[pos + ISize(ins[0])..] == Bytes(ins[1..])
  {
    hide Encode;
    var x := Encode(ins[0]);
    assert forall k :: 0 <= k < |x| ==> x[k] == b[pos..][k];
    assert b[pos + |x|..] == b[pos..][|x|..];
  }

  lemma JoinStep(acc: Effect, a: Effect, rest: Effect)
    requires !acc.stopped
    ensures Join(acc, Join(a, rest)) == Join(Join(acc, a), rest)
  {
  }

  /** Does an atom need a zero-advance check, and clearing of its captures on every pass? */
  method NeedCheckAdvAndCaptureInit(bc: seq<byte>, ghost ins: seq<Instr>) returns (needAdv: bool, needInit: bool)
    requires bc == Bytes(ins) && AllSized(ins)
    ensures needAdv == !ScanCode(ins).moved && needInit == ScanCode(ins).unsure
  {
    hide Encode, Bytes, ScanCode, GetU16, InstrEffect, ISize;
    needAdv, needInit := true, false;
    var pos := 0;
    ghost var rest := ins;
    assert bc[0..] == bc;
    while pos < |bc|
      invariant pos <= |bc| && bc[pos..] == Bytes(rest) && AllSized(rest)
      invariant ScanCode(ins) == Join(Effect(false, !needAdv, needInit), ScanCode(rest))
    {
      NotEmpty(rest);
      BytesHead(rest, bc, pos);
      OpcodeFacts(rest[0], bc, pos);
      ScanUnfold(rest);
      JoinStep(Effect(false, !needAdv, needInit), InstrEffect(rest[0]), ScanCode(rest[1..]));
      var opcode := bc[pos];
      var len := OpSize(opcode);
      if IsRange16(opcode) {
        len := len + GetU16(bc, pos + 1) * 4;
        needAdv := false;
      } else if IsRange32(opcode) {
        len := len + GetU16(bc, pos + 1) * 8;
        needAdv := false;
      } else if IsCharOp(opcode) {
        needAdv := false;
      } else if IsBackRef(opcode) {
        len := len + bc[pos + 1] as int;
        needInit := true;
      } else if !IsNeutral(opcode) {
        needInit := true;
        return;
      }
      pos := pos + len;
      rest := rest[1..];
    }
    NoBytes(rest);
  }

  lemma NotEmpty(ins: seq<Instr>)
    requires Bytes(ins) != []
    ensures ins != []
  {
  }

  lemma NoBytes(ins: seq<Instr>)
    requires Bytes(ins) == []
    ensures ins == [] && ScanCode(ins) == NO_EFFECT
  {
  }

  lemma ScanUnfold(ins: seq<Instr>)
    requires ins != []
    ensures ScanCode(ins) == Join(InstrEffect(ins[0]), ScanCode(ins[1..]))
  {
  }
}
