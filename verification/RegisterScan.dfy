/** Register allocation: one pass over the finished code with the registers as a stack. */
module RegisterScan {
  import opened RegexSyntax
  import opened Bytecode
  import opened Emit

  /** Registers an instruction puts on the stack, and takes off it. */
  function Opens(i: Instr): nat {
    if i.ISetI32? || i.ISetPos? then 1 else 0
  }

  function Closes(i: Instr): nat {
    if i.ICheckAdv? || i.ILoop? then 1 else if i.ILoopSplit? then (if i.adv then 2 else 1) else 0
  }

  function WithRegister(i: Instr, r: nat): Instr {
    match i
    case ISetI32(_, v) => ISetI32(r, v)
    case ISetPos(_) => ISetPos(r)
    case ICheckAdv(_) => ICheckAdv(r)
    case ILoop(_, off) => ILoop(r, off)
    case ILoopSplit(adv, nextFirst, _, limit, off) => ILoopSplit(adv, nextFirst, r, limit, off)
    case _ => i
  }

  /** The code with its registers, the stack size after it, and the largest size on the way; not
    * `ok` when more registers would be taken off than there are. */
  datatype Allocated = Allocated(ok: bool, code: seq<Instr>, depth: nat, peak: nat)

  function AllocOne(i: Instr, d: nat): (r: Allocated)
    ensures r.peak >= d && r.peak >= r.depth
  {
    if Closes(i) > d then Allocated(false, [], 0, d)
    else
      var now := d - Closes(i);
      Allocated(true, [WithRegister(i, now)], now + Opens(i), Max(d, now + Opens(i)))
  }

  function Alloc(ins: seq<Instr>, d: nat): (r: Allocated)
    ensures r.peak >= d && r.peak >= r.depth
  {
    if ins == [] then Allocated(true, [], d, d) else
    var a := AllocOne(ins[0], d);
    if !a.ok then a else
    var r := Alloc(ins[1..], a.depth);
    Allocated(r.ok, a.code + r.code, r.depth, Max(a.peak, r.peak))
  }

  /** `ins` entered with `d` registers becomes `code`, leaves `depth` and needs `peak`. */
  predicate Allocates(ins: seq<Instr>, d: nat, code: seq<Instr>, depth: nat, peak: nat) {
    Alloc(ins, d) == Allocated(true, code, depth, peak)
  }

  lemma AllocNothing(d: nat)
    ensures Allocates([], d, [], d, d)
  {
  }

  lemma AllocSingle(i: Instr, d: nat)
    requires Closes(i) <= d
    ensures var now := d - Closes(i);
      Allocates([i], d, [WithRegister(i, now)], now + Opens(i), Max(d, now + Opens(i)))
  {
    hide Closes, Opens, WithRegister, Max;
    assert [i][1..] == [];
    var a := AllocOne(i, d);
    AllocNothing(a.depth);
    MaxPeak(a.depth, a.depth, a.peak);
    assert a.code + [] == a.code;
  }

  lemma {:induction false} AllocConcat(a: seq<Instr>, b: seq<Instr>, d: nat)
    requires Alloc(a, d).ok
    ensures var x := Alloc(a, d);
      var y := Alloc(b, x.depth);
      Alloc(a + b, d) == Allocated(y.ok, x.code + y.code, y.depth, Max(x.peak, y.peak))
  {
    hide AllocOne;
    if a == [] {
      assert a + b == b;
    } else {
      assert (a + b)[1..] == a[1..] + b;
      var o := AllocOne(a[0], d);
      AllocConcat(a[1..], b, o.depth);
    }
  }

  lemma Chain(a: seq<Instr>, b: seq<Instr>, d: nat, a': seq<Instr>, d1: nat, p1: nat, b': seq<Instr>, d2: nat, p2: nat)
    requires Allocates(a, d, a', d1, p1) && Allocates(b, d1, b', d2, p2)
    ensures Allocates(a + b, d, a' + b', d2, Max(p1, p2))
  {
    hide Alloc;
    AllocConcat(a, b, d);
  }

  /** Instructions that hold no register pass through. */
  lemma AllocPlain(i: Instr, d: nat)
    requires Opens(i) == 0 && Closes(i) == 0
    ensures Allocates([i], d, [i], d, d)
  {
    AllocSingle(i, d);
  }

  /** Registers do not change the length of an instruction. */
  lemma RegisterSize(i: Instr, r: nat)
    ensures ISize(WithRegister(i, r)) == ISize(i)
  {
  }

  lemma {:induction false} AllocSize(ins: seq<Instr>, d: nat)
    requires Alloc(ins, d).ok
    ensures Size(Alloc(ins, d).code) == Size(ins)
  {
    hide ISize, WithRegister, Closes, Opens;
    if ins != [] {
      var i := ins[0];
      RegisterSize(i, d - Closes(i));
      var a := AllocOne(i, d);
      AllocSize(ins[1..], a.depth);
      BytesConcat(a.code, Alloc(ins[1..], a.depth).code);
      SizeOne(a.code[0]);
    }
  }

  lemma AllocatesSize(ins: seq<Instr>, d: nat, code: seq<Instr>, depth: nat, peak: nat)
    requires Allocates(ins, d, code, depth, peak)
    ensures Size(code) == Size(ins)
  {
    hide Alloc, Size;
    AllocSize(ins, d);
  }

  lemma MaxFacts(a: nat, b: nat, d: nat)
    ensures Max(d, d + a) == d + a && Max(d + a, d) == d + a && Max(d, d) == d
    ensures Max(d + a, d + b) == d + Max(a, b) && Max(d + 1 + a, d) == d + 1 + a && Max(d + 1, d + 1 + a) == d + 1 + a
  {
  }

  lemma AllocReset(cc: nat, groups: nat, d: nat)
    ensures Allocates(ResetCode(cc, groups), d, ResetCode(cc, groups), d, d)
  {
    hide Allocates;
    if groups == 0 { AllocNothing(d); } else { AllocPlain(IReset(cc, cc + groups - 1), d); }
  }

  lemma AllocSetPos(adv: bool, r: nat, d: nat)
    ensures var more := if adv then 1 else 0;
      Allocates(SetPosCode(adv, r), d, SetPosCode(adv, d), d + more, d + more)
  {
    hide Allocates;
    if adv { AllocSingle(ISetPos(r), d); } else { AllocNothing(d); }
  }

  lemma AllocCheckAdv(adv: bool, r: nat, d: nat)
    ensures var more := if adv then 1 else 0;
      Allocates(CheckAdvCode(adv, r), d + more, CheckAdvCode(adv, d), d, d + more)
  {
    hide Allocates;
    if adv { AllocSingle(ICheckAdv(r), d + 1); } else { AllocNothing(d); }
  }

  lemma AllocAtom(b: Node, cc: nat, body: seq<Instr>, d: nat, body': seq<Instr>, peak: nat)
    requires Allocates(body, d, body', d, peak) && peak >= d
    ensures Allocates(AtomCode(b, cc, body), d, AtomCode(b, cc, body'), d, peak)
  {
    hide Allocates, ResetCode, Straight, Groups;
    if NeedInit(b) {
      AllocReset(cc, Groups(b), d);
      Chain(ResetCode(cc, Groups(b)), body, d, ResetCode(cc, Groups(b)), d, d, body', d, peak);
    } else {
      assert [] + body == body && [] + body' == body';
    }
  }

  lemma AllocSkip(b: Node, cc: nat, min: nat, rest: seq<Instr>, d: nat, rest': seq<Instr>, peak: nat)
    requires Allocates(rest, d, rest', d, peak) && peak >= d
    ensures Allocates(SkipReset(b, cc, min) + rest, d, SkipReset(b, cc, min) + rest', d, peak)
  {
    hide Allocates, ResetCode, Straight, Groups;
    AllocReset(cc, Groups(b), d);
    AllocNothing(d);
    Chain(SkipReset(b, cc, min), rest, d, SkipReset(b, cc, min), d, d, rest', d, peak);
  }

  lemma AllocOptional(adv: bool, again: bool, greedy: bool, atom: seq<Instr>, d: nat, atom': seq<Instr>, peak: nat)
    requires var d1 := d + (if adv then 1 else 0);
      Allocates(atom, d1, atom', d1, peak) && peak >= d1
    ensures Allocates(OptionalCode(adv, again, greedy, atom, 0), d, OptionalCode(adv, again, greedy, atom', d), d, peak)
  {
    hide *;
    var d1 := d + (if adv then 1 else 0);
    AllocatesSize(atom, d1, atom', d1, peak);
    var split := ISplit(greedy, Size(atom) + (if again then 5 else 0) + 2 * AdvSize(adv));
    var jump := if again then [IGoto(-(Size(atom) + 2 * AdvSize(adv) + 10))] else [];
    OptionalParts(adv, again, greedy, atom, 0, split, jump);
    OptionalParts(adv, again, greedy, atom', d, split, jump);
    PlainJumps(split);
    AllocPlain(split, d);
    AllocSetPos(adv, 0, d);
    AllocCheckAdv(adv, 0, d);
    var sp, sp' := SetPosCode(adv, 0), SetPosCode(adv, d);
    Chain(sp, atom, d, sp', d1, d1, atom', d1, peak);
    Chain(sp + atom, CheckAdvCode(adv, 0), d, sp' + atom', d1, Max(d1, peak), CheckAdvCode(adv, d), d, d1);
    if again {
      PlainJumps(jump[0]);
      AllocPlain(jump[0], d);
    } else {
      AllocNothing(d);
    }
    var mid, mid' := sp + atom + CheckAdvCode(adv, 0), sp' + atom' + CheckAdvCode(adv, d);
    Chain([split], mid, d, [split], d, d, mid', d, Max(Max(d1, peak), d1));
    Chain([split] + mid, jump, d, [split] + mid', d, Max(d, Max(Max(d1, peak), d1)), jump, d, d);
    MaxPeak(d, d1, peak);
  }

  lemma MaxPeak(d: nat, d1: nat, peak: nat)
    requires d <= d1 <= peak
    ensures Max(d1, peak) == peak && Max(peak, d1) == peak && Max(d, peak) == peak && Max(peak, d) == peak
  {
  }

  lemma OptionalParts(adv: bool, again: bool, greedy: bool, atom: seq<Instr>, r: nat, split: Instr, jump: seq<Instr>)
    requires split == ISplit(greedy, Size(atom) + (if again then 5 else 0) + 2 * AdvSize(adv))
    requires jump == if again then [IGoto(-(Size(atom) + 2 * AdvSize(adv) + 10))] else []
    ensures OptionalCode(adv, again, greedy, atom, r) == [split] + (SetPosCode(adv, r) + atom + CheckAdvCode(adv, r)) + jump
  {
    hide Size, SetPosCode, CheckAdvCode, AdvSize;
  }

  lemma PlainJumps(i: Instr)
    requires i.ISplit? || i.IGoto? || i.ILook? || i.ILookMatch? || i.ISave?
    ensures Opens(i) == 0 && Closes(i) == 0
  {
  }

  lemma AllocCounted(adv: bool, max: nat, limit: nat, greedy: bool, atom: seq<Instr>, d: nat, atom': seq<Instr>, peak: nat)
    requires var d1 := d + 1 + (if adv then 1 else 0);
      Allocates(atom, d1, atom', d1, peak) && peak >= d1
    ensures Allocates(CountedCode(adv, max, limit, greedy, atom, 0, 0), d, CountedCode(adv, max, limit, greedy, atom', d, d + 1), d, peak)
  {
    hide *;
    var d1 := d + 1 + (if adv then 1 else 0);
    AllocatesSize(atom, d1, atom', d1, peak);
    CountedParts(adv, max, limit, greedy, atom, 0, 0);
    CountedParts(adv, max, limit, greedy, atom', d, d + 1);
    var start, start' := ISetI32(0, max), ISetI32(d, max);
    var loop := ILoopSplit(adv, !greedy, 0, limit, -(AdvSize(adv) + Size(atom) + 10));
    var loop' := ILoopSplit(adv, !greedy, d, limit, -(AdvSize(adv) + Size(atom) + 10));
    LoopEnds(d, max, adv, loop);
    AllocSingle(start, d);
    AllocSetPos(adv, 0, d + 1);
    AllocSingle(loop, d1);
    var sp, sp' := SetPosCode(adv, 0), SetPosCode(adv, d + 1);
    Chain(sp, atom, d + 1, sp', d1, d1, atom', d1, peak);
    MaxPeak(d + 1, d1, peak);
    MaxPeak(d, d + 1, d + 1);
    Chain([start], sp + atom, d, [start'], d + 1, d + 1, sp' + atom', d1, peak);
    MaxPeak(d, d1, d1);
    Chain([start] + (sp + atom), [loop], d, [start'] + (sp' + atom'), d1, peak, [loop'], d, d1);
  }

  lemma CountedParts(adv: bool, max: nat, limit: nat, greedy: bool, atom: seq<Instr>, r: nat, rp: nat)
    ensures CountedCode(adv, max, limit, greedy, atom, r, rp) ==
      [ISetI32(r, max)] + (SetPosCode(adv, rp) + atom) + [ILoopSplit(adv, !greedy, r, limit, -(AdvSize(adv) + Size(atom) + 10))]
  {
    hide Size, SetPosCode, AdvSize;
  }

  lemma LoopEnds(d: nat, max: nat, adv: bool, loop: Instr)
    requires loop.ILoopSplit? && loop.adv == adv
    ensures Opens(ISetI32(0, max)) == 1 && Closes(ISetI32(0, max)) == 0 && WithRegister(ISetI32(0, max), d) == ISetI32(d, max)
    ensures Opens(loop) == 0 && Closes(loop) == 1 + (if adv then 1 else 0) && WithRegister(loop, d) == ILoopSplit(adv, loop.nextFirst, d, loop.limit, loop.off)
  {
  }

  lemma AllocExact(max: nat, atom: seq<Instr>, d: nat, atom': seq<Instr>, peak: nat)
    requires Allocates(atom, d + 1, atom', d + 1, peak) && peak >= d + 1
    ensures Allocates([ISetI32(0, max)] + atom + [ILoop(0, -(Size(atom) + 6))], d,
      [ISetI32(d, max)] + atom' + [ILoop(d, -(Size(atom') + 6))], d, peak)
  {
    hide Allocates, Size, Alloc, Max;
    AllocatesSize(atom, d + 1, atom', d + 1, peak);
    var loop := ILoop(0, -(Size(atom) + 6));
    AllocSingle(ISetI32(0, max), d);
    AllocSingle(loop, d + 1);
    MaxPeak(d, d + 1, d + 1);
    MaxPeak(d, d + 1, peak);
    Chain([ISetI32(0, max)], atom, d, [ISetI32(d, max)], d + 1, d + 1, atom', d + 1, peak);
    Chain([ISetI32(0, max)] + atom, [loop], d, [ISetI32(d, max)] + atom', d + 1, peak, [WithRegister(loop, d)], d, d + 1);
  }

  lemma AllocQuant(b: Node, cc: nat, back: bool, min: nat, max: nat, greedy: bool, body: seq<Instr>, d: nat, body': seq<Instr>, peak: nat)
    requires min <= max && max != 0
    requires var d1 := d + Held(b, back, min, max);
      Allocates(body, d1, body', d1, peak) && peak >= d1
    ensures Allocates(QuantCode(b, cc, back, min, max, greedy, body, 0, 0), d, QuantCode(b, cc, back, min, max, greedy, body', d, 1), d, peak)
  {
    hide *;
    var adv := UsesAdvance(b, back, min, max);
    var d1 := d + Held(b, back, min, max);
    var atom, atom' := AtomCode(b, cc, body), AtomCode(b, cc, body');
    AllocAtom(b, cc, body, d1, body', peak);
    HeldIs(b, back, min, max);
    match ShapeOf(min, max, NeedAdvance(b, back)) {
      case Optional(again) => AllocOptional(adv, again, greedy, atom, d, atom', peak);
      case CountedOptional => AllocCountedOptional(adv, max, greedy, atom, d, atom', peak);
      case PlusLoop => AllocPlus(greedy, atom, d, atom', peak);
      case Exact => AllocExact(max, atom, d, atom', peak);
      case Counted => AllocCounted(adv, max, max - min, greedy, atom, d, atom', peak);
    }
    QuantIs(b, cc, back, min, max, greedy, body, 0, 0);
    QuantIs(b, cc, back, min, max, greedy, body', d, 1);
    AllocSkip(b, cc, min, LoopCode(b, cc, back, min, max, greedy, body, 0, 0), d, LoopCode(b, cc, back, min, max, greedy, body', d, 1), peak);
  }

  lemma QuantIs(b: Node, cc: nat, back: bool, min: nat, max: nat, greedy: bool, body: seq<Instr>, r: nat, step: nat)
    requires min <= max && max != 0
    ensures QuantCode(b, cc, back, min, max, greedy, body, r, step) == SkipReset(b, cc, min) + LoopCode(b, cc, back, min, max, greedy, body, r, step)
    ensures var adv := UsesAdvance(b, back, min, max);
      var atom := AtomCode(b, cc, body);
      LoopCode(b, cc, back, min, max, greedy, body, r, step) ==
      match ShapeOf(min, max, NeedAdvance(b, back))
      case Dropped => []
      case Optional(again) => OptionalCode(adv, again, greedy, atom, r)
      case CountedOptional => CountedOptionalCode(adv, max, greedy, atom, r, r + step)
      case PlusLoop => atom + [ISplit(!greedy, -(Size(atom) + 5))]
      case Exact => [ISetI32(r, max)] + atom + [ILoop(r, -(Size(atom) + 6))]
      case Counted => CountedCode(adv, max, max - min, greedy, atom, r, r + step)
  {
    hide Size, NeedAdvance, UsesAdvance, AtomCode, SkipReset, OptionalCode, CountedOptionalCode, CountedCode, ShapeOf;
  }

  lemma HeldIs(b: Node, back: bool, min: nat, max: nat)
    requires min <= max && max != 0
    ensures var adv := if UsesAdvance(b, back, min, max) then 1 else 0;
      match ShapeOf(min, max, NeedAdvance(b, back))
      case Dropped => false
      case Optional(_) => Held(b, back, min, max) == adv
      case CountedOptional => Held(b, back, min, max) == 1 + adv
      case PlusLoop => Held(b, back, min, max) == 0
      case Exact => Held(b, back, min, max) == 1
      case Counted => Held(b, back, min, max) == 1 + adv
  {
    hide Scan;
  }

  lemma AllocPlus(greedy: bool, atom: seq<Instr>, d: nat, atom': seq<Instr>, peak: nat)
    requires Allocates(atom, d, atom', d, peak) && peak >= d
    ensures Allocates(atom + [ISplit(!greedy, -(Size(atom) + 5))], d, atom' + [ISplit(!greedy, -(Size(atom') + 5))], d, peak)
  {
    hide Allocates, Size, Max;
    AllocatesSize(atom, d, atom', d, peak);
    var split := ISplit(!greedy, -(Size(atom) + 5));
    AllocPlain(split, d);
    MaxPeak(d, d, peak);
    Chain(atom, [split], d, atom', d, peak, [split], d, d);
  }

  lemma AllocCountedOptional(adv: bool, max: nat, greedy: bool, atom: seq<Instr>, d: nat, atom': seq<Instr>, peak: nat)
    requires var d1 := d + 1 + (if adv then 1 else 0);
      Allocates(atom, d1, atom', d1, peak) && peak >= d1
    ensures Allocates(CountedOptionalCode(adv, max, greedy, atom, 0, 0), d, CountedOptionalCode(adv, max, greedy, atom', d, d + 1), d, peak)
  {
    hide Allocates, Size, Max, CountedCode;
    var d1 := d + 1 + (if adv then 1 else 0);
    AllocatesSize(atom, d1, atom', d1, peak);
    var split := ISplit(greedy, 6 + AdvSize(adv) + Size(atom) + 10);
    AllocPlain(split, d);
    AllocCounted(adv, max, max, greedy, atom, d, atom', peak);
    MaxPeak(d, d, peak);
    Chain([split], CountedCode(adv, max, max, greedy, atom, 0, 0), d, [split], d, d, CountedCode(adv, max, max, greedy, atom', d, d + 1), d, peak);
  }

  lemma AllocLeaf(e: Env, n: Node, back: bool, d: nat)
    requires Leaf(n) && ValidNode(n)
    ensures Allocates(LeafCode(e, n, back), d, LeafCode(e, n, back), d, d)
  {
    hide Allocates, Max, EmitSingle, EmitTest;
    AllocNothing(d);
    if n.Single? {
      AllocTest(e, n.test, back, d);
    } else if !n.Empty? {
      AllocPlain(LeafCode(e, n, back)[0], d);
    }
  }

  lemma AllocTest(e: Env, t: CharTest, back: bool, d: nat)
    requires ValidTest(t)
    ensures Allocates(EmitSingle(e, t, back), d, EmitSingle(e, t, back), d, d)
  {
    hide Allocates, Max, FitsRange16, CanonicalPoints;
    var i := EmitTest(e, t);
    AllocPlain(i, d);
    if back {
      AllocPlain(IPrev, d);
      MaxFacts(0, 0, d);
      Chain([i], [IPrev], d, [i], d, d, [IPrev], d, d);
      Chain([IPrev], [i] + [IPrev], d, [IPrev], d, d, [i] + [IPrev], d, d);
      assert EmitSingle(e, t, back) == [IPrev] + ([i] + [IPrev]);
    }
  }

  lemma DepthParts(n: Node, back: bool)
    ensures match n
      case Cat(a, b) => Depth(n, back) == Max(Depth(a, back), Depth(b, back))
      case Alt(a, b) => Depth(n, back) == Max(Depth(a, back), Depth(b, back))
      case Group(b) => Depth(n, back) == Depth(b, back)
      case Quant(b, min, max, _) => Depth(n, back) == if max == 0 then 0 else Held(b, back, min, max) + Depth(b, back)
      case Look(_, behind, b) => Depth(n, back) == Depth(b, behind)
      case _ => Depth(n, back) == 0
  {
  }

  /** The linear pass gives every quantifier its own registers, disjoint from those of the
    * quantifiers around it, never runs out of registers to release, and leaves none behind; at
    * most Depth(n) are in use at once on top of the `d` around. */
  lemma {:induction false} CodeAlloc(e: Env, n: Node, cc: nat, back: bool, d: nat)
    requires ValidNode(n)
    ensures Allocates(Code(e, n, cc, back, false, 0), d, Code(e, n, cc, back, true, d), d, d + Depth(n, back))
    decreases n, 0
  {
    hide *;
    ValidParts(n);
    DepthParts(n, back);
    match n {
      case Cat(a, b) => AllocCat(e, a, b, cc, back, d);
      case Alt(a, b) => AllocAlt(e, a, b, cc, back, d);
      case Group(b) =>
        CodeAlloc(e, b, cc + 1, back, d);
        GroupCode(e, b, cc, back, false, 0);
        GroupCode(e, b, cc, back, true, d);
        Wrap(ISave(back, cc), Code(e, b, cc + 1, back, false, 0), ISave(!back, cc), d, Code(e, b, cc + 1, back, true, d), d + Depth(b, back));
      case Quant(b, min, max, greedy) => AllocQuantifier(e, b, min, max, greedy, cc, back, d);
      case Look(negated, behind, b) =>
        CodeAlloc(e, b, cc, behind, d);
        LookCodeUnfold(e, negated, behind, b, cc, back, false, 0);
        LookCodeUnfold(e, negated, behind, b, cc, back, true, d);
        var code, code' := Code(e, b, cc, behind, false, 0), Code(e, b, cc, behind, true, d);
        AllocatesSize(code, d, code', d, d + Depth(b, behind));
        Wrap(ILook(negated, Size(code) + 1), code, ILookMatch(negated), d, code', d + Depth(b, behind));
      case Empty => CodeAllocLeaf(e, n, cc, back, d);
      case Single(_) => CodeAllocLeaf(e, n, cc, back, d);
      case LineStart(_) => CodeAllocLeaf(e, n, cc, back, d);
      case LineEnd(_) => CodeAllocLeaf(e, n, cc, back, d);
      case WordBoundary(_, _) => CodeAllocLeaf(e, n, cc, back, d);
      case BackRef(_, _) => CodeAllocLeaf(e, n, cc, back, d);
    }
  }

  lemma CodeAllocLeaf(e: Env, n: Node, cc: nat, back: bool, d: nat)
    requires (n.Empty? || n.Single? || n.LineStart? || n.LineEnd? || n.WordBoundary? || n.BackRef?) && ValidNode(n)
    ensures Allocates(Code(e, n, cc, back, false, 0), d, Code(e, n, cc, back, true, d), d, d)
  {
    hide Code, Allocates, ValidNode, LeafCode;
    LeafCodeUnfold(e, n, cc, back, false, 0);
    LeafCodeUnfold(e, n, cc, back, true, d);
    AllocLeaf(e, n, back, d);
  }

  /** Code between two instructions that hold no register. */
  lemma Wrap(i: Instr, code: seq<Instr>, j: Instr, d: nat, code': seq<Instr>, peak: nat)
    requires (i.ISave? || i.ILook?) && (j.ISave? || j.ILookMatch?)
    requires Allocates(code, d, code', d, peak) && peak >= d
    ensures Allocates([i] + code + [j], d, [i] + code' + [j], d, peak)
  {
    hide Allocates, Max;
    AllocPlain(i, d);
    AllocPlain(j, d);
    MaxPeak(d, d, peak);
    Chain([i], code, d, [i], d, d, code', d, peak);
    Chain([i] + code, [j], d, [i] + code', d, peak, [j], d, d);
  }

  lemma {:induction false} AllocCat(e: Env, a: Node, b: Node, cc: nat, back: bool, d: nat)
    requires ValidNode(a) && ValidNode(b)
    ensures Allocates(Code(e, Cat(a, b), cc, back, false, 0), d, Code(e, Cat(a, b), cc, back, true, d), d, d + Max(Depth(a, back), Depth(b, back)))
    decreases Cat(a, b), -1
  {
    hide *;
    CodeAlloc(e, a, cc, back, d);
    CodeAlloc(e, b, cc + Groups(a), back, d);
    CatCode(e, a, b, cc, back, false, 0);
    CatCode(e, a, b, cc, back, true, d);
    var pa, pb := d + Depth(a, back), d + Depth(b, back);
    var ca, ca' := Code(e, a, cc, back, false, 0), Code(e, a, cc, back, true, d);
    var cb, cb' := Code(e, b, cc + Groups(a), back, false, 0), Code(e, b, cc + Groups(a), back, true, d);
    MaxFacts(Depth(a, back), Depth(b, back), d);
    MaxFacts(Depth(b, back), Depth(a, back), d);
    MaxSwap(Depth(a, back), Depth(b, back));
    if back {
      Chain(cb, ca, d, cb', d, pb, ca', d, pa);
    } else {
      Chain(ca, cb, d, ca', d, pa, cb', d, pb);
    }
  }

  lemma MaxSwap(a: nat, b: nat)
    ensures Max(a, b) == Max(b, a)
  {
  }

  lemma {:induction false} AllocAlt(e: Env, a: Node, b: Node, cc: nat, back: bool, d: nat)
    requires ValidNode(a) && ValidNode(b)
    ensures Allocates(Code(e, Alt(a, b), cc, back, false, 0), d, Code(e, Alt(a, b), cc, back, true, d), d, d + Max(Depth(a, back), Depth(b, back)))
    decreases Alt(a, b), -1
  {
    hide *;
    CodeAlloc(e, a, cc, back, d);
    CodeAlloc(e, b, cc + Groups(a), back, d);
    AltCodeUnfold(e, a, b, cc, back, false, 0);
    AltCodeUnfold(e, a, b, cc, back, true, d);
    var ca, ca' := Code(e, a, cc, back, false, 0), Code(e, a, cc, back, true, d);
    var cb, cb' := Code(e, b, cc + Groups(a), back, false, 0), Code(e, b, cc + Groups(a), back, true, d);
    AllocBranches(ca, cb, d, ca', cb', d + Depth(a, back), d + Depth(b, back));
    MaxFacts(Depth(a, back), Depth(b, back), d);
  }

  lemma AllocBranches(a: seq<Instr>, b: seq<Instr>, d: nat, a': seq<Instr>, b': seq<Instr>, pa: nat, pb: nat)
    requires Allocates(a, d, a', d, pa) && Allocates(b, d, b', d, pb) && pa >= d && pb >= d
    ensures Allocates(AltCode(a, b), d, AltCode(a', b'), d, Max(pa, pb))
  {
    hide Allocates, Size, Max;
    AllocatesSize(a, d, a', d, pa);
    AllocatesSize(b, d, b', d, pb);
    var split, jump := ISplit(true, Size(a) + 5), IGoto(Size(b));
    AllocPlain(split, d);
    AllocPlain(jump, d);
    MaxPeak(d, d, pa);
    Chain([split], a, d, [split], d, d, a', d, pa);
    Chain([split] + a, [jump], d, [split] + a', d, pa, [jump], d, d);
    Chain([split] + a + [jump], b, d, [split] + a' + [jump], d, pa, b', d, pb);
  }

  lemma {:induction false} AllocQuantifier(e: Env, b: Node, min: nat, max: nat, greedy: bool, cc: nat, back: bool, d: nat)
    requires ValidNode(Quant(b, min, max, greedy))
    ensures var n := Quant(b, min, max, greedy);
      Allocates(Code(e, n, cc, back, false, 0), d, Code(e, n, cc, back, true, d), d, if max == 0 then d else d + Held(b, back, min, max) + Depth(b, back))
    decreases b, 1
  {
    hide *;
    QuantCodeIs(e, b, min, max, greedy, cc, back, false, 0);
    QuantCodeIs(e, b, min, max, greedy, cc, back, true, d);
    var held := Held(b, back, min, max);
    if max == 0 {
      AllocDropped(b, cc, back, greedy, Code(e, b, cc, back, false, held), d, Code(e, b, cc, back, true, d + held));
    } else {
      CodeAlloc(e, b, cc, back, d + held);
      UnallocSame(e, b, cc, back, held);
      AllocQuant(b, cc, back, min, max, greedy, Code(e, b, cc, back, false, held), d, Code(e, b, cc, back, true, d + held), d + held + Depth(b, back));
    }
  }

  lemma AllocDropped(b: Node, cc: nat, back: bool, greedy: bool, body: seq<Instr>, d: nat, body': seq<Instr>)
    ensures Allocates(QuantCode(b, cc, back, 0, 0, greedy, body, 0, 0), d, QuantCode(b, cc, back, 0, 0, greedy, body', d, 1), d, d)
  {
    hide Allocates, ResetCode, Scan, Straight, Size, AtomCode;
    AllocNothing(d);
    AllocSkip(b, cc, 0, [], d, [], d);
  }

  /** Code first emitted does not depend on the registers around it. */
  lemma {:induction false} UnallocSame(e: Env, n: Node, cc: nat, back: bool, d: nat)
    requires ValidNode(n)
    ensures Code(e, n, cc, back, false, d) == Code(e, n, cc, back, false, 0)
    decreases n
  {
    hide *;
    ValidParts(n);
    match n {
      case Cat(a, b) =>
        CatCode(e, a, b, cc, back, false, d);
        CatCode(e, a, b, cc, back, false, 0);
        UnallocSame(e, a, cc, back, d);
        UnallocSame(e, b, cc + Groups(a), back, d);
      case Alt(a, b) =>
        AltCodeUnfold(e, a, b, cc, back, false, d);
        AltCodeUnfold(e, a, b, cc, back, false, 0);
        UnallocSame(e, a, cc, back, d);
        UnallocSame(e, b, cc + Groups(a), back, d);
      case Group(b) =>
        GroupCode(e, b, cc, back, false, d);
        GroupCode(e, b, cc, back, false, 0);
        UnallocSame(e, b, cc + 1, back, d);
      case Quant(b, min, max, greedy) =>
        QuantCodeIs(e, b, min, max, greedy, cc, back, false, d);
        QuantCodeIs(e, b, min, max, greedy, cc, back, false, 0);
        UnallocSame(e, b, cc, back, d + Held(b, back, min, max));
        UnallocSame(e, b, cc, back, Held(b, back, min, max));
      case Look(negated, behind, b) =>
        LookCodeUnfold(e, negated, behind, b, cc, back, false, d);
        LookCodeUnfold(e, negated, behind, b, cc, back, false, 0);
        UnallocSame(e, b, cc, behind, d);
      case Empty => UnallocLeaf(e, n, cc, back, d);
      case Single(_) => UnallocLeaf(e, n, cc, back, d);
      case LineStart(_) => UnallocLeaf(e, n, cc, back, d);
      case LineEnd(_) => UnallocLeaf(e, n, cc, back, d);
      case WordBoundary(_, _) => UnallocLeaf(e, n, cc, back, d);
      case BackRef(_, _) => UnallocLeaf(e, n, cc, back, d);
    }
  }

  lemma UnallocLeaf(e: Env, n: Node, cc: nat, back: bool, d: nat)
    requires (n.Empty? || n.Single? || n.LineStart? || n.LineEnd? || n.WordBoundary? || n.BackRef?) && ValidNode(n)
    ensures Code(e, n, cc, back, false, d) == Code(e, n, cc, back, false, 0)
  {
    hide Code, ValidNode, LeafCode;
    LeafCodeUnfold(e, n, cc, back, false, d);
    LeafCodeUnfold(e, n, cc, back, false, 0);
  }

  // ----- whole programs -----

  lemma AllocPlainAll(ins: seq<Instr>, d: nat)
    requires forall k :: 0 <= k < |ins| ==> Opens(ins[k]) == 0 && Closes(ins[k]) == 0
    ensures Allocates(ins, d, ins, d, d)
    decreases |ins|
  {
    hide Allocates, Opens, Closes;
    if ins == [] {
      AllocNothing(d);
    } else {
      AllocPlain(ins[0], d);
      AllocPlainAll(ins[1..], d);
      Chain([ins[0]], ins[1..], d, [ins[0]], d, d, ins[1..], d, d);
      assert [ins[0]] + ins[1..] == ins;
      MaxFacts(0, 0, d);
    }
  }

  /** The pass over a whole program starts and ends with no register in use. */
  lemma ProgramAlloc(e: Env, n: Node, sticky: bool)
    requires ValidNode(n)
    ensures Allocates(ProgramCode(e, n, sticky, false), 0, ProgramCode(e, n, sticky, true), 0, Depth(n, false))
  {
    hide Allocates, Code, Depth, ValidNode, Max;
    var code, code' := Code(e, n, 1, false, false, 0), Code(e, n, 1, false, true, 0);
    var peak := Depth(n, false);
    var prefix, tail := SearchPrefix(sticky) + [ISave(false, 0)], [ISave(true, 0), IMatch];
    AllocPlainAll(prefix, 0);
    AllocPlainAll(tail, 0);
    CodeAlloc(e, n, 1, false, 0);
    MaxPeak(0, 0, peak);
    Chain(prefix, code, 0, prefix, 0, 0, code', 0, peak);
    Chain(prefix + code, tail, 0, prefix + code', 0, peak, tail, 0, 0);
    assert ProgramCode(e, n, sticky, false) == prefix + code + tail;
    assert ProgramCode(e, n, sticky, true) == prefix + code' + tail;
  }

  // ----- the same, on the bytes -----

  predicate OpensOp(op: byte) { op == OP_SET_I32 || op == OP_SET_CHAR_POS }
  predicate ClosesOneOp(op: byte) { op == OP_CHECK_ADVANCE || 22 <= op <= 24 }
  predicate ClosesTwoOp(op: byte) { op == 25 || op == 26 }

  lemma RegisterOps(i: Instr, b: seq<byte>, pos: nat)
    requires Holds(b, pos, Encode(i))
    ensures pos < |b|
    ensures OpensOp(b[pos]) == (Opens(i) == 1) && ClosesOneOp(b[pos]) == (Closes(i) == 1) && ClosesTwoOp(b[pos]) == (Closes(i) == 2)
    ensures Opens(i) <= 1 && Closes(i) <= 2 && (Opens(i) == 0 || Closes(i) == 0)
    ensures Opens(i) == 0 && Closes(i) == 0 ==> forall r: nat :: WithRegister(i, r) == i
  {
    assert b[pos] == Encode(i)[0];
  }

  /** The register is the byte after the opcode. */
  lemma PatchRegister(i: Instr, r: nat)
    requires (Opens(i) != 0 || Closes(i) != 0) && r < 256
    ensures |Encode(i)| >= 2 && Encode(WithRegister(i, r)) == Encode(i)[1 := r]
  {
  }
}
