/** The emitted code, run on the snapshot machine, delivers exactly the outcomes of the pattern. */
module Simulation {
  import opened Wrappers
  import opened RegexSyntax
  import opened Bytecode
  import opened Emit
  import opened SlotMatcher
  import opened SnapshotVm
  import opened Yields
  import opened Execute
  import opened LoopLayout
  import ClassMatch

  /** Back references name existing groups only. */
  predicate RefsBelow(n: Node, captures: nat) {
    match n
    case Cat(a, b) => RefsBelow(a, captures) && RefsBelow(b, captures)
    case Alt(a, b) => RefsBelow(a, captures) && RefsBelow(b, captures)
    case Group(b) => RefsBelow(b, captures)
    case Quant(b, _, _, _) => RefsBelow(b, captures)
    case Look(_, _, b) => RefsBelow(b, captures)
    case BackRef(refs, _) => forall k :: 0 <= k < |refs| ==> refs[k] < captures
    case _ => true
  }

  // ----- atoms judged to advance do advance -----

  ghost predicate Strict(x: Out, ys: seq<Out>) {
    forall k :: 0 <= k < |ys| ==> ys[k].pos != x.pos
  }

  lemma ScanParts(n: Node, back: bool)
    requires Scan(n, back).moved
    ensures n.Single? || n.Cat? || n.Group? || n.Quant?
    ensures n.Cat? ==> Scan(n.first, back).moved || Scan(n.second, back).moved
    ensures n.Group? ==> Scan(n.body, back).moved && Groups(n) == 1 + Groups(n.body)
    ensures n.Quant? ==> Scan(n.body, back).moved && n.min != 0 && n.max != 0 && Groups(n) == Groups(n.body)
  {
  }

  lemma StrictSingle(e: Env, t: CharTest, cc: nat, back: bool, x: Out)
    requires x.pos <= |e.input| && 2 * cc <= |x.slots|
    ensures Groups(Single(t)) == 0 && Strict(x, RunMatch(e, Single(t), cc, back, x))
  {
  }

  lemma StrictClose(e: Env, cc: nat, back: bool, x: Out, ys: seq<Out>)
    requires 2 * cc + 1 < |x.slots| && AllSlotFollow(e, back, x, ys) && Strict(Opened(cc, back, x), ys)
    ensures Strict(x, CloseGroup(e, cc, back, x, ys))
  {
  }

  lemma StrictQuant(e: Env, b: Node, cc: nat, back: bool, min: nat, max: nat, greedy: bool, x: Out)
    requires x.pos <= |e.input| && 2 * (cc + Groups(b)) <= |x.slots| && min != 0 && max != 0
    ensures var c := AtomStart(b, cc, x);
      && c.pos == x.pos && |c.slots| == |x.slots|
      && AllSlotFollow(e, back, x, RunMatch(e, b, cc, back, c))
      && RunRepeat(e, b, cc, back, min, max, greedy, x) == RunRepeatEach(e, b, cc, back, min, max, greedy, x, RunMatch(e, b, cc, back, c))
  {
    hide Straight, RunMatch, RunRepeatEach, Groups;
  }

  lemma StrictSame(x: Out, y: Out, ys: seq<Out>)
    requires Strict(x, ys) && x.pos == y.pos
    ensures Strict(y, ys)
  {
  }

  /** An atom for which no advance check is emitted moves the position on every outcome. */
  lemma {:induction false} MovesPosition(e: Env, n: Node, cc: nat, back: bool, x: Out)
    requires x.pos <= |e.input| && 2 * (cc + Groups(n)) <= |x.slots| && Scan(n, back).moved
    ensures Strict(x, RunMatch(e, n, cc, back, x))
    decreases n, 1
  {
    hide *;
    ScanParts(n, back);
    match n {
      case Single(t) => StrictSingle(e, t, cc, back, x);
      case Cat(a, b) => MovesCat(e, a, b, cc, back, x);
      case Group(b) =>
        GroupUnfold(e, b, cc, back, x);
        OpenedFacts(cc, back, x);
        MovesPosition(e, b, cc + 1, back, Opened(cc, back, x));
        StrictClose(e, cc, back, x, RunMatch(e, b, cc + 1, back, Opened(cc, back, x)));
      case Quant(b, min, max, greedy) =>
        QuantUnfold(e, b, min, max, greedy, cc, back, x);
        var start, bound := QuantStart(b, cc, min, x), MachineMax(b, back, min, max);
        BoundFacts(b, back, min, max);
        StrictQuant(e, b, cc, back, min, bound, greedy, start);
        var ys := RunMatch(e, b, cc, back, AtomStart(b, cc, start));
        MovesPosition(e, b, cc, back, AtomStart(b, cc, start));
        StrictSame(AtomStart(b, cc, start), start, ys);
        MovesRepeat(e, b, cc, back, min, bound, greedy, start, ys);
        StrictSame(start, x, RunRepeatEach(e, b, cc, back, min, bound, greedy, start, ys));
    }
  }

  lemma BoundFacts(b: Node, back: bool, min: nat, max: nat)
    ensures (MachineMax(b, back, min, max) == 0) == (max == 0)
    ensures forall q: Loop :: q.b == b && q.back == back && q.min == min && q.max == max ==> BoundOf(q) == MachineMax(b, back, min, max)
  {
    hide NeedAdvance;
  }

  lemma OpenedFacts(cc: nat, back: bool, x: Out)
    requires 2 * cc + 1 < |x.slots|
    ensures Opened(cc, back, x).pos == x.pos && |Opened(cc, back, x).slots| == |x.slots|
  {
  }

  lemma {:induction false} MovesCat(e: Env, a: Node, b: Node, cc: nat, back: bool, x: Out)
    requires x.pos <= |e.input| && 2 * (cc + Groups(Cat(a, b))) <= |x.slots| && (Scan(a, back).moved || Scan(b, back).moved)
    ensures Strict(x, RunMatch(e, Cat(a, b), cc, back, x))
    decreases Cat(a, b), 0
  {
    hide Scan, RunMatch, RunEach, AllSlotFollow, Strict;
    CatUnfoldIn(e, a, b, cc, back, x);
    var (f, cf, s, cs) := CatOrder(a, b, cc, back);
    CatOrderSmaller(a, b, cc, back);
    var ys := RunMatch(e, f, cf, back, x);
    if Scan(f, back).moved { MovesPosition(e, f, cf, back, x); }
    MovesEach(e, s, cs, back, x, ys);
  }

  lemma {:induction false} MovesEach(e: Env, n: Node, cc: nat, back: bool, x: Out, ys: seq<Out>)
    requires x.pos <= |e.input| && 2 * (cc + Groups(n)) <= |x.slots| && AllSlotFollow(e, back, x, ys)
    requires Scan(n, back).moved || Strict(x, ys)
    ensures Strict(x, RunEach(e, n, cc, back, x, ys))
    decreases n, 2, |ys|
  {
    if ys != [] {
      if Scan(n, back).moved { MovesPosition(e, n, cc, back, ys[0]); }
      MovesEach(e, n, cc, back, x, ys[1..]);
    }
  }

  lemma {:induction false} MovesRepeat(e: Env, b: Node, cc: nat, back: bool, min: nat, max: nat, greedy: bool, x: Out, ys: seq<Out>)
    requires x.pos <= |e.input| && 2 * (cc + Groups(b)) <= |x.slots| && AllSlotFollow(e, back, x, ys)
    requires Strict(x, ys)
    ensures Strict(x, RunRepeatEach(e, b, cc, back, min, max, greedy, x, ys))
    decreases |ys|
  {
    if ys != [] { MovesRepeat(e, b, cc, back, min, max, greedy, x, ys[1..]); }
  }

  // ----- choice -----

  /** After a split: the pass and the exit in the order asked for. */
  lemma DeliverChoice(p: Prog, c: Cfg, x: Out, regs: seq<int>, base: seq<Frame>, passPc: int, endPc: int, greedy: bool, more: seq<Out>, d: nat)
    requires d <= |regs|
    requires Reaches(p, c,
      if greedy then At(passPc, x, regs, base + [Frame(SplitK, endPc, x.pos, x.slots + regs)])
      else At(endPc, x, regs, base + [Frame(SplitK, passPc, x.pos, x.slots + regs)]))
    requires greedy ==>
      var top := base + [Frame(SplitK, endPc, x.pos, x.slots + regs)];
      Delivers(p, At(passPc, x, regs, top), more, endPc, top, regs, d)
    requires !greedy ==> Delivers(p, At(passPc, x, regs, base), more, endPc, base, regs, d)
    ensures Delivers(p, c, Choice(greedy, more, x), endPc, base, regs, d)
  {
    hide Reaches, Delivers;
    var f := Frame(SplitK, if greedy then endPc else passPc, x.pos, x.slots + regs);
    var top := base + [f];
    assert top[..|base|] == base;
    FailToExtended(base, f);
    if greedy {
      ReachesSelf(p, At(endPc, x, regs, base));
      DeliverOne(p, At(endPc, x, regs, base), x, endPc, base, regs, regs, d);
      DeliverAppend(p, At(passPc, x, regs, top), more, [x], endPc, base, top, regs, d);
      DeliverAfter(p, c, At(passPc, x, regs, top), more + [x], endPc, base, regs, d);
    } else {
      DeliverOne(p, c, x, endPc, top, regs, regs, d);
      DeliverAppend(p, c, [x], more, endPc, base, top, regs, d);
    }
  }

  // ----- unfoldings, one constructor at a time -----

  lemma ValidPair(a: Node, b: Node)
    ensures ValidNode(Cat(a, b)) <==> ValidNode(a) && ValidNode(b)
    ensures ValidNode(Alt(a, b)) <==> ValidNode(a) && ValidNode(b)
  {
  }

  lemma RefsPair(a: Node, b: Node, captures: nat)
    ensures RefsBelow(Cat(a, b), captures) <==> RefsBelow(a, captures) && RefsBelow(b, captures)
    ensures RefsBelow(Alt(a, b), captures) <==> RefsBelow(a, captures) && RefsBelow(b, captures)
  {
  }

  lemma DepthPair(a: Node, b: Node, back: bool)
    ensures Depth(Cat(a, b), back) == Depth(Alt(a, b), back) == Max(Depth(a, back), Depth(b, back))
    ensures Groups(Cat(a, b)) == Groups(Alt(a, b)) == Groups(a) + Groups(b)
  {
    hide Held, Max;
  }

  lemma PairStatic(a: Node, b: Node, captures: nat, back: bool)
    ensures ValidNode(Cat(a, b)) <==> ValidNode(a) && ValidNode(b)
    ensures ValidNode(Alt(a, b)) <==> ValidNode(a) && ValidNode(b)
    ensures Groups(Cat(a, b)) == Groups(Alt(a, b)) == Groups(a) + Groups(b)
    ensures RefsBelow(Cat(a, b), captures) <==> RefsBelow(a, captures) && RefsBelow(b, captures)
    ensures RefsBelow(Alt(a, b), captures) <==> RefsBelow(a, captures) && RefsBelow(b, captures)
    ensures Depth(a, back) <= Depth(Cat(a, b), back) && Depth(b, back) <= Depth(Cat(a, b), back)
    ensures Depth(a, back) <= Depth(Alt(a, b), back) && Depth(b, back) <= Depth(Alt(a, b), back)
  {
    hide ValidNode, RefsBelow, Depth, Groups;
    ValidPair(a, b);
    RefsPair(a, b, captures);
    DepthPair(a, b, back);
  }

  lemma GroupStatic(b: Node, captures: nat, back: bool)
    ensures ValidNode(Group(b)) == ValidNode(b) && Groups(Group(b)) == 1 + Groups(b)
    ensures RefsBelow(Group(b), captures) == RefsBelow(b, captures)
    ensures Depth(Group(b), back) == Depth(b, back)
  {
  }

  lemma LookStatic(negated: bool, behind: bool, b: Node, captures: nat, back: bool)
    ensures var n := Look(negated, behind, b);
      && ValidNode(n) == ValidNode(b) && Groups(n) == Groups(b) && RefsBelow(n, captures) == RefsBelow(b, captures)
      && Depth(n, back) == Depth(b, behind)
  {
  }

  // ----- the statement -----

  ghost predicate Ready(p: Prog, n: Node, cc: nat, back: bool, d: nat, pc: int, x: Out, regs: seq<int>) {
    && ValidEnv(p.env) && ValidNode(n) && RefsBelow(n, p.captures)
    && cc + Groups(n) <= p.captures && |x.slots| == 2 * p.captures && x.pos <= |p.env.input|
    && d + Depth(n, back) <= |regs|
    && HasCode(p.code, pc, Code(p.env, n, cc, back, true, d))
  }

  function EndPc(p: Prog, n: Node, cc: nat, back: bool, d: nat, pc: int): int
    requires ValidNode(n)
  {
    pc + Size(Code(p.env, n, cc, back, true, d))
  }

  lemma {:induction false} Simulate(p: Prog, n: Node, cc: nat, back: bool, d: nat, pc: int, x: Out, regs: seq<int>, base: seq<Frame>)
    requires Ready(p, n, cc, back, d, pc, x, regs)
    ensures Delivers(p, At(pc, x, regs, base), RunMatch(p.env, n, cc, back, x), EndPc(p, n, cc, back, d, pc), base, regs, d)
    decreases n, 1, 0, 0, 0, 0
  {
    hide Reaches, Delivers, Fetch, FailTo;
    match n {
      case Empty =>
        ReachesSelf(p, At(pc, x, regs, base));
        DeliverOne(p, At(pc, x, regs, base), x, pc, base, regs, regs, d);
      case Single(t) => SimulateSingle(p, t, cc, back, d, pc, x, regs, base);
      case Cat(a, b) => SimulateCat(p, a, b, cc, back, d, pc, x, regs, base);
      case Alt(a, b) => SimulateAlt(p, a, b, cc, back, d, pc, x, regs, base);
      case Group(b) => SimulateGroup(p, b, cc, back, d, pc, x, regs, base);
      case Quant(b, min, max, greedy) => SimulateQuant(p, b, min, max, greedy, cc, back, d, pc, x, regs, base);
      case Look(negated, behind, b) => SimulateLook(p, negated, behind, b, cc, back, d, pc, x, regs, base);
      case BackRef(refs, icase) => SimulateBackRef(p, refs, icase, cc, back, d, pc, x, regs, base);
      case _ => SimulateAssert(p, n, cc, back, d, pc, x, regs, base);
    }
  }

  /** The instruction of an assertion, and what it tests. */
  function AssertInstr(n: Node): Instr
    requires n.LineStart? || n.LineEnd? || n.WordBoundary?
  {
    match n
    case LineStart(multi) => ILineStart(multi)
    case LineEnd(multi) => ILineEnd(multi)
    case WordBoundary(negated, icase) => IWordBoundary(negated, icase)
  }

  lemma AssertUnfold(e: Env, n: Node, cc: nat, back: bool, d: nat, x: Out)
    requires ValidNode(n) && x.pos <= |e.input| && 2 * (cc + Groups(n)) <= |x.slots|
    requires n.LineStart? || n.LineEnd? || n.WordBoundary?
    ensures var i := AssertInstr(n);
      && Asserts(i) && Code(e, n, cc, back, true, d) == [i]
      && RunMatch(e, n, cc, back, x) == if AssertHolds(e, i, x.pos) then [x] else []
  {
    hide AtLineStart, AtLineEnd, AtWordBoundary;
  }

  lemma SimulateAssert(p: Prog, n: Node, cc: nat, back: bool, d: nat, pc: int, x: Out, regs: seq<int>, base: seq<Frame>)
    requires Ready(p, n, cc, back, d, pc, x, regs) && (n.LineStart? || n.LineEnd? || n.WordBoundary?)
    ensures Delivers(p, At(pc, x, regs, base), RunMatch(p.env, n, cc, back, x), EndPc(p, n, cc, back, d, pc), base, regs, d)
  {
    hide *;
    ReadyFacts(p, n, cc, back, d, pc, x, regs);
    ReadyCode(p, n, cc, back, d, pc, x, regs);
    AssertUnfold(p.env, n, cc, back, d, x);
    var c := At(pc, x, regs, base);
    var i := AssertInstr(n);
    HasCodeOne(p.code, pc, i);
    SizeOne(i);
    RunAssert(p, pc, i, x, regs, base);
    SameBelowSelf(regs, d);
    var end := pc + ISize(i);
    if AssertHolds(p.env, i, x.pos) {
      DeliverOne(p, c, x, end, base, regs, regs, d);
    } else {
      DeliverNone(p, c, end, base, regs, d);
    }
  }

  lemma ReadyCode(p: Prog, n: Node, cc: nat, back: bool, d: nat, pc: int, x: Out, regs: seq<int>)
    requires Ready(p, n, cc, back, d, pc, x, regs)
    ensures ValidNode(n) && HasCode(p.code, pc, Code(p.env, n, cc, back, true, d))
    ensures EndPc(p, n, cc, back, d, pc) == pc + Size(Code(p.env, n, cc, back, true, d))
    ensures RefsBelow(n, p.captures)
  {
    hide HasCode, Code, ValidNode, RefsBelow, Depth, Groups, ValidEnv, Size;
  }

  lemma BackRefUnfold(e: Env, refs: seq<nat>, icase: bool, cc: nat, back: bool, d: nat, x: Out, captures: nat)
    requires ValidNode(BackRef(refs, icase)) && x.pos <= |e.input| && 2 * (cc + Groups(BackRef(refs, icase))) <= |x.slots|
    requires RefsBelow(BackRef(refs, icase), captures)
    ensures Code(e, BackRef(refs, icase), cc, back, true, d) == [IBackRef(back, icase, refs)]
    ensures forall k :: 0 <= k < |refs| ==> refs[k] < captures
    ensures var q := BackRefEnd(e, refs, icase, back, x.slots, x.pos);
      && (q == -1 || q >= 0)
      && RunMatch(e, BackRef(refs, icase), cc, back, x) == if q == -1 then [] else [x.(pos := q)]
  {
    hide BackRefEnd;
  }

  lemma SimulateBackRef(p: Prog, refs: seq<nat>, icase: bool, cc: nat, back: bool, d: nat, pc: int, x: Out, regs: seq<int>, base: seq<Frame>)
    requires Ready(p, BackRef(refs, icase), cc, back, d, pc, x, regs)
    ensures Delivers(p, At(pc, x, regs, base), RunMatch(p.env, BackRef(refs, icase), cc, back, x), EndPc(p, BackRef(refs, icase), cc, back, d, pc), base, regs, d)
  {
    hide *;
    ReadyFacts(p, BackRef(refs, icase), cc, back, d, pc, x, regs);
    ReadyCode(p, BackRef(refs, icase), cc, back, d, pc, x, regs);
    BackRefUnfold(p.env, refs, icase, cc, back, d, x, p.captures);
    var c := At(pc, x, regs, base);
    var i := IBackRef(back, icase, refs);
    HasCodeOne(p.code, pc, i);
    SizeOne(i);
    RunBackRef(p, pc, back, icase, refs, x, regs, base);
    SameBelowSelf(regs, d);
    var q := BackRefEnd(p.env, refs, icase, back, x.slots, x.pos);
    var end := pc + ISize(i);
    if q == -1 {
      DeliverNone(p, c, end, base, regs, d);
    } else {
      DeliverOne(p, c, x.(pos := q), end, base, regs, regs, d);
    }
  }

  lemma SingleForward(p: Prog, i: Instr, d: nat, pc: int, x: Out, regs: seq<int>, base: seq<Frame>)
    requires Fetch(p.code, pc) == Some(i) && Consumes(i) && d <= |regs|
    ensures Delivers(p, At(pc, x, regs, base),
      if x.pos < |p.env.input| && InstrAccepts(p.env, i, p.env.input[x.pos]) then [x.(pos := x.pos + 1)] else [],
      pc + ISize(i), base, regs, d)
  {
    hide Reaches, Delivers, Fetch, FailTo, InstrAccepts, ISize;
    var c := At(pc, x, regs, base);
    RunConsume(p, pc, i, x, regs, base);
    if x.pos < |p.env.input| && InstrAccepts(p.env, i, p.env.input[x.pos]) {
      DeliverOne(p, c, x.(pos := x.pos + 1), pc + ISize(i), base, regs, regs, d);
    } else {
      DeliverNone(p, c, pc + ISize(i), base, regs, d);
    }
  }

  lemma SingleBackward(p: Prog, i: Instr, d: nat, pc: int, x: Out, regs: seq<int>, base: seq<Frame>)
    requires Fetch(p.code, pc) == Some(IPrev) && Fetch(p.code, pc + 1) == Some(i)
    requires Fetch(p.code, pc + 1 + ISize(i)) == Some(IPrev)
    requires Consumes(i) && d <= |regs| && x.pos <= |p.env.input|
    ensures Delivers(p, At(pc, x, regs, base),
      if 0 < x.pos && InstrAccepts(p.env, i, p.env.input[x.pos - 1]) then [x.(pos := x.pos - 1)] else [],
      pc + 1 + ISize(i) + 1, base, regs, d)
  {
    hide Reaches, Delivers, Fetch, FailTo, InstrAccepts, ISize;
    var c := At(pc, x, regs, base);
    var end := pc + 1 + ISize(i) + 1;
    RunPrev(p, pc, x, regs, base);
    if x.pos == 0 {
      DeliverNone(p, c, end, base, regs, d);
    } else {
      var y := x.(pos := x.pos - 1);
      RunConsume(p, pc + 1, i, y, regs, base);
      if InstrAccepts(p.env, i, p.env.input[y.pos]) {
        RunPrev(p, pc + 1 + ISize(i), x, regs, base);
        ReachesTrans(p, c, At(pc + 1, y, regs, base), At(pc + 1 + ISize(i), x, regs, base));
        ReachesTrans(p, c, At(pc + 1 + ISize(i), x, regs, base), At(end, y, regs, base));
        DeliverOne(p, c, y, end, base, regs, regs, d);
      } else {
        ReachesTrans(p, c, At(pc + 1, y, regs, base), FailTo(base));
        DeliverNone(p, c, end, base, regs, d);
      }
    }
  }

  lemma SimulateSingle(p: Prog, t: CharTest, cc: nat, back: bool, d: nat, pc: int, x: Out, regs: seq<int>, base: seq<Frame>)
    requires Ready(p, Single(t), cc, back, d, pc, x, regs)
    ensures Delivers(p, At(pc, x, regs, base), RunSingle(p.env, t, back, x), EndPc(p, Single(t), cc, back, d, pc), base, regs, d)
  {
    hide Delivers, Fetch, InstrAccepts, TestAccepts, EmitTest, ISize;
    var i := EmitTest(p.env, t);
    if x.pos < |p.env.input| { ClassMatch.EmitTestCorrect(p.env, t, p.env.input[x.pos]); }
    if 0 < x.pos { ClassMatch.EmitTestCorrect(p.env, t, p.env.input[x.pos - 1]); }
    ClassMatch.EmitTestCorrect(p.env, t, 0);
    if back {
      SingleCodeBack(p, t, pc);
      SingleBackward(p, i, d, pc, x, regs, base);
    } else {
      HasCodeOne(p.code, pc, i);
      SizeOne(i);
      SingleForward(p, i, d, pc, x, regs, base);
    }
  }

  lemma PrevSize()
    ensures ISize(IPrev) == 1
  {
  }

  lemma SingleCodeBack(p: Prog, t: CharTest, pc: int)
    requires ValidTest(t) && HasCode(p.code, pc, EmitSingle(p.env, t, true))
    ensures Fetch(p.code, pc) == Some(IPrev)
    ensures Fetch(p.code, pc + 1) == Some(EmitTest(p.env, t))
    ensures Fetch(p.code, pc + 1 + ISize(EmitTest(p.env, t))) == Some(IPrev)
    ensures Size(EmitSingle(p.env, t, true)) == 1 + ISize(EmitTest(p.env, t)) + 1
  {
    hide Fetch, EmitTest, ISize;
    var i := EmitTest(p.env, t);
    assert EmitSingle(p.env, t, true) == [IPrev] + ([i] + [IPrev]);
    HasCodeHead(p.code, pc, IPrev, [i] + [IPrev]);
    PrevSize();
    HasCodeHead(p.code, pc + 1, i, [IPrev]);
    HasCodeOne(p.code, pc + 1 + ISize(i), IPrev);
    SizeOne(IPrev);
  }

  // ----- sequence -----

  lemma {:induction false} SimulateEach(p: Prog, n: Node, cc: nat, back: bool, d: nat, pc: int, x: Out, ys: seq<Out>, c: Cfg, regs: seq<int>, base: seq<Frame>)
    requires Ready(p, n, cc, back, d, pc, x, regs) && AllSlotFollow(p.env, back, x, ys)
    requires Delivers(p, c, ys, pc, base, regs, d)
    ensures Delivers(p, c, RunEach(p.env, n, cc, back, x, ys), EndPc(p, n, cc, back, d, pc), base, regs, d)
    decreases n, 2, 0, 0, 0, |ys|
  {
    hide Reaches, Fetch, FailTo, HasCode, ValidEnv, Code, RunMatch, ValidNode, RefsBelow, Groups;
    var end := EndPc(p, n, cc, back, d, pc);
    if ys != [] {
      var st, regs' :| Lands(p, c, ys[0], pc, base, regs, d, st, regs') && Delivers(p, FailTo(st), ys[1..], pc, base, regs, d);
      var c' := At(pc, ys[0], regs', st);
      var zs := RunMatch(p.env, n, cc, back, ys[0]);
      Simulate(p, n, cc, back, d, pc, ys[0], regs', st);
      DeliverWeaken(p, c', zs, end, st, regs', d, regs, d);
      SimulateEach(p, n, cc, back, d, pc, x, ys[1..], FailTo(st), regs, base);
      DeliverAppend(p, c', zs, RunEach(p.env, n, cc, back, x, ys[1..]), end, base, st, regs, d);
      DeliverAfter(p, c, c', zs + RunEach(p.env, n, cc, back, x, ys[1..]), end, base, regs, d);
    }
  }

  /** The two halves of a sequence, whichever is written first. */
  lemma SplitCode(b: seq<byte>, pc: int, x: seq<Instr>, y: seq<Instr>)
    requires HasCode(b, pc, x + y)
    ensures HasCode(b, pc, x) && HasCode(b, pc + Size(x), y) && Size(x + y) == Size(x) + Size(y)
  {
    hide HasCode, Size;
    HasCodeSplit(b, pc, x, y);
    BytesConcat(x, y);
  }

  lemma ReadyCat(p: Prog, a: Node, b: Node, cc: nat, back: bool, d: nat, pc: int, x: Out, regs: seq<int>)
    requires Ready(p, Cat(a, b), cc, back, d, pc, x, regs)
    ensures var (f, cf, s, cs) := CatOrder(a, b, cc, back);
      ValidNode(f) && ValidNode(s) &&
      var mid := EndPc(p, f, cf, back, d, pc);
      && Ready(p, f, cf, back, d, pc, x, regs)
      && Ready(p, s, cs, back, d, mid, x, regs)
      && EndPc(p, Cat(a, b), cc, back, d, pc) == EndPc(p, s, cs, back, d, mid)
  {
    hide HasCode, Code, ValidNode, RefsBelow, Depth, Groups, ValidEnv, Size;
    PairStatic(a, b, p.captures, back);
    CatCode(p.env, a, b, cc, back, true, d);
    var (f, cf, s, cs) := CatOrder(a, b, cc, back);
    SplitCode(p.code, pc, Code(p.env, f, cf, back, true, d), Code(p.env, s, cs, back, true, d));
  }

  lemma {:induction false} SimulateCat(p: Prog, a: Node, b: Node, cc: nat, back: bool, d: nat, pc: int, x: Out, regs: seq<int>, base: seq<Frame>)
    requires Ready(p, Cat(a, b), cc, back, d, pc, x, regs)
    ensures Delivers(p, At(pc, x, regs, base), RunMatch(p.env, Cat(a, b), cc, back, x), EndPc(p, Cat(a, b), cc, back, d, pc), base, regs, d)
    decreases Cat(a, b), 0, 0, 0, 0, 0
  {
    hide *;
    ReadyCat(p, a, b, cc, back, d, pc, x, regs);
    var (f, cf, s, cs) := CatOrder(a, b, cc, back);
    CatOrderSmaller(a, b, cc, back);
    ReadyFacts(p, Cat(a, b), cc, back, d, pc, x, regs);
    PairStatic(a, b, p.captures, back);
    CatUnfold(p.env, a, b, cc, back, x);
    ReadyFacts(p, f, cf, back, d, pc, x, regs);
    Simulate(p, f, cf, back, d, pc, x, regs, base);
    SimulateEach(p, s, cs, back, d, EndPc(p, f, cf, back, d, pc), x, RunMatch(p.env, f, cf, back, x), At(pc, x, regs, base), regs, base);
  }

  lemma ReadyFacts(p: Prog, n: Node, cc: nat, back: bool, d: nat, pc: int, x: Out, regs: seq<int>)
    requires Ready(p, n, cc, back, d, pc, x, regs)
    ensures ValidNode(n) && x.pos <= |p.env.input| && 2 * (cc + Groups(n)) <= |x.slots| == 2 * p.captures && d <= |regs|
  {
    hide HasCode, Code, ValidNode, RefsBelow, Depth, ValidEnv, Groups;
  }

  // ----- alternatives -----

  lemma {:induction false} DeliverGoto(p: Prog, c: Cfg, ys: seq<Out>, pc: int, off: int, base: seq<Frame>, regs: seq<int>, d: nat)
    requires Fetch(p.code, pc) == Some(IGoto(off)) && Delivers(p, c, ys, pc, base, regs, d)
    ensures Delivers(p, c, ys, pc + 5 + off, base, regs, d)
    decreases |ys|
  {
    hide Reaches, Fetch, FailTo;
    if ys != [] {
      var st, regs' :| Lands(p, c, ys[0], pc, base, regs, d, st, regs') && Delivers(p, FailTo(st), ys[1..], pc, base, regs, d);
      RunGoto(p, pc, off, ys[0], regs', st);
      ReachesTrans(p, c, At(pc, ys[0], regs', st), At(pc + 5 + off, ys[0], regs', st));
      DeliverGoto(p, FailTo(st), ys[1..], pc, off, base, regs, d);
      assert Lands(p, c, ys[0], pc + 5 + off, base, regs, d, st, regs');
    }
  }

  lemma JumpSizes(off: int, flag: bool)
    ensures ISize(IGoto(off)) == 5 && ISize(ISplit(flag, off)) == 5 && ISize(ILook(flag, off)) == 5
  {
  }

  lemma SmallSizes(flag: bool, g: nat, h: nat)
    ensures ISize(ISave(flag, g)) == 2 && ISize(ILookMatch(flag)) == 1 && ISize(ISetPos(g)) == 2
    ensures ISize(ICheckAdv(g)) == 2 && ISize(IReset(g, h)) == 3
  {
  }

  lemma AltLayout(b: seq<byte>, pc: int, x: seq<Instr>, y: seq<Instr>)
    requires HasCode(b, pc, AltCode(x, y))
    ensures Fetch(b, pc) == Some(ISplit(true, Size(x) + 5)) && HasCode(b, pc + 5, x)
    ensures Fetch(b, pc + 5 + Size(x)) == Some(IGoto(Size(y))) && HasCode(b, pc + 5 + Size(x) + 5, y)
    ensures Size(AltCode(x, y)) == 5 + Size(x) + 5 + Size(y)
  {
    hide Fetch, HasCode, ISize, Size;
    var i, g := ISplit(true, Size(x) + 5), IGoto(Size(y));
    JumpSizes(Size(x) + 5, true);
    JumpSizes(Size(y), true);
    assert AltCode(x, y) == [i] + (x + ([g] + y));
    HasCodeHead(b, pc, i, x + ([g] + y));
    HasCodeSplit(b, pc + 5, x, [g] + y);
    BytesConcat(x, [g] + y);
    HasCodeHead(b, pc + 5 + Size(x), g, y);
  }

  lemma ReadyAlt(p: Prog, a: Node, b: Node, cc: nat, back: bool, d: nat, pc: int, x: Out, regs: seq<int>)
    requires Ready(p, Alt(a, b), cc, back, d, pc, x, regs)
    ensures ValidNode(a) && ValidNode(b) &&
      var sa, sb := Size(Code(p.env, a, cc, back, true, d)), Size(Code(p.env, b, cc + Groups(a), back, true, d));
      && EndPc(p, a, cc, back, d, pc + 5) == pc + 5 + sa
      && Fetch(p.code, pc) == Some(ISplit(true, sa + 5))
      && Fetch(p.code, pc + 5 + sa) == Some(IGoto(sb))
      && Ready(p, a, cc, back, d, pc + 5, x, regs) && Ready(p, b, cc + Groups(a), back, d, pc + 5 + sa + 5, x, regs)
      && EndPc(p, b, cc + Groups(a), back, d, pc + 5 + sa + 5) == pc + 5 + sa + 5 + sb
      && EndPc(p, Alt(a, b), cc, back, d, pc) == pc + 5 + sa + 5 + sb
  {
    hide HasCode, Code, ValidNode, RefsBelow, Depth, Groups, ValidEnv, Size, Fetch, AltCode;
    PairStatic(a, b, p.captures, back);
    AltCodeUnfold(p.env, a, b, cc, back, true, d);
    AltLayout(p.code, pc, Code(p.env, a, cc, back, true, d), Code(p.env, b, cc + Groups(a), back, true, d));
  }

  lemma {:induction false} SimulateAlt(p: Prog, a: Node, b: Node, cc: nat, back: bool, d: nat, pc: int, x: Out, regs: seq<int>, base: seq<Frame>)
    requires Ready(p, Alt(a, b), cc, back, d, pc, x, regs)
    ensures Delivers(p, At(pc, x, regs, base), RunMatch(p.env, Alt(a, b), cc, back, x), EndPc(p, Alt(a, b), cc, back, d, pc), base, regs, d)
    decreases Alt(a, b), 0, 0, 0, 0, 0
  {
    hide *;
    ReadyFacts(p, Alt(a, b), cc, back, d, pc, x, regs);
    PairStatic(a, b, p.captures, back);
    AltUnfold(p.env, a, b, cc, back, x);
    ReadyAlt(p, a, b, cc, back, d, pc, x, regs);
    var sa, sb := Size(Code(p.env, a, cc, back, true, d)), Size(Code(p.env, b, cc + Groups(a), back, true, d));
    var other := pc + 5 + sa + 5;
    var f := Frame(SplitK, other, x.pos, x.slots + regs);
    var top := base + [f];
    RunSplit(p, pc, true, sa + 5, x, regs, base);
    FailToFrame(base, SplitK, other, x, regs);
    ExtendsPush(base, f);
    ReadyFacts(p, a, cc, back, d, pc + 5, x, regs);
    ReadyFacts(p, b, cc + Groups(a), back, d, other, x, regs);
    Simulate(p, a, cc, back, d, pc + 5, x, regs, top);
    Simulate(p, b, cc + Groups(a), back, d, other, x, regs, base);
    DeliverAlternatives(p, At(pc, x, regs, base), At(pc + 5, x, regs, top),
      RunMatch(p.env, a, cc, back, x), RunMatch(p.env, b, cc + Groups(a), back, x), pc + 5 + sa, sb, base, f, At(other, x, regs, base), regs, d);
  }

  lemma ExtendsPush(base: seq<Frame>, f: Frame)
    requires f.kind == SplitK
    ensures Extends(base, base + [f])
  {
    assert (base + [f])[..|base|] == base;
  }

  lemma DeliverAlternatives(p: Prog, c: Cfg, c1: Cfg, ya: seq<Out>, yb: seq<Out>, pc: int, off: int, base: seq<Frame>, f: Frame, c2: Cfg, regs: seq<int>, d: nat)
    requires Reaches(p, c, c1) && Fetch(p.code, pc) == Some(IGoto(off)) && Extends(base, base + [f])
    requires FailTo(base + [f]) == c2
    requires Delivers(p, c1, ya, pc, base + [f], regs, d) && Delivers(p, c2, yb, pc + 5 + off, base, regs, d)
    ensures Delivers(p, c, ya + yb, pc + 5 + off, base, regs, d)
  {
    hide *;
    DeliverGoto(p, c1, ya, pc, off, base + [f], regs, d);
    DeliverAppend(p, c1, ya, yb, pc + 5 + off, base, base + [f], regs, d);
    DeliverAfter(p, c, c1, ya + yb, pc + 5 + off, base, regs, d);
  }

  // ----- groups -----

  lemma {:induction false} DeliverClose(p: Prog, g: nat, back: bool, x: Out, c: Cfg, ys: seq<Out>, pc: int, base: seq<Frame>, regs: seq<int>, d: nat)
    requires Fetch(p.code, pc) == Some(ISave(!back, g)) && g < p.captures && |x.slots| == 2 * p.captures
    requires AllSlotFollow(p.env, back, x, ys) && Delivers(p, c, ys, pc, base, regs, d)
    ensures Delivers(p, c, CloseGroup(p.env, g, back, x, ys), pc + 2, base, regs, d)
    decreases |ys|
  {
    hide Reaches, Fetch, FailTo;
    if ys != [] {
      var st, regs' :| Lands(p, c, ys[0], pc, base, regs, d, st, regs') && Delivers(p, FailTo(st), ys[1..], pc, base, regs, d);
      var zs := CloseGroup(p.env, g, back, x, ys);
      RunSave(p, pc, !back, g, ys[0], regs', st);
      ReachesTrans(p, c, At(pc, ys[0], regs', st), At(pc + 2, zs[0], regs', st));
      DeliverClose(p, g, back, x, FailTo(st), ys[1..], pc, base, regs, d);
      assert zs[1..] == CloseGroup(p.env, g, back, x, ys[1..]);
      assert Lands(p, c, zs[0], pc + 2, base, regs, d, st, regs');
    }
  }

  lemma WrapLayout(b: seq<byte>, pc: int, i: Instr, x: seq<Instr>, j: Instr)
    requires HasCode(b, pc, [i] + x + [j])
    ensures Fetch(b, pc) == Some(i) && HasCode(b, pc + ISize(i), x) && Fetch(b, pc + ISize(i) + Size(x)) == Some(j)
    ensures Size([i] + x + [j]) == ISize(i) + Size(x) + ISize(j)
  {
    hide Fetch, HasCode, ISize;
    assert [i] + x + [j] == [i] + (x + [j]);
    HasCodeHead(b, pc, i, x + [j]);
    HasCodeSplit(b, pc + ISize(i), x, [j]);
    BytesConcat(x, [j]);
    HasCodeOne(b, pc + ISize(i) + Size(x), j);
    SizeOne(j);
  }

  lemma ReadyGroup(p: Prog, b: Node, cc: nat, back: bool, d: nat, pc: int, x: Out, regs: seq<int>)
    requires Ready(p, Group(b), cc, back, d, pc, x, regs)
    ensures ValidNode(b) && cc < p.captures && |x.slots| == 2 * p.captures &&
      var end := EndPc(p, b, cc + 1, back, d, pc + 2);
      && Fetch(p.code, pc) == Some(ISave(back, cc))
      && Ready(p, b, cc + 1, back, d, pc + 2, Opened(cc, back, x), regs)
      && Fetch(p.code, end) == Some(ISave(!back, cc))
      && EndPc(p, Group(b), cc, back, d, pc) == end + 2
  {
    hide HasCode, Code, ValidNode, RefsBelow, Depth, Groups, ValidEnv, Size, Fetch, ISize;
    GroupStatic(b, p.captures, back);
    GroupCode(p.env, b, cc, back, true, d);
    SmallSizes(back, cc, 0);
    SmallSizes(!back, cc, 0);
    WrapLayout(p.code, pc, ISave(back, cc), Code(p.env, b, cc + 1, back, true, d), ISave(!back, cc));
  }

  lemma {:induction false} SimulateGroup(p: Prog, b: Node, cc: nat, back: bool, d: nat, pc: int, x: Out, regs: seq<int>, base: seq<Frame>)
    requires Ready(p, Group(b), cc, back, d, pc, x, regs)
    ensures Delivers(p, At(pc, x, regs, base), RunMatch(p.env, Group(b), cc, back, x), EndPc(p, Group(b), cc, back, d, pc), base, regs, d)
    decreases Group(b), 0, 0, 0, 0, 0
  {
    hide *;
    ReadyFacts(p, Group(b), cc, back, d, pc, x, regs);
    GroupStatic(b, p.captures, back);
    ReadyGroup(p, b, cc, back, d, pc, x, regs);
    GroupUnfold(p.env, b, cc, back, x);
    var open := Opened(cc, back, x);
    ReadyFacts(p, b, cc + 1, back, d, pc + 2, open, regs);
    var ys := RunMatch(p.env, b, cc + 1, back, open);
    var end := EndPc(p, b, cc + 1, back, d, pc + 2);
    RunOpen(p, pc, back, cc, x, regs, base);
    Simulate(p, b, cc + 1, back, d, pc + 2, open, regs, base);
    DeliverClose(p, cc, back, x, At(pc + 2, open, regs, base), ys, end, base, regs, d);
    DeliverAfter(p, At(pc, x, regs, base), At(pc + 2, open, regs, base), CloseGroup(p.env, cc, back, x, ys), end + 2, base, regs, d);
  }

  lemma RunOpen(p: Prog, pc: int, back: bool, cc: nat, x: Out, regs: seq<int>, base: seq<Frame>)
    requires Fetch(p.code, pc) == Some(ISave(back, cc)) && cc < p.captures && |x.slots| == 2 * p.captures
    ensures Reaches(p, At(pc, x, regs, base), At(pc + 2, Opened(cc, back, x), regs, base))
  {
    hide Reaches, At, Fetch;
    RunSave(p, pc, back, cc, x, regs, base);
  }

  // ----- lookarounds -----

  lemma ReadyLook(p: Prog, negated: bool, behind: bool, b: Node, cc: nat, back: bool, d: nat, pc: int, x: Out, regs: seq<int>)
    requires Ready(p, Look(negated, behind, b), cc, back, d, pc, x, regs)
    ensures ValidNode(b) &&
      var end := EndPc(p, b, cc, behind, d, pc + 5);
      && Fetch(p.code, pc) == Some(ILook(negated, end + 1 - (pc + 5)))
      && Ready(p, b, cc, behind, d, pc + 5, x, regs)
      && Fetch(p.code, end) == Some(ILookMatch(negated))
      && EndPc(p, Look(negated, behind, b), cc, back, d, pc) == end + 1
  {
    hide HasCode, Code, ValidNode, RefsBelow, Depth, Groups, ValidEnv, Size, Fetch, ISize;
    LookStatic(negated, behind, b, p.captures, back);
    LookCodeUnfold(p.env, negated, behind, b, cc, back, true, d);
    var body := Code(p.env, b, cc, behind, true, d);
    JumpSizes(Size(body) + 1, negated);
    SmallSizes(negated, 0, 0);
    WrapLayout(p.code, pc, ILook(negated, Size(body) + 1), body, ILookMatch(negated));
  }

  lemma {:induction false} SimulateLook(p: Prog, negated: bool, behind: bool, b: Node, cc: nat, back: bool, d: nat, pc: int, x: Out, regs: seq<int>, base: seq<Frame>)
    requires Ready(p, Look(negated, behind, b), cc, back, d, pc, x, regs)
    ensures Delivers(p, At(pc, x, regs, base), RunMatch(p.env, Look(negated, behind, b), cc, back, x), EndPc(p, Look(negated, behind, b), cc, back, d, pc), base, regs, d)
    decreases Look(negated, behind, b), 0, 0, 0, 0, 0
  {
    hide *;
    ReadyLook(p, negated, behind, b, cc, back, d, pc, x, regs);
    ReadyFacts(p, b, cc, behind, d, pc + 5, x, regs);
    LookUnfold(p.env, negated, behind, b, cc, back, x);
    var end := EndPc(p, b, cc, behind, d, pc + 5);
    var f := Frame(if negated then NegLookK else LookK, end + 1, x.pos, x.slots + regs);
    var c, c' := At(pc, x, regs, base), At(pc + 5, x, regs, base + [f]);
    RunLook(p, pc, negated, end + 1 - (pc + 5), x, regs, base);
    Simulate(p, b, cc, behind, d, pc + 5, x, regs, base + [f]);
    LookResult(p, negated, c, c', x, RunMatch(p.env, b, cc, behind, x), end, base, f, regs, d);
  }

  /** The first outcome of the body decides, and only its captures survive. */
  lemma LookResult(p: Prog, negated: bool, c: Cfg, c': Cfg, x: Out, ys: seq<Out>, pc: int, base: seq<Frame>, f: Frame, regs: seq<int>, d: nat)
    requires Fetch(p.code, pc) == Some(ILookMatch(negated)) && d <= |regs|
    requires f == Frame(if negated then NegLookK else LookK, pc + 1, x.pos, x.slots + regs)
    requires Reaches(p, c, c') && Delivers(p, c', ys, pc, base + [f], regs, d)
    ensures Delivers(p, c, LookOutcome(negated, x, ys), pc + 1, base, regs, d)
  {
    hide Reaches, Fetch, FailTo;
    var top := base + [f];
    FailToExtended(base, f);
    if ys == [] {
      ReachesTrans(p, c, c', FailTo(top));
      if negated {
        DeliverOne(p, c, x, pc + 1, base, regs, regs, d);
      } else {
        DeliverNone(p, c, pc + 1, base, regs, d);
      }
    } else {
      var st, regs' :| Lands(p, c', ys[0], pc, top, regs, d, st, regs') && Delivers(p, FailTo(st), ys[1..], pc, top, regs, d);
      RunLookMatch(p, pc, negated, ys[0], regs', base, f, st);
      ReachesTrans(p, c, c', At(pc, ys[0], regs', st));
      if negated {
        ReachesTrans(p, c, At(pc, ys[0], regs', st), FailTo(base));
        DeliverNone(p, c, pc + 1, base, regs, d);
      } else {
        var y := ys[0].(pos := x.pos);
        ReachesTrans(p, c, At(pc, ys[0], regs', st), At(pc + 1, y, regs', base));
        DeliverOne(p, c, y, pc + 1, base, regs, regs', d);
      }
    }
  }

  // ----- quantifiers -----

  /** A pass over the atom of `q` is about to start: the code is in place and the registers agree
    * with the passes still forced (`m`) and allowed (`max`). */
  ghost predicate LoopAt(p: Prog, q: Loop, m: nat, max: nat, x: Out, regs: seq<int>) {
    && LoopStatic(p, q)
    && |x.slots| == 2 * p.captures && x.pos <= |p.env.input|
    && DepthIn(q) + Depth(q.b, q.back) <= |regs|
    && LoopInv(q, m, max, if Counting(q) then regs[q.d] else 0)
  }

  ghost predicate LoopStatic(p: Prog, q: Loop) {
    && ValidEnv(p.env) && ValidNode(q.b) && RefsBelow(q.b, p.captures) 
    && q.cc + Groups(q.b) <= p.captures && q.min <= q.max <= INT32_MAX && q.max != 0
    && PassCode(p, q) && TailCode(p.code, q)
  }

  lemma LoopFacts(p: Prog, q: Loop, m: nat, max: nat, x: Out, regs: seq<int>)
    requires LoopAt(p, q, m, max, x, regs)
    ensures LoopStatic(p, q) && ValidNode(q.b)
    ensures |x.slots| == 2 * p.captures && x.pos <= |p.env.input| && 2 * (q.cc + Groups(q.b)) <= |x.slots|
    ensures q.d <= DepthIn(q) <= |regs|
    ensures Counting(q) ==> q.d < DepthIn(q)
    ensures Adv(q) ==> PosReg(q) < DepthIn(q)
    ensures Adv(q) && Counting(q) ==> PosReg(q) == q.d + 1
    ensures max != 0
  {
    hide PassCode, TailCode, NeedAdvance, ValidEnv, ValidNode, RefsBelow, Groups, Depth, Remaining;
  }

  /** The registers while the atom runs: the entry position is saved when it will be checked. */
  function PassRegs(q: Loop, x: Out, regs: seq<int>): seq<int>
    requires Adv(q) ==> PosReg(q) < |regs|
  {
    if Adv(q) then regs[PosReg(q) := x.pos] else regs
  }

  function BodyPc(q: Loop): int {
    AtomPc(q) + (if NeedInit(q.b) && Groups(q.b) != 0 then 3 else 0)
  }

  lemma ReadyBody(p: Prog, q: Loop, m: nat, max: nat, x: Out, regs: seq<int>)
    requires LoopAt(p, q, m, max, x, regs)
    ensures ValidNode(q.b) && (Adv(q) ==> PosReg(q) < |regs|)
    ensures HasCode(p.code, BodyPc(q), Code(p.env, q.b, q.cc, q.back, true, DepthIn(q)))
    ensures EndPc(p, q.b, q.cc, q.back, DepthIn(q), BodyPc(q)) == q.tailPc
    ensures NeedInit(q.b) && Groups(q.b) != 0 ==> Fetch(p.code, AtomPc(q)) == Some(IReset(q.cc, q.cc + Groups(q.b) - 1))
    ensures Ready(p, q.b, q.cc, q.back, DepthIn(q), BodyPc(q), AtomStart(q.b, q.cc, x), PassRegs(q, x, regs))
  {
    hide Code, HasCode, Fetch, Size, ISize, ValidEnv, ValidNode, RefsBelow, TailCode, Depth, Groups, Straight, LoopInv, NeedAdvance;
    LoopFacts(p, q, m, max, x, regs);
    var body := Code(p.env, q.b, q.cc, q.back, true, DepthIn(q));
    if NeedInit(q.b) && Groups(q.b) != 0 {
      SmallSizes(true, q.cc, q.cc + Groups(q.b) - 1);
      HasCodeHead(p.code, AtomPc(q), IReset(q.cc, q.cc + Groups(q.b) - 1), body);
    } else {
      assert AtomCode(q.b, q.cc, body) == body;
    }
  }

  lemma {:induction false} SimulatePass(p: Prog, q: Loop, m: nat, max: nat, x: Out, regs: seq<int>, base: seq<Frame>)
    requires LoopAt(p, q, m, max, x, regs)
    ensures ValidNode(q.b) && (Adv(q) ==> PosReg(q) < |regs|) && 2 * (q.cc + Groups(q.b)) <= |x.slots|
    ensures Delivers(p, At(q.passPc, x, regs, base), RunMatch(p.env, q.b, q.cc, q.back, AtomStart(q.b, q.cc, x)), q.tailPc, base, PassRegs(q, x, regs), DepthIn(q))
    decreases q.b, 2, 0, 0, 0, 0
  {
    hide *;
    LoopFacts(p, q, m, max, x, regs);
    ReadyBody(p, q, m, max, x, regs);
    var regs1 := PassRegs(q, x, regs);
    var x1 := AtomStart(q.b, q.cc, x);
    RunToAtom(p, q, m, max, x, regs, base);
    RunToBody(p, q, x, regs1, base);
    ReadyFacts(p, q.b, q.cc, q.back, DepthIn(q), BodyPc(q), x1, regs1);
    Simulate(p, q.b, q.cc, q.back, DepthIn(q), BodyPc(q), x1, regs1, base);
    var c, c1, c2 := At(q.passPc, x, regs, base), At(AtomPc(q), x, regs1, base), At(BodyPc(q), x1, regs1, base);
    ReachesTrans(p, c, c1, c2);
    DeliverAfter(p, c, c2, RunMatch(p.env, q.b, q.cc, q.back, x1), q.tailPc, base, regs1, DepthIn(q));
  }

  lemma RunToAtom(p: Prog, q: Loop, m: nat, max: nat, x: Out, regs: seq<int>, base: seq<Frame>)
    requires LoopAt(p, q, m, max, x, regs)
    ensures Adv(q) ==> PosReg(q) < |regs|
    ensures Reaches(p, At(q.passPc, x, regs, base), At(AtomPc(q), x, PassRegs(q, x, regs), base))
  {
    hide Reaches, Fetch, HasCode, At, ISize, AtomOf, TailCode, NeedAdvance, LoopInv, Size;
    LoopFacts(p, q, m, max, x, regs);
    if Adv(q) {
      HasCodeOne(p.code, q.passPc, ISetPos(PosReg(q)));
      RunSetPos(p, q.passPc, PosReg(q), x, regs, base);
    } else {
      ReachesSelf(p, At(q.passPc, x, regs, base));
    }
  }

  lemma RunToBody(p: Prog, q: Loop, x: Out, regs: seq<int>, base: seq<Frame>)
    requires q.cc + Groups(q.b) <= p.captures && |x.slots| == 2 * p.captures
    requires NeedInit(q.b) && Groups(q.b) != 0 ==> Fetch(p.code, AtomPc(q)) == Some(IReset(q.cc, q.cc + Groups(q.b) - 1))
    ensures Reaches(p, At(AtomPc(q), x, regs, base), At(BodyPc(q), AtomStart(q.b, q.cc, x), regs, base))
  {
    hide Reaches, Fetch, At, Straight, Groups, AtomPc;
    if NeedInit(q.b) && Groups(q.b) != 0 {
      RunReset(p, AtomPc(q), q.cc, q.cc + Groups(q.b) - 1, x, regs, base);
    } else {
      ReachesSelf(p, At(AtomPc(q), x, regs, base));
      if NeedInit(q.b) { assert ResetSlots(x.slots, 2 * q.cc, 2 * (q.cc + 0)) == x.slots; }
    }
  }

  /** One pass and everything after it. */
  lemma {:induction false} SimulatePassTail(p: Prog, q: Loop, m: nat, max: nat, x: Out, regs: seq<int>, base: seq<Frame>)
    requires LoopAt(p, q, m, max, x, regs)
    ensures 2 * (q.cc + Groups(q.b)) <= |x.slots|
    ensures Delivers(p, At(q.passPc, x, regs, base), PassOutcomes(p.env, q, m, max, x), q.endPc, base, regs, q.d)
    decreases q.b, 3, m, Remaining(p.env, q.back, x.pos), 2, 0
  {
    hide *;
    LoopFacts(p, q, m, max, x, regs);
    AtomStartFacts(q, x);
    SimulatePass(p, q, m, max, x, regs, base);
    var regs1 := PassRegs(q, x, regs);
    var c := At(q.passPc, x, regs, base);
    var ys := RunMatch(p.env, q.b, q.cc, q.back, AtomStart(q.b, q.cc, x));
    LoopAtPass(p, q, m, max, x, regs);
    PassFollows(p.env, q, x, regs);
    SimulateTails(p, q, m, max, x, ys, c, regs1, base);
    PassUnfold(p.env, q, m, max, x);
    DeliverWeaken(p, c, PassOutcomes(p.env, q, m, max, x), q.endPc, base, regs1, q.d, regs, q.d);
  }

  lemma AtomStartFacts(q: Loop, x: Out)
    ensures AtomStart(q.b, q.cc, x).pos == x.pos && |AtomStart(q.b, q.cc, x).slots| == |x.slots|
  {
    hide Straight, Groups;
  }

  lemma PassUnfold(e: Env, q: Loop, m: nat, max: nat, x: Out)
    requires x.pos <= |e.input| && 2 * (q.cc + Groups(q.b)) <= |x.slots|
    ensures AllSlotFollow(e, q.back, x, RunMatch(e, q.b, q.cc, q.back, AtomStart(q.b, q.cc, x)))
    ensures PassOutcomes(e, q, m, max, x) ==
      RunRepeatEach(e, q.b, q.cc, q.back, m, max, q.greedy, x, RunMatch(e, q.b, q.cc, q.back, AtomStart(q.b, q.cc, x)))
  {
    hide RunRepeatEach, RunMatch;
  }

  lemma LoopAtPass(p: Prog, q: Loop, m: nat, max: nat, x: Out, regs: seq<int>)
    requires LoopAt(p, q, m, max, x, regs)
    ensures Adv(q) ==> PosReg(q) < |regs|
    ensures LoopAt(p, q, m, max, x, PassRegs(q, x, regs))
    ensures SameBelow(regs, PassRegs(q, x, regs), q.d) && |PassRegs(q, x, regs)| == |regs|
    ensures Adv(q) ==> PassRegs(q, x, regs)[PosReg(q)] == x.pos
  {
    hide LoopStatic, LoopInv, NeedAdvance, Depth, Remaining;
    LoopFacts(p, q, m, max, x, regs);
  }

  /** An atom without an advance check always moves. */
  lemma PassFollows(e: Env, q: Loop, x: Out, regs: seq<int>)
    requires x.pos <= |e.input| && 2 * (q.cc + Groups(q.b)) <= |x.slots|
    ensures var ys := RunMatch(e, q.b, q.cc, q.back, AtomStart(q.b, q.cc, x));
      AllSlotFollow(e, q.back, x, ys) && (!NeedAdvance(q.b, q.back) ==> Strict(x, ys))
  {
    hide RunMatch, Scan, Straight;
    if !NeedAdvance(q.b, q.back) { MovesPosition(e, q.b, q.cc, q.back, AtomStart(q.b, q.cc, x)); }
  }

  lemma {:induction false} SimulateTails(p: Prog, q: Loop, m: nat, max: nat, x: Out, ys: seq<Out>, c: Cfg, regs: seq<int>, base: seq<Frame>)
    requires LoopAt(p, q, m, max, x, regs) && AllSlotFollow(p.env, q.back, x, ys)
    requires !NeedAdvance(q.b, q.back) ==> Strict(x, ys)
    requires Adv(q) ==> PosReg(q) < |regs| && regs[PosReg(q)] == x.pos
    requires Delivers(p, c, ys, q.tailPc, base, regs, DepthIn(q))
    ensures 2 * (q.cc + Groups(q.b)) <= |x.slots|
    ensures Delivers(p, c, RunRepeatEach(p.env, q.b, q.cc, q.back, m, max, q.greedy, x, ys), q.endPc, base, regs, q.d)
    decreases q.b, 3, m, Remaining(p.env, q.back, x.pos), 1, |ys|
  {
    hide *;
    LoopFacts(p, q, m, max, x, regs);
    TailsUnfold(p.env, q, m, max, x, ys);
    if ys == [] {
      DeliversEmpty(p, c, q.tailPc, base, regs, DepthIn(q), q.endPc, q.d);
    } else {
      var st, regs' := DeliversFirst(p, c, ys, q.tailPc, base, regs, DepthIn(q));
      FollowsParts(p.env, q.back, x, ys);
      var c' := At(q.tailPc, ys[0], regs', st);
      var zs := TailOutcomes(p.env, q, m, max, x, ys[0]);
      var rest := RunRepeatEach(p.env, q.b, q.cc, q.back, m, max, q.greedy, x, ys[1..]);
      if !NeedAdvance(q.b, q.back) { StrictParts(x, ys); }
      SimulateTail(p, q, m, max, x, ys[0], regs, regs', st);
      SimulateTails(p, q, m, max, x, ys[1..], FailTo(st), regs, base);
      SameBelowLess(regs, regs', q.d, DepthIn(q));
      DeliverWeaken(p, c', zs, q.endPc, st, regs', q.d, regs, q.d);
      DeliverAppend(p, c', zs, rest, q.endPc, base, st, regs, q.d);
      DeliverAfter(p, c, c', zs + rest, q.endPc, base, regs, q.d);
    }
  }

  lemma DeliversEmpty(p: Prog, c: Cfg, pc: int, base: seq<Frame>, regs: seq<int>, d: nat, pc': int, d': nat)
    requires Delivers(p, c, [], pc, base, regs, d)
    ensures Delivers(p, c, [], pc', base, regs, d')
  {
  }

  lemma DeliversFirst(p: Prog, c: Cfg, ys: seq<Out>, end: int, base: seq<Frame>, regs: seq<int>, d: nat) returns (st: seq<Frame>, regs': seq<int>)
    requires ys != [] && Delivers(p, c, ys, end, base, regs, d)
    ensures Extends(base, st) && SameBelow(regs, regs', d) && Reaches(p, c, At(end, ys[0], regs', st))
    ensures Delivers(p, FailTo(st), ys[1..], end, base, regs, d)
  {
    hide Reaches, FailTo, Extends, SameBelow;
    st, regs' :| Lands(p, c, ys[0], end, base, regs, d, st, regs') && Delivers(p, FailTo(st), ys[1..], end, base, regs, d);
  }

  lemma SameBelowLess(a: seq<int>, b: seq<int>, d: nat, d': nat)
    requires SameBelow(a, b, d') && d <= d'
    ensures SameBelow(a, b, d)
  {
    SameBelowTrans(a, a, b, d, d');
  }

  lemma FollowsParts(e: Env, back: bool, x: Out, ys: seq<Out>)
    requires AllSlotFollow(e, back, x, ys) && ys != []
    ensures SlotFollows(e, back, x, ys[0]) && AllSlotFollow(e, back, x, ys[1..])
  {
  }

  lemma StrictParts(x: Out, ys: seq<Out>)
    requires Strict(x, ys) && ys != []
    ensures ys[0].pos != x.pos && Strict(x, ys[1..])
  {
  }

  lemma TailsUnfold(e: Env, q: Loop, m: nat, max: nat, x: Out, ys: seq<Out>)
    requires x.pos <= |e.input| && 2 * (q.cc + Groups(q.b)) <= |x.slots| && AllSlotFollow(e, q.back, x, ys)
    ensures ys == [] ==> RunRepeatEach(e, q.b, q.cc, q.back, m, max, q.greedy, x, ys) == []
    ensures ys != [] ==>
      SlotFollows(e, q.back, x, ys[0]) && AllSlotFollow(e, q.back, x, ys[1..]) &&
      RunRepeatEach(e, q.b, q.cc, q.back, m, max, q.greedy, x, ys)
      == TailOutcomes(e, q, m, max, x, ys[0]) + RunRepeatEach(e, q.b, q.cc, q.back, m, max, q.greedy, x, ys[1..])
  {
    hide RunMatch, RunRepeat, Groups, Straight;
  }

  lemma TailFacts(p: Prog, q: Loop, m: nat, max: nat, x: Out, y: Out, regs: seq<int>, r: seq<int>)
    requires LoopAt(p, q, m, max, x, regs) && SlotFollows(p.env, q.back, x, y) && SameBelow(regs, r, DepthIn(q))
    requires Adv(q) ==> PosReg(q) < |regs| && regs[PosReg(q)] == x.pos
    ensures TailCode(p.code, q) && !ShapeIs(q).Dropped?
    ensures |y.slots| == 2 * p.captures && y.pos <= |p.env.input| && 2 * (q.cc + Groups(q.b)) <= |y.slots|
    ensures q.d <= |r| && |r| == |regs|
    ensures Adv(q) ==> PosReg(q) < |r| && r[PosReg(q)] == x.pos
    ensures Counting(q) ==> q.d < |r| && r[q.d] == regs[q.d]
    ensures Adv(q) && Counting(q) ==> PosReg(q) == q.d + 1
  {
    hide PassCode, NeedAdvance, TailCode, ValidEnv, ValidNode, RefsBelow, Groups, Depth, Remaining;
    LoopFacts(p, q, m, max, x, regs);
    if Adv(q) { SameBelowAt(regs, r, DepthIn(q), PosReg(q)); }
    if Counting(q) { SameBelowAt(regs, r, DepthIn(q), q.d); }
  }

  /** The registers after the end of a pass: the counter is one lower. */
  function NextRegs(q: Loop, r: seq<int>): seq<int>
    requires Counting(q) ==> q.d < |r|
  {
    if Counting(q) then r[q.d := r[q.d] - 1] else r
  }

  lemma RemainingOnward(e: Env, back: bool, x: Out, y: Out)
    requires x.pos <= |e.input| && SlotFollows(e, back, x, y)
    ensures Remaining(e, back, y.pos) <= Remaining(e, back, x.pos)
    ensures y.pos != x.pos ==> Remaining(e, back, y.pos) < Remaining(e, back, x.pos)
  {
  }

  /** Bookkeeping of a counted loop from one pass to the next. */
  lemma CountStep(q: Loop, m: nat, max: nat, cnt: int)
    requires q.max <= INT32_MAX && Counting(q) && LoopInv(q, m, max, cnt)
    ensures 1 <= cnt < WORD && max != 0
    ensures cnt - 1 > Limit(q) <==> Pred(m) != 0
    ensures m == 0 <==> cnt - 1 < Limit(q)
    ensures cnt != 1 ==> PredMax(max) != 0 && LoopInv(q, Pred(m), PredMax(max), cnt - 1)
    ensures cnt == 1 ==> Pred(m) == 0 && PredMax(max) == 0
  {
    hide NeedAdvance;
  }

  lemma LoopNext(p: Prog, q: Loop, m: nat, max: nat, x: Out, y: Out, regs: seq<int>, r: seq<int>)
    requires LoopAt(p, q, m, max, x, regs) && SlotFollows(p.env, q.back, x, y) && |r| == |regs|
    requires Counting(q) ==> q.d < |r| && r[q.d] == regs[q.d] && r[q.d] != 1
    requires ShapeIs(q).Optional? ==> q.max == INT32_MAX
    ensures LoopAt(p, q, Pred(m), PredMax(max), y, NextRegs(q, r))
  {
    hide PassCode, TailCode, NeedAdvance, ValidEnv, ValidNode, RefsBelow, Groups, Depth, Remaining, Limit;
    RemainingOnward(p.env, q.back, x, y);
    if Counting(q) {
      CountStep(q, m, max, regs[q.d]);
    }
  }

  lemma {:induction false} SimulateTail(p: Prog, q: Loop, m: nat, max: nat, x: Out, y: Out, regs: seq<int>, r: seq<int>, st: seq<Frame>)
    requires LoopAt(p, q, m, max, x, regs) && SlotFollows(p.env, q.back, x, y) && SameBelow(regs, r, DepthIn(q))
    requires !NeedAdvance(q.b, q.back) ==> y.pos != x.pos
    requires Adv(q) ==> PosReg(q) < |regs| && regs[PosReg(q)] == x.pos
    ensures 2 * (q.cc + Groups(q.b)) <= |x.slots| && x.pos <= |p.env.input|
    ensures Delivers(p, At(q.tailPc, y, r, st), TailOutcomes(p.env, q, m, max, x, y), q.endPc, st, r, q.d)
    decreases q.b, 3, m, Remaining(p.env, q.back, x.pos), 0, 1
  {
    hide *;
    LoopFacts(p, q, m, max, x, regs);
    TailFacts(p, q, m, max, x, y, regs, r);
    match ShapeIs(q) {
      case Optional(_) => TailOptional(p, q, m, max, x, y, regs, r, st);
      case PlusLoop => TailPlus(p, q, m, max, x, y, regs, r, st);
      case Exact => TailExact(p, q, m, max, x, y, regs, r, st);
      case CountedOptional => TailCounted(p, q, m, max, x, y, regs, r, st);
      case Counted => TailCounted(p, q, m, max, x, y, regs, r, st);
      case Dropped =>
    }
  }

  lemma OptionalFacts(p: Prog, q: Loop, m: nat, max: nat, x: Out, regs: seq<int>)
    requires LoopAt(p, q, m, max, x, regs) && ShapeIs(q).Optional?
    ensures m == 0 && max == Upper(q.max) && q.max == (if ShapeIs(q).again then INT32_MAX else 1)
    ensures max == if ShapeIs(q).again then INFINITE else 1
    ensures Adv(q) == NeedAdvance(q.b, q.back) && !Counting(q)
    ensures var jump := q.tailPc + AdvSize(Adv(q));
      && Fetch(p.code, q.headPc) == Some(ISplit(q.greedy, q.endPc - q.passPc)) && q.passPc == q.headPc + 5
      && (Adv(q) ==> Fetch(p.code, q.tailPc) == Some(ICheckAdv(PosReg(q))))
      && (ShapeIs(q).again ==> Fetch(p.code, jump) == Some(IGoto(q.headPc - (jump + 5))))
      && (!ShapeIs(q).again ==> q.endPc == jump)
  {
    hide PassCode, NeedAdvance, ValidEnv, ValidNode, RefsBelow, Groups, Depth, Remaining, Fetch;
  }

  lemma TailSkip(e: Env, q: Loop, m: nat, max: nat, x: Out, y: Out)
    requires x.pos <= |e.input| && 2 * (q.cc + Groups(q.b)) <= |x.slots| && SlotFollows(e, q.back, x, y)
    ensures y.pos <= |e.input| && |y.slots| == |x.slots|
    ensures m == 0 && y.pos == x.pos ==> TailOutcomes(e, q, m, max, x, y) == []
    ensures !(m == 0 && y.pos == x.pos) ==>
      TailOutcomes(e, q, m, max, x, y) == RunRepeat(e, q.b, q.cc, q.back, Pred(m), PredMax(max), q.greedy, y)
  {
    hide RunRepeat;
  }

  lemma {:induction false} TailOptional(p: Prog, q: Loop, m: nat, max: nat, x: Out, y: Out, regs: seq<int>, r: seq<int>, st: seq<Frame>)
    requires LoopAt(p, q, m, max, x, regs) && SlotFollows(p.env, q.back, x, y) && SameBelow(regs, r, DepthIn(q))
    requires !NeedAdvance(q.b, q.back) ==> y.pos != x.pos
    requires Adv(q) ==> PosReg(q) < |regs| && regs[PosReg(q)] == x.pos
    requires ShapeIs(q).Optional? && 2 * (q.cc + Groups(q.b)) <= |x.slots| && x.pos <= |p.env.input|
    ensures Delivers(p, At(q.tailPc, y, r, st), TailOutcomes(p.env, q, m, max, x, y), q.endPc, st, r, q.d)
    decreases q.b, 3, m, Remaining(p.env, q.back, x.pos), 0, 0
  {
    hide *;
    TailFacts(p, q, m, max, x, y, regs, r);
    OptionalFacts(p, q, m, max, x, regs);
    TailSkip(p.env, q, m, max, x, y);
    var c := At(q.tailPc, y, r, st);
    var jump := q.tailPc + AdvSize(Adv(q));
    AdvSizes(Adv(q));
    if Adv(q) { RunCheckAdv(p, q.tailPc, PosReg(q), y, r, st); } else { ReachesSelf(p, c); }
    if y.pos == x.pos {
      DeliverNone(p, c, q.endPc, st, r, q.d);
    } else if ShapeIs(q).again {
      PredMaxFacts(max);
      LoopNext(p, q, m, max, x, y, regs, r);
      NextRegsPlain(q, r);
      RemainingOnward(p.env, q.back, x, y);
      RunGoto(p, jump, q.headPc - (jump + 5), y, r, st);
      SimulateOptional(p, q, y, r, st);
      ReachesTrans(p, c, At(jump, y, r, st), At(q.headPc, y, r, st));
      DeliverAfter(p, c, At(q.headPc, y, r, st), TailOutcomes(p.env, q, m, max, x, y), q.endPc, st, r, q.d);
    } else {
      PredMaxFacts(max);
      RepeatUnfold(p.env, q, Pred(m), PredMax(max), y);
      SameBelowSelf(r, q.d);
      DeliverOne(p, c, y, q.endPc, st, r, r, q.d);
    }
  }

  lemma AdvSizes(adv: bool)
    ensures AdvSize(adv) == if adv then 2 else 0
  {
  }

  lemma PredMaxFacts(max: nat)
    ensures PredMax(INFINITE) == INFINITE != 0 && PredMax(1) == 0 && Pred(0) == 0 && Pred(1) == 0
  {
  }

  lemma SameBelowSelf(r: seq<int>, d: nat)
    requires d <= |r|
    ensures SameBelow(r, r, d)
  {
  }

  lemma NextRegsPlain(q: Loop, r: seq<int>)
    requires !Counting(q)
    ensures NextRegs(q, r) == r
  {
  }

  lemma {:induction false} SimulateOptional(p: Prog, q: Loop, x: Out, regs: seq<int>, base: seq<Frame>)
    requires LoopAt(p, q, 0, Upper(q.max), x, regs) && ShapeIs(q).Optional?
    ensures 2 * (q.cc + Groups(q.b)) <= |x.slots| && x.pos <= |p.env.input|
    ensures Delivers(p, At(q.headPc, x, regs, base), RunRepeat(p.env, q.b, q.cc, q.back, 0, Upper(q.max), q.greedy, x), q.endPc, base, regs, q.d)
    decreases q.b, 3, 0, Remaining(p.env, q.back, x.pos), 3, 0
  {
    hide *;
    LoopFacts(p, q, 0, Upper(q.max), x, regs);
    OptionalFacts(p, q, 0, Upper(q.max), x, regs);
    RepeatUnfold(p.env, q, 0, Upper(q.max), x);
    RunSplit(p, q.headPc, q.greedy, q.endPc - q.passPc, x, regs, base);
    SimulateChoice(p, q, 0, Upper(q.max), At(q.headPc, x, regs, base), x, regs, base);
  }

  /** A split between another pass and the end. */
  lemma {:induction false} SimulateChoice(p: Prog, q: Loop, m: nat, max: nat, c: Cfg, x: Out, regs: seq<int>, base: seq<Frame>)
    requires LoopAt(p, q, m, max, x, regs)
    requires Reaches(p, c,
      if q.greedy then At(q.passPc, x, regs, base + [Frame(SplitK, q.endPc, x.pos, x.slots + regs)])
      else At(q.endPc, x, regs, base + [Frame(SplitK, q.passPc, x.pos, x.slots + regs)]))
    ensures 2 * (q.cc + Groups(q.b)) <= |x.slots|
    ensures Delivers(p, c, Choice(q.greedy, PassOutcomes(p.env, q, m, max, x), x), q.endPc, base, regs, q.d)
    decreases q.b, 3, m, Remaining(p.env, q.back, x.pos), 2, 1
  {
    hide *;
    LoopFacts(p, q, m, max, x, regs);
    if q.greedy {
      SimulatePassTail(p, q, m, max, x, regs, base + [Frame(SplitK, q.endPc, x.pos, x.slots + regs)]);
    } else {
      SimulatePassTail(p, q, m, max, x, regs, base);
    }
    DeliverChoice(p, c, x, regs, base, q.passPc, q.endPc, q.greedy, PassOutcomes(p.env, q, m, max, x), q.d);
  }

  lemma PlusFacts(p: Prog, q: Loop, m: nat, max: nat, x: Out, regs: seq<int>)
    requires LoopAt(p, q, m, max, x, regs) && ShapeIs(q).PlusLoop?
    ensures m <= 1 && max == INFINITE && !NeedAdvance(q.b, q.back) && !Counting(q)
    ensures Fetch(p.code, q.tailPc) == Some(ISplit(!q.greedy, q.passPc - (q.tailPc + 5))) && q.endPc == q.tailPc + 5
  {
    hide PassCode, NeedAdvance, ValidEnv, ValidNode, RefsBelow, Groups, Depth, Remaining, Fetch;
  }

  lemma {:induction false} TailPlus(p: Prog, q: Loop, m: nat, max: nat, x: Out, y: Out, regs: seq<int>, r: seq<int>, st: seq<Frame>)
    requires LoopAt(p, q, m, max, x, regs) && SlotFollows(p.env, q.back, x, y) && SameBelow(regs, r, DepthIn(q))
    requires !NeedAdvance(q.b, q.back) ==> y.pos != x.pos
    requires Adv(q) ==> PosReg(q) < |regs| && regs[PosReg(q)] == x.pos
    requires ShapeIs(q).PlusLoop? && 2 * (q.cc + Groups(q.b)) <= |x.slots| && x.pos <= |p.env.input|
    ensures Delivers(p, At(q.tailPc, y, r, st), TailOutcomes(p.env, q, m, max, x, y), q.endPc, st, r, q.d)
    decreases q.b, 3, m, Remaining(p.env, q.back, x.pos), 0, 0
  {
    hide *;
    TailFacts(p, q, m, max, x, y, regs, r);
    PlusFacts(p, q, m, max, x, regs);
    TailSkip(p.env, q, m, max, x, y);
    PredMaxFacts(max);
    LoopNext(p, q, m, max, x, y, regs, r);
    NextRegsPlain(q, r);
    RemainingOnward(p.env, q.back, x, y);
    RepeatUnfold(p.env, q, Pred(m), PredMax(max), y);
    RunSplit(p, q.tailPc, !q.greedy, q.passPc - (q.tailPc + 5), y, r, st);
    SimulateChoice(p, q, Pred(m), PredMax(max), At(q.tailPc, y, r, st), y, r, st);
  }

  lemma ExactFacts(p: Prog, q: Loop, m: nat, max: nat, x: Out, regs: seq<int>)
    requires LoopAt(p, q, m, max, x, regs) && ShapeIs(q).Exact?
    ensures Counting(q) && Limit(q) == 0 && q.max <= INT32_MAX && q.d < |regs|
    ensures LoopInv(q, m, max, regs[q.d])
    ensures Fetch(p.code, q.tailPc) == Some(ILoop(q.d, q.passPc - (q.tailPc + 6))) && q.endPc == q.tailPc + 6
  {
    hide PassCode, NeedAdvance, ValidEnv, ValidNode, RefsBelow, Groups, Remaining, Fetch, Depth;
  }

  /** The last pass of a counted loop: nothing more is allowed. */
  lemma LastPass(e: Env, q: Loop, m: nat, max: nat, x: Out, y: Out)
    requires x.pos <= |e.input| && 2 * (q.cc + Groups(q.b)) <= |x.slots| && SlotFollows(e, q.back, x, y)
    requires !(m == 0 && y.pos == x.pos)
    requires Pred(m) == 0 && PredMax(max) == 0
    ensures TailOutcomes(e, q, m, max, x, y) == [y]
  {
    hide RunRepeat, PassOutcomes, Pred, PredMax, Remaining;
    TailSkip(e, q, m, max, x, y);
    RepeatUnfold(e, q, Pred(m), PredMax(max), y);
  }

  lemma SameBelowNext(q: Loop, r: seq<int>)
    requires Counting(q) && q.d < |r|
    ensures NextRegs(q, r) == r[q.d := r[q.d] - 1] && SameBelow(r, NextRegs(q, r), q.d)
  {
    hide Counting;
  }

  lemma {:induction false} TailExact(p: Prog, q: Loop, m: nat, max: nat, x: Out, y: Out, regs: seq<int>, r: seq<int>, st: seq<Frame>)
    requires LoopAt(p, q, m, max, x, regs) && SlotFollows(p.env, q.back, x, y) && SameBelow(regs, r, DepthIn(q))
    requires !NeedAdvance(q.b, q.back) ==> y.pos != x.pos
    requires Adv(q) ==> PosReg(q) < |regs| && regs[PosReg(q)] == x.pos
    requires ShapeIs(q).Exact? && 2 * (q.cc + Groups(q.b)) <= |x.slots| && x.pos <= |p.env.input|
    ensures Delivers(p, At(q.tailPc, y, r, st), TailOutcomes(p.env, q, m, max, x, y), q.endPc, st, r, q.d)
    decreases q.b, 3, m, Remaining(p.env, q.back, x.pos), 0, 0
  {
    hide *;
    TailFacts(p, q, m, max, x, y, regs, r);
    ExactFacts(p, q, m, max, x, regs);
    TailSkip(p.env, q, m, max, x, y);
    RemainingOnward(p.env, q.back, x, y);
    CountStep(q, m, max, regs[q.d]);
    RunLoop(p, q.tailPc, q.d, q.passPc - (q.tailPc + 6), y, r, st);
    SameBelowNext(q, r);
    var c, r1 := At(q.tailPc, y, r, st), NextRegs(q, r);
    if r[q.d] != 1 {
      LoopNext(p, q, m, max, x, y, regs, r);
      RepeatUnfold(p.env, q, Pred(m), PredMax(max), y);
      PredSmaller(m);
      var more := PassOutcomes(p.env, q, Pred(m), PredMax(max), y);
      SimulatePassTail(p, q, Pred(m), PredMax(max), y, r1, st);
      DeliverWeaken(p, At(q.passPc, y, r1, st), more, q.endPc, st, r1, q.d, r, q.d);
      DeliverAfter(p, c, At(q.passPc, y, r1, st), more, q.endPc, st, r, q.d);
    } else {
      LastPass(p.env, q, m, max, x, y);
      DeliverOne(p, c, y, q.endPc, st, r, r1, q.d);
    }
  }

  lemma PredSmaller(m: nat)
    ensures m != 0 ==> Pred(m) < m
    ensures m == 0 ==> Pred(m) == 0
  {
  }

  lemma CountedFacts(p: Prog, q: Loop, m: nat, max: nat, x: Out, regs: seq<int>)
    requires LoopAt(p, q, m, max, x, regs) && (ShapeIs(q).Counted? || ShapeIs(q).CountedOptional?)
    ensures Counting(q) && q.max <= INT32_MAX && q.d < |regs| && Adv(q) == NeedAdvance(q.b, q.back)
    ensures Adv(q) ==> q.d + 1 < |regs|
    ensures LoopInv(q, m, max, regs[q.d])
    ensures Fetch(p.code, q.tailPc) == Some(ILoopSplit(Adv(q), !q.greedy, q.d, Limit(q), q.passPc - (q.tailPc + 10)))
    ensures q.endPc == q.tailPc + 10
  {
    hide PassCode, NeedAdvance, ValidEnv, ValidNode, RefsBelow, Groups, Remaining, Fetch, Depth, Limit;
  }

  lemma {:induction false} TailCounted(p: Prog, q: Loop, m: nat, max: nat, x: Out, y: Out, regs: seq<int>, r: seq<int>, st: seq<Frame>)
    requires LoopAt(p, q, m, max, x, regs) && SlotFollows(p.env, q.back, x, y) && SameBelow(regs, r, DepthIn(q))
    requires !NeedAdvance(q.b, q.back) ==> y.pos != x.pos
    requires Adv(q) ==> PosReg(q) < |regs| && regs[PosReg(q)] == x.pos
    requires (ShapeIs(q).Counted? || ShapeIs(q).CountedOptional?) && 2 * (q.cc + Groups(q.b)) <= |x.slots| && x.pos <= |p.env.input|
    ensures Delivers(p, At(q.tailPc, y, r, st), TailOutcomes(p.env, q, m, max, x, y), q.endPc, st, r, q.d)
    decreases q.b, 3, m, Remaining(p.env, q.back, x.pos), 0, 0
  {
    hide *;
    TailFacts(p, q, m, max, x, y, regs, r);
    CountedFacts(p, q, m, max, x, regs);
    TailSkip(p.env, q, m, max, x, y);
    RemainingOnward(p.env, q.back, x, y);
    CountStep(q, m, max, regs[q.d]);
    RunLoopSplit(p, q.tailPc, Adv(q), !q.greedy, q.d, Limit(q), q.passPc - (q.tailPc + 10), y, r, st);
    SameBelowNext(q, r);
    PredSmaller(m);
    var c, r1 := At(q.tailPc, y, r, st), NextRegs(q, r);
    var v := r[q.d] - 1;
    LoopSplitUnfold(Adv(q), !q.greedy, Limit(q), q.endPc, q.passPc, y, r1, v, if Adv(q) then r[q.d + 1] else 0, st);
    if v > Limit(q) {
      LoopNext(p, q, m, max, x, y, regs, r);
      RepeatUnfold(p.env, q, Pred(m), PredMax(max), y);
      var more := PassOutcomes(p.env, q, Pred(m), PredMax(max), y);
      SimulatePassTail(p, q, Pred(m), PredMax(max), y, r1, st);
      DeliverWeaken(p, At(q.passPc, y, r1, st), more, q.endPc, st, r1, q.d, r, q.d);
      DeliverAfter(p, c, At(q.passPc, y, r1, st), more, q.endPc, st, r, q.d);
    } else if m == 0 && y.pos == x.pos {
      DeliverNone(p, c, q.endPc, st, r, q.d);
    } else if v == 0 {
      LastPass(p.env, q, m, max, x, y);
      DeliverOne(p, c, y, q.endPc, st, r, r1, q.d);
    } else {
      LoopNext(p, q, m, max, x, y, regs, r);
      RepeatUnfold(p.env, q, Pred(m), PredMax(max), y);
      SimulateChoice(p, q, Pred(m), PredMax(max), c, y, r1, st);
      DeliverWeaken(p, c, TailOutcomes(p.env, q, m, max, x, y), q.endPc, st, r1, q.d, r, q.d);
    }
  }

  lemma LoopSplitUnfold(adv: bool, nextFirst: bool, limit: nat, next: int, target: int, y: Out, regs: seq<int>, v: int, seen: int, st: seq<Frame>)
    ensures LoopSplitTo(adv, nextFirst, limit, next, target, y, regs, v, seen, st) ==
      if v > limit then At(target, y, regs, st)
      else if adv && seen == y.pos && v != limit then FailTo(st)
      else if v == 0 then At(next, y, regs, st)
      else if nextFirst then At(next, y, regs, st + [Frame(SplitK, target, y.pos, y.slots + regs)])
      else At(target, y, regs, st + [Frame(SplitK, next, y.pos, y.slots + regs)])
  {
    hide FailTo, At;
  }

  // ----- entering a quantifier -----

  lemma RunSkipReset(p: Prog, b: Node, min: nat, cc: nat, pc: int, x: Out, regs: seq<int>, base: seq<Frame>)
    requires HasCode(p.code, pc, SkipReset(b, cc, min)) && cc + Groups(b) <= p.captures && |x.slots| == 2 * p.captures
    ensures Reaches(p, At(pc, x, regs, base), At(pc + Size(SkipReset(b, cc, min)), QuantStart(b, cc, min, x), regs, base))
  {
    hide Reaches, Fetch, At, Straight, Groups, ISize, HasCode;
    if min == 0 && !NeedInit(b) && Groups(b) != 0 {
      SmallSizes(true, cc, cc + Groups(b) - 1);
      SizeOne(IReset(cc, cc + Groups(b) - 1));
      HasCodeOne(p.code, pc, IReset(cc, cc + Groups(b) - 1));
      RunReset(p, pc, cc, cc + Groups(b) - 1, x, regs, base);
    } else {
      ReachesSelf(p, At(pc, x, regs, base));
      if min == 0 && !NeedInit(b) { assert ResetSlots(x.slots, 2 * cc, 2 * (cc + 0)) == x.slots; }
    }
  }

  lemma QuantLayout(p: Prog, b: Node, min: nat, max: nat, greedy: bool, cc: nat, back: bool, d: nat, pc: int, x: Out, regs: seq<int>)
    requires Ready(p, Quant(b, min, max, greedy), cc, back, d, pc, x, regs)
    ensures ValidNode(b) && min <= max && cc + Groups(b) <= p.captures
    ensures var start := pc + Size(SkipReset(b, cc, min));
      && HasCode(p.code, pc, SkipReset(b, cc, min))
      && HasCode(p.code, start, LoopCodeAt(p.env, b, cc, back, min, max, greedy, d))
      && EndPc(p, Quant(b, min, max, greedy), cc, back, d, pc) == start + Size(LoopCodeAt(p.env, b, cc, back, min, max, greedy, d))
  {
    hide HasCode, Size, SkipReset, LoopCodeAt, LoopCode, Code, RefsBelow, Depth, ValidEnv;
    QuantCodeUnfold(p.env, b, cc, back, min, max, greedy, d);
    HasCodeSplit(p.code, pc, SkipReset(b, cc, min), LoopCodeAt(p.env, b, cc, back, min, max, greedy, d));
    BytesConcat(SkipReset(b, cc, min), LoopCodeAt(p.env, b, cc, back, min, max, greedy, d));
  }

  lemma FirstPass(p: Prog, b: Node, min: nat, max: nat, greedy: bool, cc: nat, back: bool, d: nat, pc: int, x: Out, regs: seq<int>, start: int, x0: Out)
    requires Ready(p, Quant(b, min, max, greedy), cc, back, d, pc, x, regs)
    requires max != 0 && ValidNode(b) && min <= max && LaidOut(p, b, cc, back, min, max, greedy, d, start)
    requires x0.pos == x.pos && |x0.slots| == |x.slots|
    ensures var q := LoopOf(p.env, b, cc, back, min, max, greedy, d, start);
      && (Counting(q) ==> d < |regs|)
      && LoopAt(p, q, min, MachineMax(b, back, min, max), x0, if Counting(q) then regs[d := max] else regs)
  {
    hide PassCode, TailCode, NeedAdvance, ValidEnv, Groups, Size, Fetch, HasCode, Code, AtomCode, LoopCodeAt, LoopCode, LoopOf, LoopInv, Depth, Held, Counting, Remaining;
    DepthQuant(b, min, max, greedy, back);
    GroupsQuant(b, min, max, greedy);
    var q := LoopOf(p.env, b, cc, back, min, max, greedy, d, start);
    LaidOutStart(p, b, cc, back, min, max, greedy, d, start);
    FirstInv(q);
    HeldCounter(q);
  }

  lemma HeldCounter(q: Loop)
    ensures Counting(q) ==> Held(q.b, q.back, q.min, q.max) >= 1
  {
    hide NeedAdvance;
  }

  /** The loop invariant holds when the counter has just been set. */
  lemma FirstInv(q: Loop)
    requires q.min <= q.max <= INT32_MAX && q.max != 0
    ensures LoopInv(q, q.min, BoundOf(q), if Counting(q) then q.max else 0)
  {
    hide NeedAdvance;
  }

  lemma DepthQuant(b: Node, min: nat, max: nat, greedy: bool, back: bool)
    ensures max != 0 ==> Depth(Quant(b, min, max, greedy), back) == Held(b, back, min, max) + Depth(b, back)
  {
    hide Held;
  }

  lemma {:induction false} SimulateQuant(p: Prog, b: Node, min: nat, max: nat, greedy: bool, cc: nat, back: bool, d: nat, pc: int, x: Out, regs: seq<int>, base: seq<Frame>)
    requires Ready(p, Quant(b, min, max, greedy), cc, back, d, pc, x, regs)
    ensures Delivers(p, At(pc, x, regs, base), RunMatch(p.env, Quant(b, min, max, greedy), cc, back, x), EndPc(p, Quant(b, min, max, greedy), cc, back, d, pc), base, regs, d)
    decreases Quant(b, min, max, greedy), 0, 0, 0, 0, 0
  {
    hide *;
    var n := Quant(b, min, max, greedy);
    ReadyFacts(p, n, cc, back, d, pc, x, regs);
    GroupsQuant(b, min, max, greedy);
    QuantLayout(p, b, min, max, greedy, cc, back, d, pc, x, regs);
    QuantUnfold(p.env, b, min, max, greedy, cc, back, x);
    RunSkipReset(p, b, min, cc, pc, x, regs, base);
    var start := pc + Size(SkipReset(b, cc, min));
    var x0 := QuantStart(b, cc, min, x);
    var end := EndPc(p, n, cc, back, d, pc);
    BoundFacts(b, back, min, max);
    if max == 0 {
      DroppedCode(p.env, b, cc, back, min, greedy, d, x0);
      SameBelowSelf(regs, d);
      DeliverOne(p, At(pc, x, regs, base), x0, end, base, regs, regs, d);
    } else {
      LoopCodeLayout(p, b, cc, back, min, max, greedy, d, start);
      FirstPass(p, b, min, max, greedy, cc, back, d, pc, x, regs, start, x0);
      var q := LoopOf(p.env, b, cc, back, min, max, greedy, d, start);
      LaidOutStart(p, b, cc, back, min, max, greedy, d, start);
      SimulateLoop(p, q, start, x0, regs, base);
      DeliverAfter(p, At(pc, x, regs, base), At(start, x0, regs, base), RunRepeat(p.env, b, cc, back, min, MachineMax(b, back, min, max), greedy, x0), end, base, regs, d);
    }
  }

  lemma GroupsQuant(b: Node, min: nat, max: nat, greedy: bool)
    ensures Groups(Quant(b, min, max, greedy)) == Groups(b)
  {
  }

  lemma DroppedCode(e: Env, b: Node, cc: nat, back: bool, min: nat, greedy: bool, d: nat, x: Out)
    requires ValidNode(b) && min <= 0 && x.pos <= |e.input| && 2 * (cc + Groups(b)) <= |x.slots|
    ensures Size(LoopCodeAt(e, b, cc, back, min, 0, greedy, d)) == 0
    ensures RunRepeat(e, b, cc, back, min, 0, greedy, x) == [x]
  {
    hide Code, NeedAdvance;
  }

  /** Code between the start of the quantifier and its first pass. */
  predicate StartCode(p: Prog, q: Loop, start: int) {
    match ShapeIs(q)
    case Dropped => false
    case Optional(_) => start == q.headPc
    case PlusLoop => start == q.passPc
    case CountedOptional =>
      && Fetch(p.code, start) == Some(ISplit(q.greedy, q.endPc - (start + 5)))
      && Fetch(p.code, start + 5) == Some(ISetI32(q.d, q.max)) && q.passPc == start + 11
    case _ => Fetch(p.code, start) == Some(ISetI32(q.d, q.max)) && q.passPc == start + 6
  }

  lemma LaidOutStart(p: Prog, b: Node, cc: nat, back: bool, min: nat, max: nat, greedy: bool, d: nat, start: int)
    requires ValidNode(b) && min <= max && max != 0 && LaidOut(p, b, cc, back, min, max, greedy, d, start)
    ensures var q := LoopOf(p.env, b, cc, back, min, max, greedy, d, start);
      && StartCode(p, q, start)
      && q.endPc == start + Size(LoopCodeAt(p.env, b, cc, back, min, max, greedy, d))
      && q.b == b && q.cc == cc && q.back == back && q.min == min && q.max == max && q.greedy == greedy && q.d == d
  {
    hide PassCode, TailCode, NeedAdvance, Size, Fetch, HasCode, Code, AtomCode, LoopCodeAt, LoopCode, ValidNode;
  }

  lemma ShapeFacts(q: Loop)
    ensures ShapeIs(q).Optional? ==> q.min == 0 && !Counting(q) && BoundOf(q) == Upper(q.max)
    ensures ShapeIs(q).PlusLoop? ==> q.min == 1 && !Counting(q)
    ensures ShapeIs(q).CountedOptional? ==> q.min == 0 && Counting(q)
    ensures ShapeIs(q).Exact? || ShapeIs(q).Counted? ==> q.min != 0 && Counting(q)
  {
    hide NeedAdvance;
  }

  lemma {:induction false} SimulateLoop(p: Prog, q: Loop, start: int, x: Out, regs: seq<int>, base: seq<Frame>)
    requires StartCode(p, q, start) && (Counting(q) ==> q.d < |regs|)
    requires LoopAt(p, q, q.min, BoundOf(q), x, if Counting(q) then regs[q.d := q.max] else regs)
    ensures 2 * (q.cc + Groups(q.b)) <= |x.slots| && x.pos <= |p.env.input|
    ensures Delivers(p, At(start, x, regs, base), RunRepeat(p.env, q.b, q.cc, q.back, q.min, BoundOf(q), q.greedy, x), q.endPc, base, regs, q.d)
    decreases q.b, 4, 0, 0, 0, 0
  {
    hide *;
    var regs1 := if Counting(q) then regs[q.d := q.max] else regs;
    LoopFacts(p, q, q.min, BoundOf(q), x, regs1);
    ShapeFacts(q);
    RepeatUnfold(p.env, q, q.min, BoundOf(q), x);
    StartUnfold(p, q, start);
    match ShapeIs(q) {
      case Optional(_) => SimulateOptional(p, q, x, regs, base);
      case PlusLoop => SimulatePassTail(p, q, q.min, BoundOf(q), x, regs, base);
      case CountedOptional => SimulateCountedOptional(p, q, start, x, regs, base);
      case Exact => SimulateCounter(p, q, start, x, regs, base);
      case Counted => SimulateCounter(p, q, start, x, regs, base);
      case Dropped =>
    }
  }

  lemma StartUnfold(p: Prog, q: Loop, start: int)
    requires StartCode(p, q, start)
    ensures !ShapeIs(q).Dropped?
    ensures ShapeIs(q).Optional? ==> start == q.headPc
    ensures ShapeIs(q).PlusLoop? ==> start == q.passPc
    ensures ShapeIs(q).CountedOptional? ==>
      && Fetch(p.code, start) == Some(ISplit(q.greedy, q.endPc - (start + 5)))
      && Fetch(p.code, start + 5) == Some(ISetI32(q.d, q.max)) && q.passPc == start + 11
    ensures ShapeIs(q).Exact? || ShapeIs(q).Counted? ==>
      Fetch(p.code, start) == Some(ISetI32(q.d, q.max)) && q.passPc == start + 6
  {
    hide Fetch, ShapeOf, NeedAdvance;
  }

  /** Set the counter, then the passes. */
  lemma {:induction false} SimulateCounter(p: Prog, q: Loop, pc: int, x: Out, regs: seq<int>, base: seq<Frame>)
    requires Counting(q) && q.d < |regs| && LoopAt(p, q, q.min, BoundOf(q), x, regs[q.d := q.max])
    requires Fetch(p.code, pc) == Some(ISetI32(q.d, q.max)) && q.passPc == pc + 6
    ensures 2 * (q.cc + Groups(q.b)) <= |x.slots| && x.pos <= |p.env.input|
    ensures Delivers(p, At(pc, x, regs, base), PassOutcomes(p.env, q, q.min, BoundOf(q), x), q.endPc, base, regs, q.d)
    decreases q.b, 3, q.min, if x.pos <= |p.env.input| then Remaining(p.env, q.back, x.pos) else 0, 4, 0
  {
    hide *;
    var regs1 := regs[q.d := q.max];
    LoopFacts(p, q, q.min, BoundOf(q), x, regs1);
    RunSetI32(p, pc, q.d, q.max, x, regs, base);
    SameBelowUpdate(regs, q.d, q.d, q.max);
    var more := PassOutcomes(p.env, q, q.min, BoundOf(q), x);
    SimulatePassTail(p, q, q.min, BoundOf(q), x, regs1, base);
    DeliverWeaken(p, At(q.passPc, x, regs1, base), more, q.endPc, base, regs1, q.d, regs, q.d);
    DeliverAfter(p, At(pc, x, regs, base), At(q.passPc, x, regs1, base), more, q.endPc, base, regs, q.d);
  }

  lemma {:induction false} SimulateCountedOptional(p: Prog, q: Loop, start: int, x: Out, regs: seq<int>, base: seq<Frame>)
    requires Counting(q) && q.d < |regs| && LoopAt(p, q, q.min, BoundOf(q), x, regs[q.d := q.max])
    requires Fetch(p.code, start) == Some(ISplit(q.greedy, q.endPc - (start + 5)))
    requires Fetch(p.code, start + 5) == Some(ISetI32(q.d, q.max)) && q.passPc == start + 11
    ensures 2 * (q.cc + Groups(q.b)) <= |x.slots| && x.pos <= |p.env.input|
    ensures Delivers(p, At(start, x, regs, base), Choice(q.greedy, PassOutcomes(p.env, q, q.min, BoundOf(q), x), x), q.endPc, base, regs, q.d)
    decreases q.b, 3, q.min, if x.pos <= |p.env.input| then Remaining(p.env, q.back, x.pos) else 0, 5, 0
  {
    hide *;
    LoopFacts(p, q, q.min, BoundOf(q), x, regs[q.d := q.max]);
    var off := q.endPc - (start + 5);
    RunSplit(p, start, q.greedy, off, x, regs, base);
    if q.greedy {
      SimulateCounter(p, q, start + 5, x, regs, base + [Frame(SplitK, q.endPc, x.pos, x.slots + regs)]);
    } else {
      SimulateCounter(p, q, start + 5, x, regs, base);
    }
    DeliverChoice(p, At(start, x, regs, base), x, regs, base, start + 5, q.endPc, q.greedy, PassOutcomes(p.env, q, q.min, BoundOf(q), x), q.d);
  }
}
