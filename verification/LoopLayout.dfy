/** Where the parts of a compiled quantifier sit, and what is true of its registers each time a
  * pass over the atom starts. */
module LoopLayout {
  import opened Wrappers
  import opened RegexSyntax
  import opened Bytecode
  import opened Emit
  import opened SlotMatcher
  import opened SnapshotVm

  /** A quantifier in the code: `headPc` its split (if it can be skipped), `passPc` the start of a
    * pass, `tailPc` the end of the atom, `endPc` the end of it all. */
  datatype Loop = Loop(b: Node, cc: nat, back: bool, min: nat, max: nat, greedy: bool, d: nat,
                       headPc: int, passPc: int, tailPc: int, endPc: int)

  predicate Adv(q: Loop) { UsesAdvance(q.b, q.back, q.min, q.max) }
  function ShapeIs(q: Loop): Shape { ShapeOf(q.min, q.max, NeedAdvance(q.b, q.back)) }
  predicate Counting(q: Loop) { CountsDown(q.b, q.back, q.min, q.max) }
  function BoundOf(q: Loop): nat { MachineMax(q.b, q.back, q.min, q.max) }
  function PosReg(q: Loop): nat { if Counting(q) then q.d + 1 else q.d }
  function DepthIn(q: Loop): nat { q.d + Held(q.b, q.back, q.min, q.max) }

  /** Passes are forced while the counter exceeds this. */
  function Limit(q: Loop): nat {
    match ShapeIs(q)
    case CountedOptional => q.max
    case Counted => if q.min <= q.max then q.max - q.min else 0
    case _ => 0
  }

  function AtomPc(q: Loop): int { q.passPc + AdvSize(Adv(q)) }

  function AtomOf(e: Env, q: Loop): seq<Instr>
    requires ValidNode(q.b)
  {
    AtomCode(q.b, q.cc, Code(e, q.b, q.cc, q.back, true, DepthIn(q)))
  }

  predicate TailCode(code: seq<byte>, q: Loop) {
    match ShapeIs(q)
    case Dropped => false
    case Optional(again) =>
      var jump := q.tailPc + AdvSize(Adv(q));
      && Fetch(code, q.headPc) == Some(ISplit(q.greedy, q.endPc - q.passPc)) && q.passPc == q.headPc + 5
      && (Adv(q) ==> Fetch(code, q.tailPc) == Some(ICheckAdv(PosReg(q))))
      && (again ==> Fetch(code, jump) == Some(IGoto(q.headPc - (jump + 5))))
      && q.endPc == jump + (if again then 5 else 0)
    case PlusLoop =>
      Fetch(code, q.tailPc) == Some(ISplit(!q.greedy, q.passPc - (q.tailPc + 5))) && q.endPc == q.tailPc + 5
    case Exact =>
      Fetch(code, q.tailPc) == Some(ILoop(q.d, q.passPc - (q.tailPc + 6))) && q.endPc == q.tailPc + 6
    case _ =>
      && Fetch(code, q.tailPc) == Some(ILoopSplit(Adv(q), !q.greedy, q.d, Limit(q), q.passPc - (q.tailPc + 10)))
      && q.endPc == q.tailPc + 10
  }

  predicate PassCode(p: Prog, q: Loop)
    requires ValidNode(q.b)
  {
    && HasCode(p.code, q.passPc, SetPosCode(Adv(q), PosReg(q)))
    && HasCode(p.code, AtomPc(q), AtomOf(p.env, q))
    && q.tailPc == AtomPc(q) + Size(AtomOf(p.env, q))
  }

  /** The counter `cnt`, the passes still forced `m` and still allowed `max` agree. */
  predicate LoopInv(q: Loop, m: nat, max: nat, cnt: int) {
    match ShapeIs(q)
    case Dropped => false
    case Optional(_) => m == 0 && max == Upper(q.max)
    case PlusLoop => m <= 1 && max == INFINITE
    case _ =>
      && 1 <= cnt <= q.max && m == (if cnt > Limit(q) then cnt - Limit(q) else 0)
      && max == cnt
  }

  // ----- layouts of the emitted shapes -----

  lemma Sizes(adv: bool, r: nat, v: nat, lim: nat, off: int, flag: bool)
    ensures ISize(ISetI32(r, v)) == 6 && ISize(ILoop(r, off)) == 6 && ISize(ILoopSplit(adv, flag, r, lim, off)) == 10
    ensures ISize(ISplit(flag, off)) == 5 && ISize(IGoto(off)) == 5
    ensures ISize(ISetPos(r)) == 2 && ISize(ICheckAdv(r)) == 2 && ISize(IReset(r, v)) == 3
  {
  }

  lemma OptCodeSizes(adv: bool, r: nat)
    ensures Size(SetPosCode(adv, r)) == AdvSize(adv) && Size(CheckAdvCode(adv, r)) == AdvSize(adv)
  {
    Sizes(adv, r, 0, 0, 0, true);
    hide ISize;
    SizeOne(ISetPos(r));
    SizeOne(ICheckAdv(r));
  }

  lemma Layout3(b: seq<byte>, pc: int, x: seq<Instr>, y: seq<Instr>, z: seq<Instr>)
    requires HasCode(b, pc, x + y + z)
    ensures HasCode(b, pc, x) && HasCode(b, pc + Size(x), y) && HasCode(b, pc + Size(x) + Size(y), z)
    ensures Size(x + y + z) == Size(x) + Size(y) + Size(z)
  {
    hide HasCode, Size;
    HasCodeSplit(b, pc, x + y, z);
    HasCodeSplit(b, pc, x, y);
    BytesConcat(x + y, z);
    BytesConcat(x, y);
  }

  lemma OptionalLayout(b: seq<byte>, pc: int, adv: bool, again: bool, greedy: bool, atom: seq<Instr>, r: nat)
    requires HasCode(b, pc, OptionalCode(adv, again, greedy, atom, r))
    ensures var body := pc + 5 + AdvSize(adv);
      var tail := body + Size(atom);
      var jump := tail + AdvSize(adv);
      var end := jump + (if again then 5 else 0);
      && Fetch(b, pc) == Some(ISplit(greedy, end - (pc + 5)))
      && HasCode(b, pc + 5, SetPosCode(adv, r)) && HasCode(b, body, atom)
      && (adv ==> Fetch(b, tail) == Some(ICheckAdv(r)))
      && (again ==> Fetch(b, jump) == Some(IGoto(pc - (jump + 5))))
      && pc + Size(OptionalCode(adv, again, greedy, atom, r)) == end
  {
    hide *;
    var i := ISplit(greedy, Size(atom) + (if again then 5 else 0) + 2 * AdvSize(adv));
    var g := IGoto(-(Size(atom) + 2 * AdvSize(adv) + 10));
    var mark, check, back := SetPosCode(adv, r), CheckAdvCode(adv, r), if again then [g] else [];
    Sizes(adv, r, 0, 0, i.off, greedy);
    Sizes(adv, r, 0, 0, g.off, greedy);
    OptCodeSizes(adv, r);
    OptionalUnfold(adv, again, greedy, atom, r);
    Layout3(b, pc, [i], mark + atom + check, back);
    SizeOne(i);
    HasCodeOne(b, pc, i);
    Layout3(b, pc + 5, mark, atom, check);
    CheckAdvFetch(b, pc + 5 + AdvSize(adv) + Size(atom), adv, r);
    if again {
      HasCodeOne(b, pc + 5 + Size(mark + atom + check), g);
      SizeOne(g);
    } else {
      EmptySize();
    }
  }

  lemma OptionalUnfold(adv: bool, again: bool, greedy: bool, atom: seq<Instr>, r: nat)
    ensures OptionalCode(adv, again, greedy, atom, r) ==
      [ISplit(greedy, Size(atom) + (if again then 5 else 0) + 2 * AdvSize(adv))]
      + (SetPosCode(adv, r) + atom + CheckAdvCode(adv, r))
      + (if again then [IGoto(-(Size(atom) + 2 * AdvSize(adv) + 10))] else [])
  {
    hide Size, AdvSize, SetPosCode, CheckAdvCode;
  }

  lemma CheckAdvFetch(b: seq<byte>, pc: int, adv: bool, r: nat)
    requires HasCode(b, pc, CheckAdvCode(adv, r))
    ensures adv ==> Fetch(b, pc) == Some(ICheckAdv(r))
  {
    hide Fetch, HasCode;
    if adv { HasCodeOne(b, pc, ICheckAdv(r)); }
  }

  lemma EmptySize()
    ensures Size([]) == 0
  {
  }

  lemma CountedLayout(b: seq<byte>, pc: int, adv: bool, max: nat, limit: nat, greedy: bool, atom: seq<Instr>, r: nat, rp: nat)
    requires HasCode(b, pc, CountedCode(adv, max, limit, greedy, atom, r, rp))
    ensures var body := pc + 6 + AdvSize(adv);
      var tail := body + Size(atom);
      && Fetch(b, pc) == Some(ISetI32(r, max))
      && HasCode(b, pc + 6, SetPosCode(adv, rp)) && HasCode(b, body, atom)
      && Fetch(b, tail) == Some(ILoopSplit(adv, !greedy, r, limit, pc + 6 - (tail + 10)))
    ensures Size(CountedCode(adv, max, limit, greedy, atom, r, rp)) == 6 + AdvSize(adv) + Size(atom) + 10
  {
    hide *;
    var s := ISetI32(r, max);
    var l := ILoopSplit(adv, !greedy, r, limit, -(AdvSize(adv) + Size(atom) + 10));
    var mark := SetPosCode(adv, rp);
    Sizes(adv, r, max, limit, l.off, !greedy);
    OptCodeSizes(adv, rp);
    CountedUnfold(adv, max, limit, greedy, atom, r, rp);
    Layout3(b, pc, [s], mark + atom, [l]);
    SizeOne(s);
    SizeOne(l);
    HasCodeOne(b, pc, s);
    HasCodeSplit(b, pc + 6, mark, atom);
    BytesConcat(mark, atom);
    HasCodeOne(b, pc + 6 + Size(mark + atom), l);
  }

  lemma CountedUnfold(adv: bool, max: nat, limit: nat, greedy: bool, atom: seq<Instr>, r: nat, rp: nat)
    ensures CountedCode(adv, max, limit, greedy, atom, r, rp) ==
      [ISetI32(r, max)] + (SetPosCode(adv, rp) + atom) + [ILoopSplit(adv, !greedy, r, limit, -(AdvSize(adv) + Size(atom) + 10))]
  {
    hide Size, AdvSize, SetPosCode;
  }

  lemma ExactLayout(b: seq<byte>, pc: int, max: nat, atom: seq<Instr>, r: nat)
    requires HasCode(b, pc, [ISetI32(r, max)] + atom + [ILoop(r, -(Size(atom) + 6))])
    ensures Fetch(b, pc) == Some(ISetI32(r, max)) && HasCode(b, pc + 6, atom)
    ensures Fetch(b, pc + 6 + Size(atom)) == Some(ILoop(r, -(Size(atom) + 6)))
    ensures Size([ISetI32(r, max)] + atom + [ILoop(r, -(Size(atom) + 6))]) == 6 + Size(atom) + 6
  {
    hide *;
    var s, l := ISetI32(r, max), ILoop(r, -(Size(atom) + 6));
    Sizes(true, r, max, 0, l.off, true);
    Layout3(b, pc, [s], atom, [l]);
    SizeOne(s);
    SizeOne(l);
    HasCodeOne(b, pc, s);
    HasCodeOne(b, pc + 6 + Size(atom), l);
  }

  lemma PlusLayout(b: seq<byte>, pc: int, atom: seq<Instr>, nextFirst: bool)
    requires HasCode(b, pc, atom + [ISplit(nextFirst, -(Size(atom) + 5))])
    ensures HasCode(b, pc, atom) && Fetch(b, pc + Size(atom)) == Some(ISplit(nextFirst, -(Size(atom) + 5)))
    ensures Size(atom + [ISplit(nextFirst, -(Size(atom) + 5))]) == Size(atom) + 5
  {
    hide *;
    var i := ISplit(nextFirst, -(Size(atom) + 5));
    Sizes(true, 0, 0, 0, i.off, nextFirst);
    HasCodeSplit(b, pc, atom, [i]);
    BytesConcat(atom, [i]);
    SizeOne(i);
    HasCodeOne(b, pc + Size(atom), i);
  }

  lemma CountedOptionalLayout(b: seq<byte>, pc: int, adv: bool, max: nat, greedy: bool, atom: seq<Instr>, r: nat, rp: nat)
    requires HasCode(b, pc, CountedOptionalCode(adv, max, greedy, atom, r, rp))
    ensures var size := 6 + AdvSize(adv) + Size(atom) + 10;
      && Fetch(b, pc) == Some(ISplit(greedy, size))
      && HasCode(b, pc + 5, CountedCode(adv, max, max, greedy, atom, r, rp))
      && Size(CountedCode(adv, max, max, greedy, atom, r, rp)) == size
      && Size(CountedOptionalCode(adv, max, greedy, atom, r, rp)) == 5 + size
  {
    hide *;
    var i := ISplit(greedy, 6 + AdvSize(adv) + Size(atom) + 10);
    var rest := CountedCode(adv, max, max, greedy, atom, r, rp);
    CountedOptionalUnfold(adv, max, greedy, atom, r, rp);
    Sizes(adv, r, 0, 0, i.off, greedy);
    HasCodeHead(b, pc, i, rest);
    CountedLayout(b, pc + 5, adv, max, max, greedy, atom, r, rp);
  }

  lemma CountedOptionalUnfold(adv: bool, max: nat, greedy: bool, atom: seq<Instr>, r: nat, rp: nat)
    ensures CountedOptionalCode(adv, max, greedy, atom, r, rp) ==
      [ISplit(greedy, 6 + AdvSize(adv) + Size(atom) + 10)] + CountedCode(adv, max, max, greedy, atom, r, rp)
  {
    hide CountedCode, Size, AdvSize;
  }

  // ----- the whole quantifier -----

  /** The loop record of a quantifier whose code, after any initial reset, starts at `start`. */
  function LoopOf(e: Env, b: Node, cc: nat, back: bool, min: nat, max: nat, greedy: bool, d: nat, start: int): Loop
    requires ValidNode(b)
  {
    var s := ShapeOf(min, max, NeedAdvance(b, back));
    var adv := UsesAdvance(b, back, min, max);
    var size := Size(AtomCode(b, cc, Code(e, b, cc, back, true, d + Held(b, back, min, max))));
    var pass := match s
      case Optional(_) => start + 5
      case CountedOptional => start + 11
      case PlusLoop => start
      case _ => start + 6;
    var tail := pass + AdvSize(adv) + size;
    var end := match s
      case Optional(again) => tail + AdvSize(adv) + (if again then 5 else 0)
      case PlusLoop => tail + 5
      case Exact => tail + 6
      case _ => tail + 10;
    Loop(b, cc, back, min, max, greedy, d, start, pass, tail, end)
  }

  /** The loop of a quantifier met with `d` registers in use, without the captures cleared in front of it. */
  function LoopCodeAt(e: Env, b: Node, cc: nat, back: bool, min: nat, max: nat, greedy: bool, d: nat): seq<Instr>
    requires ValidNode(b) && min <= max
  {
    LoopCode(b, cc, back, min, max, greedy, Code(e, b, cc, back, true, d + Held(b, back, min, max)), d, 1)
  }

  lemma QuantCodeUnfold(e: Env, b: Node, cc: nat, back: bool, min: nat, max: nat, greedy: bool, d: nat)
    requires ValidNode(Quant(b, min, max, greedy))
    ensures ValidNode(b) && min <= max
    ensures Code(e, Quant(b, min, max, greedy), cc, back, true, d) == SkipReset(b, cc, min) + LoopCodeAt(e, b, cc, back, min, max, greedy, d)
  {
    hide Held, LoopCode, SkipReset;
    QuantCodeIs(e, b, min, max, greedy, cc, back, true, d);
  }

  /** The parts of the quantifier are where its loop record says. */
  predicate LaidOut(p: Prog, b: Node, cc: nat, back: bool, min: nat, max: nat, greedy: bool, d: nat, start: int)
    requires ValidNode(b) && min <= max
  {
    var q := LoopOf(p.env, b, cc, back, min, max, greedy, d, start);
    && PassCode(p, q) && TailCode(p.code, q)
    && q.endPc == start + Size(LoopCodeAt(p.env, b, cc, back, min, max, greedy, d))
    && (ShapeIs(q).Exact? || ShapeIs(q).Counted? ==> Fetch(p.code, start) == Some(ISetI32(d, max)))
    && (ShapeIs(q).CountedOptional? ==>
         Fetch(p.code, start) == Some(ISplit(greedy, q.endPc - (start + 5)))
         && Fetch(p.code, start + 5) == Some(ISetI32(d, max)))
  }

  lemma LoopOfOptional(p: Prog, b: Node, cc: nat, back: bool, min: nat, max: nat, greedy: bool, d: nat, start: int)
    requires ValidNode(b) && min <= max && max != 0 && ShapeOf(min, max, NeedAdvance(b, back)).Optional?
    ensures var q := LoopOf(p.env, b, cc, back, min, max, greedy, d, start);
      var adv := UsesAdvance(b, back, min, max);
      var atom := AtomCode(b, cc, Code(p.env, b, cc, back, true, d + Held(b, back, min, max)));
      var again := max == INT32_MAX;
      && ShapeIs(q) == Optional(again) && Adv(q) == adv && PosReg(q) == d && q.greedy == greedy
      && q.headPc == start && q.passPc == start + 5 && q.tailPc == q.passPc + AdvSize(adv) + Size(atom)
      && q.endPc == q.tailPc + AdvSize(adv) + (if again then 5 else 0)
      && ValidNode(q.b) && AtomOf(p.env, q) == atom && AtomPc(q) == q.passPc + AdvSize(adv)
      && LoopCodeAt(p.env, b, cc, back, min, max, greedy, d) == OptionalCode(adv, again, greedy, atom, d)
  {
    hide Size, AtomCode, Code, NeedAdvance, OptionalCode, ValidNode, AdvSize;
  }

  lemma LayOptional(p: Prog, b: Node, cc: nat, back: bool, min: nat, max: nat, greedy: bool, d: nat, start: int)
    requires ValidNode(b) && min <= max && max != 0 && ShapeOf(min, max, NeedAdvance(b, back)).Optional?
    requires HasCode(p.code, start, LoopCodeAt(p.env, b, cc, back, min, max, greedy, d))
    ensures LaidOut(p, b, cc, back, min, max, greedy, d, start)
  {
    hide HasCode, Fetch, Size, AtomCode, Code, NeedAdvance, OptionalCode, ValidNode, AdvSize, SetPosCode, LoopOf, LoopCodeAt, LoopCode, ShapeIs, Adv, PosReg, AtomOf, AtomPc, UsesAdvance, Held;
    LoopOfOptional(p, b, cc, back, min, max, greedy, d, start);
    var atom := AtomCode(b, cc, Code(p.env, b, cc, back, true, d + Held(b, back, min, max)));
    OptionalLayout(p.code, start, UsesAdvance(b, back, min, max), max == INT32_MAX, greedy, atom, d);
  }

  lemma LayCountedOptional(p: Prog, b: Node, cc: nat, back: bool, min: nat, max: nat, greedy: bool, d: nat, start: int)
    requires ValidNode(b) && min <= max && max != 0 && ShapeOf(min, max, NeedAdvance(b, back)).CountedOptional?
    requires HasCode(p.code, start, LoopCodeAt(p.env, b, cc, back, min, max, greedy, d))
    ensures LaidOut(p, b, cc, back, min, max, greedy, d, start)
  {
    hide HasCode, Fetch, Size, AtomCode, Code, NeedAdvance, CountedCode, OptionalCode, CountedOptionalCode, ValidNode;
    var adv := UsesAdvance(b, back, min, max);
    var atom := AtomCode(b, cc, Code(p.env, b, cc, back, true, d + Held(b, back, min, max)));
    CountedOptionalLayout(p.code, start, adv, max, greedy, atom, d, d + 1);
    CountedLayout(p.code, start + 5, adv, max, max, greedy, atom, d, d + 1);
  }

  lemma LayPlus(p: Prog, b: Node, cc: nat, back: bool, min: nat, max: nat, greedy: bool, d: nat, start: int)
    requires ValidNode(b) && min <= max && max != 0 && ShapeOf(min, max, NeedAdvance(b, back)).PlusLoop?
    requires HasCode(p.code, start, LoopCodeAt(p.env, b, cc, back, min, max, greedy, d))
    ensures LaidOut(p, b, cc, back, min, max, greedy, d, start)
  {
    hide HasCode, Fetch, Size, AtomCode, Code, NeedAdvance, CountedCode, OptionalCode, CountedOptionalCode, ValidNode;
    var adv := UsesAdvance(b, back, min, max);
    var atom := AtomCode(b, cc, Code(p.env, b, cc, back, true, d + Held(b, back, min, max)));
    PlusLayout(p.code, start, atom, !greedy);
    EmptyCode(p.code, start);
  }

  lemma LayExact(p: Prog, b: Node, cc: nat, back: bool, min: nat, max: nat, greedy: bool, d: nat, start: int)
    requires ValidNode(b) && min <= max && max != 0 && ShapeOf(min, max, NeedAdvance(b, back)).Exact?
    requires HasCode(p.code, start, LoopCodeAt(p.env, b, cc, back, min, max, greedy, d))
    ensures LaidOut(p, b, cc, back, min, max, greedy, d, start)
  {
    hide HasCode, Fetch, Size, AtomCode, Code, NeedAdvance, CountedCode, OptionalCode, CountedOptionalCode, ValidNode;
    var adv := UsesAdvance(b, back, min, max);
    var atom := AtomCode(b, cc, Code(p.env, b, cc, back, true, d + Held(b, back, min, max)));
    ExactLayout(p.code, start, max, atom, d);
    EmptyCode(p.code, start + 6);
  }

  lemma LayCounted(p: Prog, b: Node, cc: nat, back: bool, min: nat, max: nat, greedy: bool, d: nat, start: int)
    requires ValidNode(b) && min <= max && max != 0 && ShapeOf(min, max, NeedAdvance(b, back)).Counted?
    requires HasCode(p.code, start, LoopCodeAt(p.env, b, cc, back, min, max, greedy, d))
    ensures LaidOut(p, b, cc, back, min, max, greedy, d, start)
  {
    hide HasCode, Fetch, Size, AtomCode, Code, NeedAdvance, CountedCode, OptionalCode, CountedOptionalCode, ValidNode;
    var adv := UsesAdvance(b, back, min, max);
    var atom := AtomCode(b, cc, Code(p.env, b, cc, back, true, d + Held(b, back, min, max)));
    CountedLayout(p.code, start, adv, max, max - min, greedy, atom, d, d + 1);
  }

  lemma LoopCodeLayout(p: Prog, b: Node, cc: nat, back: bool, min: nat, max: nat, greedy: bool, d: nat, start: int)
    requires ValidNode(b) && min <= max && max != 0
    requires HasCode(p.code, start, LoopCodeAt(p.env, b, cc, back, min, max, greedy, d))
    ensures LaidOut(p, b, cc, back, min, max, greedy, d, start)
  {
    hide LaidOut, HasCode, LoopCodeAt, LoopCode, ValidNode, NeedAdvance;
    match ShapeOf(min, max, NeedAdvance(b, back)) {
      case Dropped =>
      case Optional(again) => LayOptional(p, b, cc, back, min, max, greedy, d, start);
      case CountedOptional => LayCountedOptional(p, b, cc, back, min, max, greedy, d, start);
      case PlusLoop => LayPlus(p, b, cc, back, min, max, greedy, d, start);
      case Exact => LayExact(p, b, cc, back, min, max, greedy, d, start);
      case Counted => LayCounted(p, b, cc, back, min, max, greedy, d, start);
    }
  }

  lemma EmptyCode(b: seq<byte>, pc: int)
    ensures HasCode(b, pc, [])
  {
  }

  // ----- unfoldings of the repetition -----

  function Choice(greedy: bool, more: seq<Out>, x: Out): seq<Out> {
    if greedy then more + [x] else [x] + more
  }

  /** Outcomes of one pass over the atom followed by whatever repetition is left. */
  function PassOutcomes(e: Env, q: Loop, m: nat, max: nat, x: Out): seq<Out>
    requires x.pos <= |e.input| && 2 * (q.cc + Groups(q.b)) <= |x.slots|
  {
    RunRepeatEach(e, q.b, q.cc, q.back, m, max, q.greedy, x, RunMatch(e, q.b, q.cc, q.back, AtomStart(q.b, q.cc, x)))
  }

  function TailOutcomes(e: Env, q: Loop, m: nat, max: nat, x: Out, y: Out): seq<Out>
    requires x.pos <= |e.input| && 2 * (q.cc + Groups(q.b)) <= |x.slots| && SlotFollows(e, q.back, x, y)
  {
    if m == 0 && y.pos == x.pos then [] else RunRepeat(e, q.b, q.cc, q.back, Pred(m), PredMax(max), q.greedy, y)
  }

  lemma RepeatUnfold(e: Env, q: Loop, m: nat, max: nat, x: Out)
    requires x.pos <= |e.input| && 2 * (q.cc + Groups(q.b)) <= |x.slots|
    ensures max == 0 ==> RunRepeat(e, q.b, q.cc, q.back, m, max, q.greedy, x) == [x]
    ensures max != 0 && m != 0 ==> RunRepeat(e, q.b, q.cc, q.back, m, max, q.greedy, x) == PassOutcomes(e, q, m, max, x)
    ensures max != 0 && m == 0 ==> RunRepeat(e, q.b, q.cc, q.back, m, max, q.greedy, x) == Choice(q.greedy, PassOutcomes(e, q, m, max, x), x)
  {
    hide AllSlotFollow, RunMatch, RunRepeatEach;
  }
}
