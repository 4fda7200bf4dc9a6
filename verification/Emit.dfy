/** The byte code of a pattern, as a function of the pattern. Registers are those of the final
  * register scan when `alloc` is set (`d` registers are in use around the pattern) and zero,
  * as first emitted, otherwise. */
module Emit {
  import opened Wrappers
  import opened RegexSyntax
  import opened Bytecode

  // ----- static analysis of an atom (re_need_check_adv_and_capture_init) -----

  /** No branch, loop or back reference: every group inside is written exactly once per pass. */
  predicate Straight(n: Node) {
    match n
    case Cat(a, b) => Straight(a) && Straight(b)
    case Alt(_, _) => false
    case Group(b) => Straight(b)
    case Quant(_, _, max, _) => max == 0
    case Look(_, _, _) => false
    case BackRef(_, _) => false
    case _ => true
  }

  datatype Scanned = Scanned(stopped: bool, moved: bool)

  /** What the linear scan sees: whether an unpredictable opcode ends it, and whether a
    * character-consuming opcode comes before that. */
  function Scan(n: Node, back: bool): Scanned {
    match n
    case Single(_) => Scanned(false, true)
    case Cat(a, b) => if back then Then(Scan(b, back), Scan(a, back)) else Then(Scan(a, back), Scan(b, back))
    case Alt(_, _) => Scanned(true, false)
    case Group(b) => Scan(b, back)
    case Quant(b, min, max, _) =>
      if max == 0 then Scanned(false, false) else Scanned(true, min != 0 && Scan(b, back).moved)
    case Look(_, _, _) => Scanned(true, false)
    case _ => Scanned(false, false)
  }

  function Then(a: Scanned, b: Scanned): Scanned {
    if a.stopped then a else Scanned(b.stopped, a.moved || b.moved)
  }

  // ----- quantifier shapes -----

  datatype Shape =
    | Dropped
    | Optional(again: bool)
    | CountedOptional
    | PlusLoop
    | Exact
    | Counted

  /** The branch re_parse_term takes; `adv` tells that a zero-advance check is wanted. */
  function ShapeOf(min: nat, max: nat, adv: bool): Shape {
    if min == 0 then
      if max == 0 then Dropped
      else if max == 1 || max == INT32_MAX then Optional(max == INT32_MAX)
      else CountedOptional
    else if min == 1 && max == INT32_MAX && !adv then PlusLoop
    else if min == max then Exact
    else Counted
  }

  function NeedAdvance(b: Node, back: bool): bool { !Scan(b, back).moved }
  function NeedInit(b: Node): bool { !Straight(b) }

  /** The zero-advance check that ends up in the code. */
  function UsesAdvance(b: Node, back: bool, min: nat, max: nat): bool {
    NeedAdvance(b, back) && (min == 0 || min != max)
  }

  /** Registers a quantifier holds while its body runs. */
  function Held(b: Node, back: bool, min: nat, max: nat): nat {
    var adv := if UsesAdvance(b, back, min, max) then 1 else 0;
    match ShapeOf(min, max, NeedAdvance(b, back))
    case Dropped => 0
    case Optional(_) => adv
    case CountedOptional => 1 + adv
    case PlusLoop => 0
    case Exact => 1
    case Counted => 1 + adv
  }

  function Max(a: nat, b: nat): nat { if a < b then b else a }

  /** Registers needed to run a pattern. */
  function Depth(n: Node, back: bool): nat {
    match n
    case Cat(a, b) => Max(Depth(a, back), Depth(b, back))
    case Alt(a, b) => Max(Depth(a, back), Depth(b, back))
    case Group(b) => Depth(b, back)
    case Quant(b, min, max, _) => if max == 0 then 0 else Held(b, back, min, max) + Depth(b, back)
    case Look(_, behind, b) => Depth(b, behind)
    case _ => 0
  }

  // ----- emission -----

  /** re_emit_range: pairs (low, high), the 16-bit form writing 0xffff for infinity. */
  function RangePairs(p: seq<nat>): (r: seq<(nat, nat)>)
    requires CanonicalPoints(p)
    ensures |r| == |p| / 2
    ensures forall k :: 0 <= k < |r| ==> r[k].0 == p[2 * k] && r[k].1 + 1 == p[2 * k + 1]
  {
    seq(|p| / 2, k requires 0 <= k < |p| / 2 => assert p[2 * k] < p[2 * k + 1]; (p[2 * k], p[2 * k + 1] - 1))
  }

  predicate FitsRange16(p: seq<nat>)
    requires CanonicalPoints(p) && p != []
  {
    var high := if p[|p| - 1] == UINT32_MAX then p[|p| - 2] else p[|p| - 1];
    high <= 0xffff
  }

  function Cap16(r: seq<(nat, nat)>): (s: seq<(nat, nat)>)
    ensures |s| == |r|
    ensures forall k :: 0 <= k < |r| ==> s[k] == (r[k].0, if r[k].1 == UINT32_MAX - 1 then 0xffff else r[k].1)
  {
    seq(|r|, k requires 0 <= k < |r| => (r[k].0, if r[k].1 == UINT32_MAX - 1 then 0xffff else r[k].1))
  }

  function EmitClass(p: seq<nat>, icase: bool): Instr
    requires CanonicalPoints(p)
  {
    if p == [] then IChar(true, false, UINT32_MAX)
    else if FitsRange16(p) then IRange(false, icase, Cap16(RangePairs(p)))
    else IRange(true, icase, RangePairs(p))
  }

  function EmitTest(e: Env, t: CharTest): Instr
    requires ValidTest(t)
  {
    match t
    case Literal(c, icase) => IChar(Canon(e, icase, c) > 0xffff, icase, Canon(e, icase, c))
    case Dot(dotAll) => if dotAll then IAny else IDot
    case Space(negated) => ISpace(negated)
    case Class(p, icase) => EmitClass(p, icase)
  }

  function EmitSingle(e: Env, t: CharTest, back: bool): seq<Instr>
    requires ValidTest(t)
  {
    if back then [IPrev, EmitTest(e, t), IPrev] else [EmitTest(e, t)]
  }

  function ResetCode(cc: nat, groups: nat): seq<Instr> {
    if groups == 0 then [] else [IReset(cc, cc + groups - 1)]
  }

  function Code(e: Env, n: Node, cc: nat, back: bool, alloc: bool, d: nat): seq<Instr>
    requires ValidNode(n)
    decreases n, 0
  {
    match n
    case Empty => []
    case Single(t) => EmitSingle(e, t, back)
    case LineStart(multi) => [ILineStart(multi)]
    case LineEnd(multi) => [ILineEnd(multi)]
    case WordBoundary(negated, icase) => [IWordBoundary(negated, icase)]
    case Cat(a, b) =>
      if back then Code(e, b, cc + Groups(a), back, alloc, d) + Code(e, a, cc, back, alloc, d)
      else Code(e, a, cc, back, alloc, d) + Code(e, b, cc + Groups(a), back, alloc, d)
    case Alt(a, b) => AltCode(Code(e, a, cc, back, alloc, d), Code(e, b, cc + Groups(a), back, alloc, d))
    case Group(b) => [ISave(back, cc)] + Code(e, b, cc + 1, back, alloc, d) + [ISave(!back, cc)]
    case Quant(b, min, max, greedy) =>
      QuantCode(b, cc, back, min, max, greedy, Code(e, b, cc, back, alloc, d + Held(b, back, min, max)), if alloc then d else 0, if alloc then 1 else 0)
    case Look(negated, behind, b) => LookCode(negated, Code(e, b, cc, behind, alloc, d))
    case BackRef(refs, icase) => [IBackRef(back, icase, refs)]
  }

  function AltCode(a: seq<Instr>, b: seq<Instr>): seq<Instr> {
    [ISplit(true, Size(a) + 5)] + a + [IGoto(Size(b))] + b
  }

  function LookCode(negated: bool, b: seq<Instr>): seq<Instr> {
    [ILook(negated, Size(b) + 1)] + b + [ILookMatch(negated)]
  }

  /** Captures inside the atom are cleared on every pass unless all are rewritten anyway; then
    * they are cleared once, and only if the atom may be skipped. */
  function AtomCode(b: Node, cc: nat, body: seq<Instr>): seq<Instr> {
    (if NeedInit(b) then ResetCode(cc, Groups(b)) else []) + body
  }

  function SkipReset(b: Node, cc: nat, min: nat): seq<Instr> {
    if min == 0 && !NeedInit(b) then ResetCode(cc, Groups(b)) else []
  }

  /** A quantifier without the captures cleared in front of it. */
  function LoopCode(b: Node, cc: nat, back: bool, min: nat, max: nat, greedy: bool, body: seq<Instr>, r: nat, step: nat): seq<Instr>
    requires min <= max
  {
    var adv := UsesAdvance(b, back, min, max);
    var atom := AtomCode(b, cc, body);
    match ShapeOf(min, max, NeedAdvance(b, back))
    case Dropped => []
    case Optional(again) => OptionalCode(adv, again, greedy, atom, r)
    case CountedOptional => CountedOptionalCode(adv, max, greedy, atom, r, r + step)
    case PlusLoop => atom + [ISplit(!greedy, -(Size(atom) + 5))]
    case Exact => [ISetI32(r, max)] + atom + [ILoop(r, -(Size(atom) + 6))]
    case Counted => CountedCode(adv, max, max - min, greedy, atom, r, r + step)
  }

  function QuantCode(b: Node, cc: nat, back: bool, min: nat, max: nat, greedy: bool, body: seq<Instr>, r: nat, step: nat): seq<Instr>
    requires min <= max
  {
    SkipReset(b, cc, min) + LoopCode(b, cc, back, min, max, greedy, body, r, step)
  }

  function SetPosCode(adv: bool, r: nat): seq<Instr> { if adv then [ISetPos(r)] else [] }
  function CheckAdvCode(adv: bool, r: nat): seq<Instr> { if adv then [ICheckAdv(r)] else [] }
  function AdvSize(adv: bool): nat { if adv then 2 else 0 }

  function OptionalCode(adv: bool, again: bool, greedy: bool, atom: seq<Instr>, r: nat): seq<Instr> {
    [ISplit(greedy, Size(atom) + (if again then 5 else 0) + 2 * AdvSize(adv))]
    + (SetPosCode(adv, r) + atom + CheckAdvCode(adv, r))
    + (if again then [IGoto(-(Size(atom) + 2 * AdvSize(adv) + 10))] else [])
  }

  /** A counted loop: the counter starts at `max`; iterations are forced while it exceeds `limit`. */
  function CountedCode(adv: bool, max: nat, limit: nat, greedy: bool, atom: seq<Instr>, r: nat, rp: nat): seq<Instr> {
    [ISetI32(r, max)] + (SetPosCode(adv, rp) + atom)
    + [ILoopSplit(adv, !greedy, r, limit, -(AdvSize(adv) + Size(atom) + 10))]
  }

  function CountedOptionalCode(adv: bool, max: nat, greedy: bool, atom: seq<Instr>, r: nat, rp: nat): seq<Instr> {
    [ISplit(greedy, 6 + AdvSize(adv) + Size(atom) + 10)] + CountedCode(adv, max, max, greedy, atom, r, rp)
  }

  // ----- whole programs -----

  /** Unless sticky, code that tries every start position in turn. */
  function SearchPrefix(sticky: bool): seq<Instr> {
    if sticky then [] else [ISplit(false, 6), IAny, IGoto(-11)]
  }

  function ProgramCode(e: Env, n: Node, sticky: bool, alloc: bool): seq<Instr>
    requires ValidNode(n)
  {
    SearchPrefix(sticky) + ([ISave(false, 0)] + Code(e, n, 1, false, alloc, 0) + [ISave(true, 0), IMatch])
  }

  // ----- the equations of Code, one constructor at a time -----

  lemma CatCode(e: Env, a: Node, b: Node, cc: nat, back: bool, alloc: bool, d: nat)
    requires ValidNode(a) && ValidNode(b)
    ensures ValidNode(Cat(a, b))
    ensures Code(e, Cat(a, b), cc, back, alloc, d) ==
      if back then Code(e, b, cc + Groups(a), back, alloc, d) + Code(e, a, cc, back, alloc, d)
      else Code(e, a, cc, back, alloc, d) + Code(e, b, cc + Groups(a), back, alloc, d)
  {
    hide Groups, QuantCode, LookCode, AltCode, EmitSingle, Held;
  }

  lemma AltCodeUnfold(e: Env, a: Node, b: Node, cc: nat, back: bool, alloc: bool, d: nat)
    requires ValidNode(a) && ValidNode(b)
    ensures ValidNode(Alt(a, b))
    ensures Code(e, Alt(a, b), cc, back, alloc, d) == AltCode(Code(e, a, cc, back, alloc, d), Code(e, b, cc + Groups(a), back, alloc, d))
  {
    hide Groups, QuantCode, LookCode, AltCode, EmitSingle, Held;
  }

  lemma GroupCode(e: Env, b: Node, cc: nat, back: bool, alloc: bool, d: nat)
    requires ValidNode(b)
    ensures ValidNode(Group(b))
    ensures Code(e, Group(b), cc, back, alloc, d) == [ISave(back, cc)] + Code(e, b, cc + 1, back, alloc, d) + [ISave(!back, cc)]
  {
    hide Groups;
  }

  lemma LookCodeUnfold(e: Env, negated: bool, behind: bool, b: Node, cc: nat, back: bool, alloc: bool, d: nat)
    requires ValidNode(b)
    ensures ValidNode(Look(negated, behind, b))
    ensures var body := Code(e, b, cc, behind, alloc, d);
      Code(e, Look(negated, behind, b), cc, back, alloc, d) == [ILook(negated, Size(body) + 1)] + body + [ILookMatch(negated)]
  {
    hide Groups, Size;
  }

  /** Code of a quantifier, given the code of its atom. */
  lemma QuantCodeIs(e: Env, b: Node, min: nat, max: nat, greedy: bool, cc: nat, back: bool, alloc: bool, d: nat)
    requires ValidNode(Quant(b, min, max, greedy))
    ensures ValidNode(b) && min <= max <= INT32_MAX
    ensures var body := Code(e, b, cc, back, alloc, d + Held(b, back, min, max));
      Code(e, Quant(b, min, max, greedy), cc, back, alloc, d) ==
        QuantCode(b, cc, back, min, max, greedy, body, if alloc then d else 0, if alloc then 1 else 0)
  {
    hide QuantCode, Held;
  }

  predicate Leaf(n: Node) {
    n.Empty? || n.Single? || n.LineStart? || n.LineEnd? || n.WordBoundary? || n.BackRef?
  }

  function LeafCode(e: Env, n: Node, back: bool): seq<Instr>
    requires Leaf(n) && ValidNode(n)
  {
    match n
    case Empty => []
    case Single(t) => EmitSingle(e, t, back)
    case LineStart(multi) => [ILineStart(multi)]
    case LineEnd(multi) => [ILineEnd(multi)]
    case WordBoundary(negated, icase) => [IWordBoundary(negated, icase)]
    case BackRef(refs, icase) => [IBackRef(back, icase, refs)]
  }

  lemma LeafCodeUnfold(e: Env, n: Node, cc: nat, back: bool, alloc: bool, d: nat)
    requires Leaf(n) && ValidNode(n)
    ensures Code(e, n, cc, back, alloc, d) == LeafCode(e, n, back)
  {
    hide EmitSingle;
  }
}
