/** What the compiled code computes, one pattern at a time: the same outcomes as EcmaMatcher, but on
  * the machine's capture array (two slots per group, -1 for unset) and with captures cleared only
  * where the compiler decides to clear them. */
module SlotMatcher {
  import opened Wrappers
  import opened RegexSyntax
  import opened Emit

  datatype Out = Out(pos: nat, slots: seq<int>)

  const UNSET: int := -1

  predicate SlotFollows(e: Env, back: bool, x: Out, y: Out) {
    Onward(back, x.pos, y.pos) && y.pos <= |e.input| && |y.slots| == |x.slots|
  }

  predicate AllSlotFollow(e: Env, back: bool, x: Out, ys: seq<Out>) {
    forall k :: 0 <= k < |ys| ==> SlotFollows(e, back, x, ys[k])
  }

  /** REOP_save_reset. */
  function ResetSlots(slots: seq<int>, lo: nat, hi: nat): (r: seq<int>)
    ensures |r| == |slots|
    ensures forall j :: 0 <= j < |slots| ==> r[j] == if lo <= j < hi then UNSET else slots[j]
  {
    seq(|slots|, j requires 0 <= j < |slots| => if lo <= j < hi then UNSET else slots[j])
  }

  function ResetGroups(x: Out, cc: nat, groups: nat): Out {
    x.(slots := ResetSlots(x.slots, 2 * cc, 2 * (cc + groups)))
  }

  // ----- back references, as the machine runs them -----

  function CharAt(e: Env, i: int): nat { if 0 <= i < |e.input| then e.input[i] else 0 }

  predicate SameChar(e: Env, icase: bool, i: int, j: int) {
    Canon(e, icase, CharAt(e, i)) == Canon(e, icase, CharAt(e, j))
  }

  /** The first reference whose two slots are set. */
  function FirstSet(slots: seq<int>, refs: seq<nat>): (r: int)
    ensures r == -1 || (0 <= r < |slots| / 2 && slots[2 * r] != UNSET && slots[2 * r + 1] != UNSET)
  {
    if refs == [] then -1
    else if refs[0] < |slots| / 2 && slots[2 * refs[0]] != UNSET && slots[2 * refs[0] + 1] != UNSET then refs[0]
    else FirstSet(slots, refs[1..])
  }

  /** Compare forward from `i` up to `end`, advancing `pos`; -1 on a mismatch. */
  function CompareForward(e: Env, icase: bool, i: int, end: int, pos: nat): (r: int)
    ensures r == -1 || (pos <= r && (pos <= |e.input| ==> r <= |e.input|))
    decreases end - i
  {
    if i >= end then pos
    else if pos >= |e.input| || !SameChar(e, icase, i, pos) then -1
    else CompareForward(e, icase, i + 1, end, pos + 1)
  }

  /** Compare backward from `i` down to `start`. */
  function CompareBackward(e: Env, icase: bool, i: int, start: int, pos: nat): (r: int)
    ensures r == -1 || 0 <= r <= pos
    decreases i - start
  {
    if i <= start then pos
    else if pos == 0 || !SameChar(e, icase, i - 1, pos - 1) then -1
    else CompareBackward(e, icase, i - 1, start, pos - 1)
  }

  /** Position after a back reference, -1 when it does not match. */
  function BackRefEnd(e: Env, refs: seq<nat>, icase: bool, back: bool, slots: seq<int>, pos: nat): (r: int)
    ensures r == -1 || (0 <= r && (pos <= |e.input| ==> r <= |e.input|) && Onward(back, pos, r))
  {
    var g := FirstSet(slots, refs);
    if g == -1 then pos
    else if back then CompareBackward(e, icase, slots[2 * g + 1], slots[2 * g], pos)
    else CompareForward(e, icase, slots[2 * g], slots[2 * g + 1], pos)
  }

  // ----- patterns -----

  function RunSingle(e: Env, t: CharTest, back: bool, x: Out): (r: seq<Out>)
    requires x.pos <= |e.input|
    ensures AllSlotFollow(e, back, x, r)
  {
    if back then
      if 0 < x.pos && TestAccepts(e, t, e.input[x.pos - 1]) then [x.(pos := x.pos - 1)] else []
    else
      if x.pos < |e.input| && TestAccepts(e, t, e.input[x.pos]) then [x.(pos := x.pos + 1)] else []
  }

  function RunMatch(e: Env, n: Node, cc: nat, back: bool, x: Out): (r: seq<Out>)
    requires x.pos <= |e.input| && 2 * (cc + Groups(n)) <= |x.slots|
    ensures AllSlotFollow(e, back, x, r)
    decreases n, 0, 0, 0, 0, 0
  {
    match n
    case Empty => [x]
    case Single(t) => RunSingle(e, t, back, x)
    case LineStart(multi) => if AtLineStart(e, multi, x.pos) then [x] else []
    case LineEnd(multi) => if AtLineEnd(e, multi, x.pos) then [x] else []
    case WordBoundary(negated, icase) => if AtWordBoundary(e, icase, x.pos) != negated then [x] else []
    case Cat(a, b) =>
      if back then RunEach(e, a, cc, back, x, RunMatch(e, b, cc + Groups(a), back, x))
      else RunEach(e, b, cc + Groups(a), back, x, RunMatch(e, a, cc, back, x))
    case Alt(a, b) => RunMatch(e, a, cc, back, x) + RunMatch(e, b, cc + Groups(a), back, x)
    case Group(b) =>
      var open := x.(slots := x.slots[2 * cc + (if back then 1 else 0) := x.pos]);
      CloseGroup(e, cc, back, x, RunMatch(e, b, cc + 1, back, open))
    case Quant(b, min, max, greedy) =>
      var start := if min == 0 && !NeedInit(b) then ResetGroups(x, cc, Groups(b)) else x;
      RunRepeat(e, b, cc, back, min, MachineMax(b, back, min, max), greedy, start)
    case Look(negated, behind, b) =>
      var ys := RunMatch(e, b, cc, behind, x);
      if negated then (if ys == [] then [x] else [])
      else if ys == [] then [] else [ys[0].(pos := x.pos)]
    case BackRef(refs, icase) =>
      var q := BackRefEnd(e, refs, icase, back, x.slots, x.pos);
      if q == -1 then [] else [x.(pos := q)]
  }

  function RunEach(e: Env, n: Node, cc: nat, back: bool, x: Out, ys: seq<Out>): (r: seq<Out>)
    requires x.pos <= |e.input| && 2 * (cc + Groups(n)) <= |x.slots| && AllSlotFollow(e, back, x, ys)
    ensures AllSlotFollow(e, back, x, r)
    decreases n, 2, 0, 0, 0, |ys|
  {
    if ys == [] then [] else
    RunMatch(e, n, cc, back, ys[0]) + RunEach(e, n, cc, back, x, ys[1..])
  }

  function CloseGroup(e: Env, i: nat, back: bool, x: Out, ys: seq<Out>): (r: seq<Out>)
    requires 2 * i + 1 < |x.slots| && AllSlotFollow(e, back, x, ys)
    ensures AllSlotFollow(e, back, x, r) && |r| == |ys|
    ensures forall k :: 0 <= k < |r| ==>
      r[k] == ys[k].(slots := ys[k].slots[2 * i + (if back then 0 else 1) := ys[k].pos])
  {
    if ys == [] then [] else
    [ys[0].(slots := ys[0].slots[2 * i + (if back then 0 else 1) := ys[0].pos])] + CloseGroup(e, i, back, x, ys[1..])
  }

  /** Does the compiled loop keep a count of its passes? */
  predicate CountsDown(b: Node, back: bool, min: nat, max: nat) {
    var s := ShapeOf(min, max, NeedAdvance(b, back));
    s.CountedOptional? || s.Exact? || s.Counted?
  }

  /** A counted loop takes an upper bound of INT32_MAX as that number. */
  function MachineMax(b: Node, back: bool, min: nat, max: nat): nat {
    if CountsDown(b, back, min, max) then max else Upper(max)
  }

  /** The state in which a pass over the atom starts. */
  function AtomStart(b: Node, cc: nat, x: Out): Out {
    if NeedInit(b) then ResetGroups(x, cc, Groups(b)) else x
  }

  function RunRepeat(e: Env, b: Node, cc: nat, back: bool, min: nat, max: nat, greedy: bool, x: Out): (r: seq<Out>)
    requires x.pos <= |e.input| && 2 * (cc + Groups(b)) <= |x.slots|
    ensures AllSlotFollow(e, back, x, r)
    decreases b, 1, min, Remaining(e, back, x.pos), 1, 0
  {
    if max == 0 then [x] else
    var ys := RunMatch(e, b, cc, back, AtomStart(b, cc, x));
    var more := RunRepeatEach(e, b, cc, back, min, max, greedy, x, ys);
    if min != 0 then more else if greedy then more + [x] else [x] + more
  }

  function Pred(min: nat): nat { if min == 0 then 0 else min - 1 }

  function PredMax(max: nat): nat { if max == INFINITE then max else Pred(max) }

  function RunRepeatEach(e: Env, b: Node, cc: nat, back: bool, min: nat, max: nat, greedy: bool, x: Out, ys: seq<Out>): (r: seq<Out>)
    requires x.pos <= |e.input| && 2 * (cc + Groups(b)) <= |x.slots|
    requires AllSlotFollow(e, back, x, ys)
    ensures AllSlotFollow(e, back, x, r)
    decreases b, 1, min, Remaining(e, back, x.pos), 0, |ys|
  {
    if ys == [] then [] else
    (if min == 0 && ys[0].pos == x.pos then []
     else RunRepeat(e, b, cc, back, Pred(min), PredMax(max), greedy, ys[0]))
    + RunRepeatEach(e, b, cc, back, min, max, greedy, x, ys[1..])
  }

  // ----- the equations of RunMatch, one constructor at a time -----

  /** The part of a concatenation that comes first in the code, and the other. */
  function CatOrder(a: Node, b: Node, cc: nat, back: bool): (Node, nat, Node, nat) {
    if back then (b, cc + Groups(a), a, cc) else (a, cc, b, cc + Groups(a))
  }

  lemma CatUnfold(e: Env, a: Node, b: Node, cc: nat, back: bool, x: Out)
    requires x.pos <= |e.input| && 2 * (cc + Groups(a) + Groups(b)) <= |x.slots|
    ensures Groups(Cat(a, b)) == Groups(a) + Groups(b)
    ensures var (f, cf, s, cs) := CatOrder(a, b, cc, back);
      && 2 * (cf + Groups(f)) <= |x.slots| && 2 * (cs + Groups(s)) <= |x.slots|
      && AllSlotFollow(e, back, x, RunMatch(e, f, cf, back, x))
      && RunMatch(e, Cat(a, b), cc, back, x) == RunEach(e, s, cs, back, x, RunMatch(e, f, cf, back, x))
  {
    hide AllSlotFollow, RunEach, RunMatch, Groups;
    CatUnfoldIn(e, a, b, cc, back, x);
  }

  lemma CatUnfoldIn(e: Env, a: Node, b: Node, cc: nat, back: bool, x: Out)
    requires x.pos <= |e.input| && 2 * (cc + Groups(a) + Groups(b)) <= |x.slots|
    ensures Groups(Cat(a, b)) == Groups(a) + Groups(b)
    ensures AllSlotFollow(e, back, x, if back then RunMatch(e, b, cc + Groups(a), back, x) else RunMatch(e, a, cc, back, x))
    ensures RunMatch(e, Cat(a, b), cc, back, x) ==
      if back then RunEach(e, a, cc, back, x, RunMatch(e, b, cc + Groups(a), back, x))
      else RunEach(e, b, cc + Groups(a), back, x, RunMatch(e, a, cc, back, x))
  {
    hide AllSlotFollow, RunEach, NeedInit, ResetGroups, RunSingle, CloseGroup, RunRepeat, BackRefEnd, AtLineStart, AtLineEnd, AtWordBoundary;
  }

  lemma AltUnfold(e: Env, a: Node, b: Node, cc: nat, back: bool, x: Out)
    requires x.pos <= |e.input| && 2 * (cc + Groups(a) + Groups(b)) <= |x.slots|
    ensures Groups(Alt(a, b)) == Groups(a) + Groups(b)
    ensures RunMatch(e, Alt(a, b), cc, back, x) == RunMatch(e, a, cc, back, x) + RunMatch(e, b, cc + Groups(a), back, x)
  {
    hide AllSlotFollow, RunEach, NeedInit, ResetGroups, RunSingle, CloseGroup, RunRepeat, BackRefEnd, AtLineStart, AtLineEnd, AtWordBoundary;
  }

  /** The state inside a group: its entry position is recorded. */
  function Opened(cc: nat, back: bool, x: Out): Out
    requires 2 * cc + 1 < |x.slots|
  {
    x.(slots := x.slots[2 * cc + (if back then 1 else 0) := x.pos])
  }

  lemma GroupUnfold(e: Env, b: Node, cc: nat, back: bool, x: Out)
    requires x.pos <= |e.input| && 2 * (cc + Groups(Group(b))) <= |x.slots|
    ensures AllSlotFollow(e, back, x, RunMatch(e, b, cc + 1, back, Opened(cc, back, x)))
    ensures RunMatch(e, Group(b), cc, back, x) == CloseGroup(e, cc, back, x, RunMatch(e, b, cc + 1, back, Opened(cc, back, x)))
  {
  }

  lemma LookUnfold(e: Env, negated: bool, behind: bool, b: Node, cc: nat, back: bool, x: Out)
    requires x.pos <= |e.input| && 2 * (cc + Groups(b)) <= |x.slots|
    ensures RunMatch(e, Look(negated, behind, b), cc, back, x) == LookOutcome(negated, x, RunMatch(e, b, cc, behind, x))
  {
  }

  function LookOutcome(negated: bool, x: Out, ys: seq<Out>): seq<Out> {
    if negated then (if ys == [] then [x] else []) else if ys == [] then [] else [ys[0].(pos := x.pos)]
  }

  function QuantStart(b: Node, cc: nat, min: nat, x: Out): Out {
    if min == 0 && !NeedInit(b) then ResetGroups(x, cc, Groups(b)) else x
  }

  lemma QuantUnfold(e: Env, b: Node, min: nat, max: nat, greedy: bool, cc: nat, back: bool, x: Out)
    requires x.pos <= |e.input| && 2 * (cc + Groups(b)) <= |x.slots|
    ensures RunMatch(e, Quant(b, min, max, greedy), cc, back, x) == RunRepeat(e, b, cc, back, min, MachineMax(b, back, min, max), greedy, QuantStart(b, cc, min, x))
    ensures QuantStart(b, cc, min, x).pos == x.pos && |QuantStart(b, cc, min, x).slots| == |x.slots|
  {
    hide RunRepeat, Straight, MachineMax;
  }

  lemma CatOrderSmaller(a: Node, b: Node, cc: nat, back: bool)
    ensures var (f, cf, s, cs) := CatOrder(a, b, cc, back); f < Cat(a, b) && s < Cat(a, b)
  {
  }
}
