/** Clearing captures only where the compiler asks for it gives the same captures as clearing them on
  * every pass, as ECMA-262 prescribes: a stale capture is always rewritten before it can be seen. */
module CaptureReset {
  import opened Wrappers
  import opened RegexSyntax
  import opened EcmaMatcher
  import opened Emit
  import opened SlotMatcher

  /** Slots of group `j` represent its capture; a group in progress has one slot set. */
  predicate Agree(x: State, s: Out, j: nat)
    requires j < |x.caps| && |s.slots| == 2 * |x.caps|
  {
    match x.caps[j]
    case None => s.slots[2 * j] == UNSET || s.slots[2 * j + 1] == UNSET
    case Some(span) => s.slots[2 * j] == span.start && s.slots[2 * j + 1] == span.end
  }

  predicate AgreeIn(x: State, s: Out, lo: nat, hi: nat) {
    && hi <= |x.caps| && |s.slots| == 2 * |x.caps|
    && forall j: nat {:trigger Agree(x, s, j)} :: lo <= j < hi ==> Agree(x, s, j)
  }

  /** Same position and same captures. */
  predicate Rel(e: Env, x: State, s: Out) {
    ValidState(e, x) && x.pos == s.pos && AgreeIn(x, s, 0, |x.caps|)
  }

  predicate RelAll(e: Env, ys: seq<State>, zs: seq<Out>) {
    |ys| == |zs| && forall k :: 0 <= k < |ys| ==> Rel(e, ys[k], zs[k])
  }

  predicate Undefined(x: State, lo: nat, hi: nat)
    requires hi <= |x.caps|
  {
    forall j :: lo <= j < hi ==> x.caps[j] == None
  }

  predicate SlotsUnset(s: Out, lo: nat, hi: nat)
    requires 2 * hi <= |s.slots|
  {
    forall j :: 2 * lo <= j < 2 * hi ==> s.slots[j] == UNSET
  }

  // ----- a pattern touches only its own groups -----

  predicate SameCaps(x: State, y: State, lo: nat, hi: nat) {
    |x.caps| == |y.caps| && forall j :: 0 <= j < |x.caps| && !(lo <= j < hi) ==> y.caps[j] == x.caps[j]
  }

  predicate AllSameCaps(x: State, ys: seq<State>, lo: nat, hi: nat) {
    forall k :: 0 <= k < |ys| ==> SameCaps(x, ys[k], lo, hi)
  }

  lemma SameCapsWiden(x: State, ys: seq<State>, lo: nat, hi: nat, lo': nat, hi': nat)
    requires AllSameCaps(x, ys, lo, hi) && lo' <= lo && hi <= hi'
    ensures AllSameCaps(x, ys, lo', hi')
  {
  }

  lemma SameCapsConcat(x: State, ys: seq<State>, zs: seq<State>, lo: nat, hi: nat)
    requires AllSameCaps(x, ys, lo, hi) && AllSameCaps(x, zs, lo, hi)
    ensures AllSameCaps(x, ys + zs, lo, hi)
  {
    hide SameCaps;
  }

  lemma SetCaptureFrame(e: Env, i: nat, back: bool, x: State, ys: seq<State>, hi: nat)
    requires ValidState(e, x) && i < |x.caps| && AllFollow(e, back, x, ys) && AllSameCaps(x, ys, i + 1, hi) && i < hi
    ensures AllSameCaps(x, SetCapture(e, i, back, x, ys), i, hi)
  {
  }

  lemma LookFrame(negated: bool, x: State, ys: seq<State>, lo: nat, hi: nat)
    requires AllSameCaps(x, ys, lo, hi)
    ensures AllSameCaps(x, LookResults(negated, x, ys), lo, hi)
  {
  }

  lemma GroupParts(n: Node)
    ensures n.Cat? || n.Alt? ==> Groups(n) == Groups(n.first) + Groups(n.second)
    ensures n.Group? ==> Groups(n) == 1 + Groups(n.body)
    ensures n.Quant? || n.Look? ==> Groups(n) == Groups(n.body)
  {
  }

  /** Matching a pattern changes no capture outside it. */
  lemma {:induction false} MatchFrame(e: Env, n: Node, cc: nat, back: bool, x: State)
    requires ValidState(e, x) && cc + Groups(n) <= |x.caps|
    ensures AllSameCaps(x, Match(e, n, cc, back, x), cc, cc + Groups(n))
    decreases n, 0, 0, 0, 0, 0
  {
    hide AllSameCaps, AllFollow, ValidState, MatchEach, SetCapture, Repeat, LookResults, Match, Groups;
    GroupParts(n);
    match n {
      case Cat(a, b) =>
        CatMatch(e, a, b, cc, back, x);
        var (f, cf, s, cs) := if back then (b, cc + Groups(a), a, cc) else (a, cc, b, cc + Groups(a));
        var ys := Match(e, f, cf, back, x);
        MatchFrame(e, f, cf, back, x);
        SameCapsWiden(x, ys, cf, cf + Groups(f), cc, cc + Groups(n));
        MatchEachFrame(e, s, cs, back, x, ys, cc, cc + Groups(n));
      case Alt(a, b) =>
        AltMatch(e, a, b, cc, back, x);
        MatchFrame(e, a, cc, back, x);
        MatchFrame(e, b, cc + Groups(a), back, x);
        SameCapsWiden(x, Match(e, a, cc, back, x), cc, cc + Groups(a), cc, cc + Groups(n));
        SameCapsWiden(x, Match(e, b, cc + Groups(a), back, x), cc + Groups(a), cc + Groups(n), cc, cc + Groups(n));
        SameCapsConcat(x, Match(e, a, cc, back, x), Match(e, b, cc + Groups(a), back, x), cc, cc + Groups(n));
      case Group(b) =>
        GroupMatch(e, b, cc, back, x);
        MatchFrame(e, b, cc + 1, back, x);
        SetCaptureFrame(e, cc, back, x, Match(e, b, cc + 1, back, x), cc + Groups(n));
      case Quant(b, min, max, greedy) =>
        QuantMatch(e, b, min, max, greedy, cc, back, x);
        RepeatFrame(e, b, cc, back, min, Upper(max), greedy, x);
      case Look(negated, behind, b) =>
        LookMatch(e, negated, behind, b, cc, back, x);
        MatchFrame(e, b, cc, behind, x);
        LookFrame(negated, x, Match(e, b, cc, behind, x), cc, cc + Groups(n));
      case _ => LeafFrame(e, n, cc, back, x);
    }
  }

  lemma LeafFrame(e: Env, n: Node, cc: nat, back: bool, x: State)
    requires ValidState(e, x) && cc + Groups(n) <= |x.caps|
    requires !n.Cat? && !n.Alt? && !n.Group? && !n.Quant? && !n.Look?
    ensures AllSameCaps(x, Match(e, n, cc, back, x), cc, cc + Groups(n))
  {
  }

  lemma SameCapsStep(e: Env, back: bool, x: State, ys: seq<State>, zs: seq<State>, lo: nat, hi: nat, lo': nat, hi': nat)
    requires ys != [] && AllSameCaps(x, ys, lo, hi) && AllSameCaps(ys[0], zs, lo', hi') && lo <= lo' && hi' <= hi
    ensures AllSameCaps(x, zs, lo, hi) && AllSameCaps(x, ys[1..], lo, hi)
  {
  }

  lemma MatchEachUnfold(e: Env, n: Node, cc: nat, back: bool, x: State, ys: seq<State>)
    requires ValidState(e, x) && cc + Groups(n) <= |x.caps| && AllFollow(e, back, x, ys)
    ensures ys == [] ==> MatchEach(e, n, cc, back, x, ys) == []
    ensures ys != [] ==>
      && ValidState(e, ys[0]) && |ys[0].caps| == |x.caps| && AllFollow(e, back, x, ys[1..])
      && MatchEach(e, n, cc, back, x, ys) == Match(e, n, cc, back, ys[0]) + MatchEach(e, n, cc, back, x, ys[1..])
  {
    hide Match, ValidState, Groups;
  }

  lemma NoCaps(x: State, lo: nat, hi: nat)
    ensures AllSameCaps(x, [], lo, hi)
  {
  }

  lemma {:induction false} MatchEachFrame(e: Env, n: Node, cc: nat, back: bool, x: State, ys: seq<State>, lo: nat, hi: nat)
    requires ValidState(e, x) && cc + Groups(n) <= |x.caps| && AllFollow(e, back, x, ys)
    requires lo <= cc && cc + Groups(n) <= hi && AllSameCaps(x, ys, lo, hi)
    ensures AllSameCaps(x, MatchEach(e, n, cc, back, x, ys), lo, hi)
    decreases n, 2, 0, 0, 0, |ys|
  {
    hide *;
    MatchEachUnfold(e, n, cc, back, x, ys);
    if ys == [] {
      NoCaps(x, lo, hi);
    } else {
      var zs := Match(e, n, cc, back, ys[0]);
      MatchFrame(e, n, cc, back, ys[0]);
      SameCapsStep(e, back, x, ys, zs, lo, hi, cc, cc + Groups(n));
      MatchEachFrame(e, n, cc, back, x, ys[1..], lo, hi);
      SameCapsConcat(x, zs, MatchEach(e, n, cc, back, x, ys[1..]), lo, hi);
    }
  }

  lemma RepeatParts(e: Env, b: Node, cc: nat, back: bool, min: nat, max: nat, greedy: bool, x: State)
    requires ValidState(e, x) && cc + Groups(b) <= |x.caps|
    ensures max == 0 ==> Repeat(e, b, cc, back, min, max, greedy, x) == [x]
    ensures max != 0 ==>
      var c := ClearCaps(x, cc, cc + Groups(b));
      && ValidState(e, c) && AllFollow(e, back, x, Match(e, b, cc, back, c))
      && var more := RepeatEach(e, b, cc, back, min, max, greedy, x, Match(e, b, cc, back, c));
      Repeat(e, b, cc, back, min, max, greedy, x) == if min != 0 then more else if greedy then more + [x] else [x] + more
  {
    hide Match, RepeatEach, Groups;
  }

  lemma RepeatEachParts(e: Env, b: Node, cc: nat, back: bool, min: nat, max: nat, greedy: bool, x: State, ys: seq<State>)
    requires ValidState(e, x) && cc + Groups(b) <= |x.caps| && max != 0 && AllFollow(e, back, x, ys)
    ensures ys == [] ==> RepeatEach(e, b, cc, back, min, max, greedy, x, ys) == []
    ensures ys != [] ==>
      && Onward(back, x.pos, ys[0].pos) && ValidState(e, ys[0]) && |ys[0].caps| == |x.caps| && AllFollow(e, back, x, ys[1..])
      && RepeatEach(e, b, cc, back, min, max, greedy, x, ys) ==
           (if min == 0 && ys[0].pos == x.pos then [] else Repeat(e, b, cc, back, Pred(min), PredMax(max), greedy, ys[0]))
           + RepeatEach(e, b, cc, back, min, max, greedy, x, ys[1..])
  {
    hide Repeat, Match, Groups, ValidState;
  }

  lemma SameCapsSelf(x: State, lo: nat, hi: nat)
    ensures AllSameCaps(x, [x], lo, hi)
  {
  }

  /** What holds of the outcomes from the cleared state holds of those from the state itself. */
  lemma SameCapsCleared(x: State, ys: seq<State>, lo: nat, hi: nat)
    requires AllSameCaps(ClearCaps(x, lo, hi), ys, lo, hi)
    ensures AllSameCaps(x, ys, lo, hi)
  {
  }

  lemma {:induction false} RepeatFrame(e: Env, b: Node, cc: nat, back: bool, min: nat, max: nat, greedy: bool, x: State)
    requires ValidState(e, x) && cc + Groups(b) <= |x.caps|
    ensures AllSameCaps(x, Repeat(e, b, cc, back, min, max, greedy, x), cc, cc + Groups(b))
    decreases b, 1, min, Remaining(e, back, x.pos), 1, 0
  {
    hide *;
    RepeatParts(e, b, cc, back, min, max, greedy, x);
    SameCapsSelf(x, cc, cc + Groups(b));
    if max != 0 {
      var ys := Match(e, b, cc, back, ClearCaps(x, cc, cc + Groups(b)));
      MatchFrame(e, b, cc, back, ClearCaps(x, cc, cc + Groups(b)));
      SameCapsCleared(x, ys, cc, cc + Groups(b));
      RepeatEachFrame(e, b, cc, back, min, max, greedy, x, ys);
      var more := RepeatEach(e, b, cc, back, min, max, greedy, x, ys);
      SameCapsConcat(x, more, [x], cc, cc + Groups(b));
      SameCapsConcat(x, [x], more, cc, cc + Groups(b));
    }
  }

  lemma {:induction false} RepeatEachFrame(e: Env, b: Node, cc: nat, back: bool, min: nat, max: nat, greedy: bool, x: State, ys: seq<State>)
    requires ValidState(e, x) && cc + Groups(b) <= |x.caps| && max != 0
    requires AllFollow(e, back, x, ys) && AllSameCaps(x, ys, cc, cc + Groups(b))
    ensures AllSameCaps(x, RepeatEach(e, b, cc, back, min, max, greedy, x, ys), cc, cc + Groups(b))
    decreases b, 1, min, Remaining(e, back, x.pos), 0, |ys|
  {
    hide *;
    RepeatEachParts(e, b, cc, back, min, max, greedy, x, ys);
    NoCaps(x, cc, cc + Groups(b));
    if ys != [] {
      var first: seq<State> := [];
      if !(min == 0 && ys[0].pos == x.pos) {
        RepeatSmaller(e, back, min, x, ys[0]);
        RepeatFrame(e, b, cc, back, Pred(min), PredMax(max), greedy, ys[0]);
        first := Repeat(e, b, cc, back, Pred(min), PredMax(max), greedy, ys[0]);
        SameCapsStep(e, back, x, ys, first, cc, cc + Groups(b), cc, cc + Groups(b));
      }
      SameCapsStep(e, back, x, ys, [], cc, cc + Groups(b), cc, cc + Groups(b)) by { NoCaps(ys[0], cc, cc + Groups(b)); }
      RepeatEachFrame(e, b, cc, back, min, max, greedy, x, ys[1..]);
      SameCapsConcat(x, first, RepeatEach(e, b, cc, back, min, max, greedy, x, ys[1..]), cc, cc + Groups(b));
    }
  }

  lemma RepeatSmaller(e: Env, back: bool, min: nat, x: State, y: State)
    requires ValidState(e, x) && ValidState(e, y) && Onward(back, x.pos, y.pos) && !(min == 0 && y.pos == x.pos)
    ensures x.pos <= |e.input| && y.pos <= |e.input|
    ensures Pred(min) < min || (Pred(min) == min && Remaining(e, back, y.pos) < Remaining(e, back, x.pos))
  {
  }

  predicate SameSlots(x: Out, y: Out, lo: nat, hi: nat) {
    |x.slots| == |y.slots| && forall j :: 0 <= j < |x.slots| && !(2 * lo <= j < 2 * hi) ==> y.slots[j] == x.slots[j]
  }

  predicate AllSameSlots(x: Out, ys: seq<Out>, lo: nat, hi: nat) {
    forall k :: 0 <= k < |ys| ==> SameSlots(x, ys[k], lo, hi)
  }

  lemma SameSlotsWiden(x: Out, ys: seq<Out>, lo: nat, hi: nat, lo': nat, hi': nat)
    requires AllSameSlots(x, ys, lo, hi) && lo' <= lo && hi <= hi'
    ensures AllSameSlots(x, ys, lo', hi')
  {
  }

  lemma SameSlotsConcat(x: Out, ys: seq<Out>, zs: seq<Out>, lo: nat, hi: nat)
    requires AllSameSlots(x, ys, lo, hi) && AllSameSlots(x, zs, lo, hi)
    ensures AllSameSlots(x, ys + zs, lo, hi)
  {
    hide SameSlots;
  }

  lemma CloseGroupFrame(e: Env, i: nat, back: bool, x: Out, ys: seq<Out>, hi: nat)
    requires 2 * i + 1 < |x.slots| && AllSlotFollow(e, back, x, ys) && AllSameSlots(Opened(i, back, x), ys, i + 1, hi) && i < hi
    ensures AllSameSlots(x, CloseGroup(e, i, back, x, ys), i, hi)
  {
  }

  lemma LookOutcomeFrame(negated: bool, x: Out, ys: seq<Out>, lo: nat, hi: nat)
    requires AllSameSlots(x, ys, lo, hi)
    ensures AllSameSlots(x, LookOutcome(negated, x, ys), lo, hi)
  {
  }

  lemma QuantStartFrame(b: Node, cc: nat, min: nat, x: Out, ys: seq<Out>)
    requires AllSameSlots(QuantStart(b, cc, min, x), ys, cc, cc + Groups(b))
    ensures AllSameSlots(x, ys, cc, cc + Groups(b))
  {
    hide Straight, Groups;
  }

  /** Running a pattern changes no slot outside it. */
  lemma {:induction false} RunFrame(e: Env, n: Node, cc: nat, back: bool, x: Out)
    requires x.pos <= |e.input| && 2 * (cc + Groups(n)) <= |x.slots|
    ensures AllSameSlots(x, RunMatch(e, n, cc, back, x), cc, cc + Groups(n))
    decreases n, 0, 0, 0, 0, 0
  {
    hide AllSameSlots, AllSlotFollow, RunEach, CloseGroup, RunRepeat, LookOutcome, RunMatch, QuantStart, Groups, MachineMax;
    GroupParts(n);
    match n {
      case Cat(a, b) =>
        CatUnfoldIn(e, a, b, cc, back, x);
        var (f, cf, s, cs) := if back then (b, cc + Groups(a), a, cc) else (a, cc, b, cc + Groups(a));
        var ys := RunMatch(e, f, cf, back, x);
        RunFrame(e, f, cf, back, x);
        SameSlotsWiden(x, ys, cf, cf + Groups(f), cc, cc + Groups(n));
        RunEachFrame(e, s, cs, back, x, ys, cc, cc + Groups(n));
      case Alt(a, b) =>
        RunFrame(e, a, cc, back, x);
        RunFrame(e, b, cc + Groups(a), back, x);
        RunAltFrame(e, a, b, cc, back, x);
      case Group(b) =>
        GroupUnfold(e, b, cc, back, x);
        RunFrame(e, b, cc + 1, back, Opened(cc, back, x));
        CloseGroupFrame(e, cc, back, x, RunMatch(e, b, cc + 1, back, Opened(cc, back, x)), cc + Groups(n));
      case Quant(b, min, max, greedy) =>
        QuantUnfold(e, b, min, max, greedy, cc, back, x);
        RunRepeatFrame(e, b, cc, back, min, MachineMax(b, back, min, max), greedy, QuantStart(b, cc, min, x));
        QuantStartFrame(b, cc, min, x, RunRepeat(e, b, cc, back, min, MachineMax(b, back, min, max), greedy, QuantStart(b, cc, min, x)));
      case Look(negated, behind, b) =>
        LookUnfold(e, negated, behind, b, cc, back, x);
        RunFrame(e, b, cc, behind, x);
        LookOutcomeFrame(negated, x, RunMatch(e, b, cc, behind, x), cc, cc + Groups(n));
      case _ => RunLeafFrame(e, n, cc, back, x);
    }
  }

  lemma RunLeafFrame(e: Env, n: Node, cc: nat, back: bool, x: Out)
    requires x.pos <= |e.input| && 2 * (cc + Groups(n)) <= |x.slots|
    requires !n.Cat? && !n.Alt? && !n.Group? && !n.Quant? && !n.Look?
    ensures AllSameSlots(x, RunMatch(e, n, cc, back, x), cc, cc + Groups(n))
  {
  }

  lemma RunAltFrame(e: Env, a: Node, b: Node, cc: nat, back: bool, x: Out)
    requires x.pos <= |e.input| && 2 * (cc + Groups(a) + Groups(b)) <= |x.slots|
    requires AllSameSlots(x, RunMatch(e, a, cc, back, x), cc, cc + Groups(a))
    requires AllSameSlots(x, RunMatch(e, b, cc + Groups(a), back, x), cc + Groups(a), cc + Groups(a) + Groups(b))
    ensures Groups(Alt(a, b)) == Groups(a) + Groups(b)
    ensures AllSameSlots(x, RunMatch(e, Alt(a, b), cc, back, x), cc, cc + Groups(a) + Groups(b))
  {
    hide AllSameSlots, RunMatch;
    var hi := cc + Groups(a) + Groups(b);
    AltUnfold(e, a, b, cc, back, x);
    SameSlotsWiden(x, RunMatch(e, a, cc, back, x), cc, cc + Groups(a), cc, hi);
    SameSlotsWiden(x, RunMatch(e, b, cc + Groups(a), back, x), cc + Groups(a), hi, cc, hi);
    SameSlotsConcat(x, RunMatch(e, a, cc, back, x), RunMatch(e, b, cc + Groups(a), back, x), cc, hi);
  }

  lemma SameSlotsStep(x: Out, ys: seq<Out>, zs: seq<Out>, lo: nat, hi: nat, lo': nat, hi': nat)
    requires ys != [] && AllSameSlots(x, ys, lo, hi) && AllSameSlots(ys[0], zs, lo', hi') && lo <= lo' && hi' <= hi
    ensures AllSameSlots(x, zs, lo, hi) && AllSameSlots(x, ys[1..], lo, hi)
  {
  }

  lemma RunEachUnfold(e: Env, n: Node, cc: nat, back: bool, x: Out, ys: seq<Out>)
    requires x.pos <= |e.input| && 2 * (cc + Groups(n)) <= |x.slots| && AllSlotFollow(e, back, x, ys)
    ensures ys == [] ==> RunEach(e, n, cc, back, x, ys) == []
    ensures ys != [] ==>
      && ys[0].pos <= |e.input| && |ys[0].slots| == |x.slots| && AllSlotFollow(e, back, x, ys[1..])
      && RunEach(e, n, cc, back, x, ys) == RunMatch(e, n, cc, back, ys[0]) + RunEach(e, n, cc, back, x, ys[1..])
  {
    hide RunMatch, Groups;
  }

  lemma NoSlots(x: Out, lo: nat, hi: nat)
    ensures AllSameSlots(x, [], lo, hi)
  {
  }

  lemma {:induction false} RunEachFrame(e: Env, n: Node, cc: nat, back: bool, x: Out, ys: seq<Out>, lo: nat, hi: nat)
    requires x.pos <= |e.input| && 2 * (cc + Groups(n)) <= |x.slots| && AllSlotFollow(e, back, x, ys)
    requires lo <= cc && cc + Groups(n) <= hi && AllSameSlots(x, ys, lo, hi)
    ensures AllSameSlots(x, RunEach(e, n, cc, back, x, ys), lo, hi)
    decreases n, 2, 0, 0, 0, |ys|
  {
    hide *;
    RunEachUnfold(e, n, cc, back, x, ys);
    if ys == [] {
      NoSlots(x, lo, hi);
    } else {
      var zs := RunMatch(e, n, cc, back, ys[0]);
      RunFrame(e, n, cc, back, ys[0]);
      SameSlotsStep(x, ys, zs, lo, hi, cc, cc + Groups(n));
      RunEachFrame(e, n, cc, back, x, ys[1..], lo, hi);
      SameSlotsConcat(x, zs, RunEach(e, n, cc, back, x, ys[1..]), lo, hi);
    }
  }

  lemma {:induction false} RunRepeatFrame(e: Env, b: Node, cc: nat, back: bool, min: nat, max: nat, greedy: bool, x: Out)
    requires x.pos <= |e.input| && 2 * (cc + Groups(b)) <= |x.slots|
    ensures AllSameSlots(x, RunRepeat(e, b, cc, back, min, max, greedy, x), cc, cc + Groups(b))
    decreases b, 1, min, Remaining(e, back, x.pos), 1, 0
  {
    hide RunMatch, RunRepeatEach, Straight, Groups;
    if max != 0 {
      var c := AtomStart(b, cc, x);
      RunFrame(e, b, cc, back, c);
      RunRepeatEachFrame(e, b, cc, back, min, max, greedy, x, RunMatch(e, b, cc, back, c));
    }
  }

  lemma {:induction false} RunRepeatEachFrame(e: Env, b: Node, cc: nat, back: bool, min: nat, max: nat, greedy: bool, x: Out, ys: seq<Out>)
    requires x.pos <= |e.input| && 2 * (cc + Groups(b)) <= |x.slots|
    requires AllSlotFollow(e, back, x, ys) && AllSameSlots(x, ys, cc, cc + Groups(b))
    ensures AllSameSlots(x, RunRepeatEach(e, b, cc, back, min, max, greedy, x, ys), cc, cc + Groups(b))
    decreases b, 1, min, Remaining(e, back, x.pos), 0, |ys|
  {
    if ys != [] {
      if !(min == 0 && ys[0].pos == x.pos) {
        RunRepeatFrame(e, b, cc, back, Pred(min), PredMax(max), greedy, ys[0]);
      }
      RunRepeatEachFrame(e, b, cc, back, min, max, greedy, x, ys[1..]);
    }
  }

  // ----- straight code: every group inside is rewritten -----

  /** Groups inside a repetition of at most zero passes are never set; when the compiler emits no
    * code at all for such a repetition, their slots must be unset already. */
  predicate DeadUnset(n: Node, cc: nat, s: Out)
    requires 2 * (cc + Groups(n)) <= |s.slots|
  {
    match n
    case Cat(a, b) => DeadUnset(a, cc, s) && DeadUnset(b, cc + Groups(a), s)
    case Group(b) => DeadUnset(b, cc + 1, s)
    case Quant(b, _, max, _) => max == 0 && NeedInit(b) ==> SlotsUnset(s, cc, cc + Groups(b))
    case _ => true
  }

  lemma {:induction false} DeadUnsetFrame(n: Node, cc: nat, s: Out, z: Out, lo: nat, hi: nat)
    requires 2 * (cc + Groups(n)) <= |s.slots| && DeadUnset(n, cc, s) && SameSlots(s, z, lo, hi)
    requires hi <= cc || cc + Groups(n) <= lo
    ensures 2 * (cc + Groups(n)) <= |z.slots| && DeadUnset(n, cc, z)
  {
    match n {
      case Cat(a, b) =>
        DeadUnsetFrame(a, cc, s, z, lo, hi);
        DeadUnsetFrame(b, cc + Groups(a), s, z, lo, hi);
      case Group(b) => DeadUnsetFrame(b, cc + 1, s, z, lo, hi);
      case _ =>
    }
  }

  lemma {:induction false} UnsetIsDeadUnset(n: Node, cc: nat, s: Out)
    requires 2 * (cc + Groups(n)) <= |s.slots| && SlotsUnset(s, cc, cc + Groups(n))
    ensures DeadUnset(n, cc, s)
  {
    match n {
      case Cat(a, b) =>
        UnsetIsDeadUnset(a, cc, s);
        UnsetIsDeadUnset(b, cc + Groups(a), s);
      case Group(b) => UnsetIsDeadUnset(b, cc + 1, s);
      case _ =>
    }
  }

  /** An outcome of straight code: its own groups agree. */
  predicate StraightPair(n: Node, cc: nat, y: State, z: Out) {
    && y.pos == z.pos && cc + Groups(n) <= |y.caps| && |z.slots| == 2 * |y.caps|
    && AgreeIn(y, z, cc, cc + Groups(n)) && DeadUnset(n, cc, z)
  }

  predicate StraightPairs(n: Node, cc: nat, ys: seq<State>, zs: seq<Out>) {
    |ys| == |zs| && forall k :: 0 <= k < |ys| ==> StraightPair(n, cc, ys[k], zs[k])
  }

  predicate StraightEntry(e: Env, n: Node, cc: nat, x: State, s: Out) {
    && ValidNode(n) && Straight(n) && ValidState(e, x) && x.pos == s.pos && |s.slots| == 2 * |x.caps|
    && cc + Groups(n) <= |x.caps| && Undefined(x, cc, cc + Groups(n)) && DeadUnset(n, cc, s)
  }

  lemma {:induction false} StraightRun(e: Env, n: Node, cc: nat, back: bool, x: State, s: Out)
    requires StraightEntry(e, n, cc, x, s)
    ensures StraightPairs(n, cc, Match(e, n, cc, back, x), RunMatch(e, n, cc, back, s))
    decreases n, 1
  {
    match n {
      case Cat(a, b) => StraightCat(e, a, b, cc, back, x, s);
      case Group(b) => StraightGroup(e, b, cc, back, x, s);
      case Quant(b, min, max, greedy) => StraightQuant(e, b, min, max, greedy, cc, back, x, s);
      case _ => StraightLeaf(e, n, cc, back, x, s);
    }
  }

  lemma StraightLeaf(e: Env, n: Node, cc: nat, back: bool, x: State, s: Out)
    requires StraightEntry(e, n, cc, x, s) && !n.Cat? && !n.Group? && !n.Quant?
    ensures StraightPairs(n, cc, Match(e, n, cc, back, x), RunMatch(e, n, cc, back, s))
  {
  }

  lemma StraightQuant(e: Env, b: Node, min: nat, max: nat, greedy: bool, cc: nat, back: bool, x: State, s: Out)
    requires StraightEntry(e, Quant(b, min, max, greedy), cc, x, s)
    ensures StraightPairs(Quant(b, min, max, greedy), cc, Match(e, Quant(b, min, max, greedy), cc, back, x), RunMatch(e, Quant(b, min, max, greedy), cc, back, s))
  {
    hide Match, RunMatch, RunRepeatEach, RepeatEach;
    assert max == 0 && min == 0;
    QuantMatch(e, b, min, max, greedy, cc, back, x);
    QuantUnfold(e, b, min, max, greedy, cc, back, s);
    var s0 := QuantStart(b, cc, min, s);
    assert Repeat(e, b, cc, back, min, max, greedy, x) == [x];
    assert RunRepeat(e, b, cc, back, min, max, greedy, s0) == [s0];
    assert SlotsUnset(s0, cc, cc + Groups(b));
    forall j: nat | cc <= j < cc + Groups(b) ensures Agree(x, s0, j) {
    }
  }

  lemma StraightClose(e: Env, b: Node, cc: nat, back: bool, x: State, s: Out, ys: seq<State>, zs: seq<Out>)
    requires ValidState(e, x) && x.pos == s.pos && |s.slots| == 2 * |x.caps| && cc + 1 + Groups(b) <= |x.caps|
    requires AllFollow(e, back, x, ys) && AllSlotFollow(e, back, s, zs)
    requires StraightPairs(b, cc + 1, ys, zs) && AllSameSlots(Opened(cc, back, s), zs, cc + 1, cc + 1 + Groups(b))
    ensures StraightPairs(Group(b), cc, SetCapture(e, cc, back, x, ys), CloseGroup(e, cc, back, s, zs))
  {
    hide Straight, SetCapture, CloseGroup, Opened, ValidState, Groups, StraightPair, SameSlots;
    var cs, gs := SetCapture(e, cc, back, x, ys), CloseGroup(e, cc, back, s, zs);
    forall k | 0 <= k < |cs| ensures StraightPair(Group(b), cc, cs[k], gs[k]) {
      assert StraightPair(b, cc + 1, ys[k], zs[k]) && SameSlots(Opened(cc, back, s), zs[k], cc + 1, cc + 1 + Groups(b));
      StraightCloseOne(b, cc, back, x, s, ys[k], zs[k], cs[k], gs[k]);
    }
  }

  lemma ClosedAgree(cc: nat, back: bool, x: State, s: Out, y: State, z: Out, c: State, g: Out, hi: nat)
    requires x.pos == s.pos && y.pos == z.pos && |s.slots| == |z.slots| == 2 * |x.caps| == 2 * |y.caps| && cc < hi <= |x.caps|
    requires AgreeIn(y, z, cc + 1, hi) && SameSlots(Opened(cc, back, s), z, cc + 1, hi)
    requires c == y.(caps := y.caps[cc := Some(if back then Span(y.pos, x.pos) else Span(x.pos, y.pos))])
    requires g == z.(slots := z.slots[2 * cc + (if back then 0 else 1) := z.pos])
    ensures AgreeIn(c, g, cc, hi)
  {
    assert z.slots[2 * cc + (if back then 1 else 0)] == s.pos;
    assert Agree(c, g, cc);
    forall j: nat | cc < j < hi ensures Agree(c, g, j) {
      assert Agree(y, z, j);
    }
  }

  lemma StraightCloseOne(b: Node, cc: nat, back: bool, x: State, s: Out, y: State, z: Out, c: State, g: Out)
    requires x.pos == s.pos && |s.slots| == 2 * |x.caps| == 2 * |y.caps| && cc + 1 + Groups(b) <= |x.caps|
    requires StraightPair(b, cc + 1, y, z) && SameSlots(Opened(cc, back, s), z, cc + 1, cc + 1 + Groups(b))
    requires c == y.(caps := y.caps[cc := Some(if back then Span(y.pos, x.pos) else Span(x.pos, y.pos))])
    requires g == z.(slots := z.slots[2 * cc + (if back then 0 else 1) := z.pos])
    ensures StraightPair(Group(b), cc, c, g)
  {
    hide Straight, AgreeIn, Opened, SameSlots, DeadUnset, Groups;
    ClosedAgree(cc, back, x, s, y, z, c, g, cc + 1 + Groups(b));
    SlotWriteFrame(z, cc, 2 * cc + (if back then 0 else 1));
    DeadUnsetFrame(b, cc + 1, z, g, cc, cc + 1);
    DeadUnsetGroup(b, cc, g);
  }

  lemma SlotWriteFrame(z: Out, cc: nat, i: nat)
    requires 2 * cc <= i < 2 * cc + 2 <= |z.slots|
    ensures SameSlots(z, z.(slots := z.slots[i := z.pos]), cc, cc + 1)
  {
  }

  lemma DeadUnsetGroup(b: Node, cc: nat, s: Out)
    requires 2 * (cc + 1 + Groups(b)) <= |s.slots|
    ensures Groups(Group(b)) == 1 + Groups(b) && DeadUnset(Group(b), cc, s) == DeadUnset(b, cc + 1, s)
  {
  }

  lemma {:induction false} StraightGroup(e: Env, b: Node, cc: nat, back: bool, x: State, s: Out)
    requires StraightEntry(e, Group(b), cc, x, s)
    ensures StraightPairs(Group(b), cc, Match(e, Group(b), cc, back, x), RunMatch(e, Group(b), cc, back, s))
    decreases Group(b), 0
  {
    hide Match, RunMatch, SetCapture, CloseGroup, AllFollow, AllSlotFollow, AllSameSlots, StraightPairs;
    GroupMatch(e, b, cc, back, x);
    GroupUnfold(e, b, cc, back, s);
    var open := Opened(cc, back, s);
    DeadUnsetFrame(b, cc + 1, s, open, cc, cc + 1);
    StraightRun(e, b, cc + 1, back, x, open);
    RunFrame(e, b, cc + 1, back, open);
    FollowOpened(e, cc, back, s, RunMatch(e, b, cc + 1, back, open));
    StraightClose(e, b, cc, back, x, s, Match(e, b, cc + 1, back, x), RunMatch(e, b, cc + 1, back, open));
  }

  lemma FollowOpened(e: Env, cc: nat, back: bool, s: Out, zs: seq<Out>)
    requires 2 * cc + 1 < |s.slots| && AllSlotFollow(e, back, Opened(cc, back, s), zs)
    ensures AllSlotFollow(e, back, s, zs)
  {
  }

  lemma {:induction false} StraightCat(e: Env, a: Node, b: Node, cc: nat, back: bool, x: State, s: Out)
    requires StraightEntry(e, Cat(a, b), cc, x, s)
    ensures StraightPairs(Cat(a, b), cc, Match(e, Cat(a, b), cc, back, x), RunMatch(e, Cat(a, b), cc, back, s))
    decreases Cat(a, b), 0
  {
    hide Match, RunMatch, MatchEach, RunEach, AllFollow, AllSlotFollow, AllSameSlots, AllSameCaps, StraightPairs, ValidState, StraightEntry, Straight, ValidNode;
    EntryFacts(e, Cat(a, b), cc, x, s);
    CatMatch(e, a, b, cc, back, x);
    CatUnfoldIn(e, a, b, cc, back, s);
    var (f, cf, n, cn) := CatOrder(a, b, cc, back);
    CatOrderSmaller(a, b, cc, back);
    StraightEntryFirst(e, a, b, cc, back, x, s);
    StraightRun(e, f, cf, back, x, s);
    MatchFrame(e, f, cf, back, x);
    RunFrame(e, f, cf, back, s);
    StraightEach(e, a, b, cc, back, x, s, Match(e, f, cf, back, x), RunMatch(e, f, cf, back, s));
  }

  /** The second half of a concatenation, from each outcome of the first. */
  lemma {:induction false} StraightEach(e: Env, a: Node, b: Node, cc: nat, back: bool, x: State, s: Out, ys: seq<State>, zs: seq<Out>)
    requires StraightEntry(e, Cat(a, b), cc, x, s)
    requires var (f, cf, n, cn) := CatOrder(a, b, cc, back);
      && StraightPairs(f, cf, ys, zs) && AllSameCaps(x, ys, cf, cf + Groups(f)) && AllSameSlots(s, zs, cf, cf + Groups(f))
      && AllFollow(e, back, x, ys) && AllSlotFollow(e, back, s, zs)
    ensures var (f, cf, n, cn) := CatOrder(a, b, cc, back);
      StraightPairs(Cat(a, b), cc, MatchEach(e, n, cn, back, x, ys), RunEach(e, n, cn, back, s, zs))
    decreases Cat(a, b), 0, |ys|
  {
    hide *;
    var (f, cf, n, cn) := CatOrder(a, b, cc, back);
    StraightEntryFirst(e, a, b, cc, back, x, s);
    EntryFacts(e, Cat(a, b), cc, x, s);
    CatOrderSmaller(a, b, cc, back);
    MatchEachUnfold(e, n, cn, back, x, ys);
    RunEachUnfold(e, n, cn, back, s, zs);
    PairsLength(f, cf, ys, zs);
    if ys == [] {
      NoPairs(Cat(a, b), cc);
    } else {
      PairsParts(f, cf, ys, zs, x, s, cf, cf + Groups(f));
      StraightEntryNext(e, a, b, cc, back, x, s, ys[0], zs[0]);
      EntryFacts(e, n, cn, ys[0], zs[0]);
      var ys1, zs1 := Match(e, n, cn, back, ys[0]), RunMatch(e, n, cn, back, zs[0]);
      StraightRun(e, n, cn, back, ys[0], zs[0]);
      MatchFrame(e, n, cn, back, ys[0]);
      RunFrame(e, n, cn, back, zs[0]);
      StraightJoin(a, b, cc, back, ys[0], zs[0], ys1, zs1);
      StraightEach(e, a, b, cc, back, x, s, ys[1..], zs[1..]);
      PairsConcat(Cat(a, b), cc, ys1, zs1, MatchEach(e, n, cn, back, x, ys[1..]), RunEach(e, n, cn, back, s, zs[1..]));
    }
  }

  lemma EntryFacts(e: Env, n: Node, cc: nat, x: State, s: Out)
    requires StraightEntry(e, n, cc, x, s)
    ensures ValidState(e, x) && x.pos == s.pos <= |e.input| && |s.slots| == 2 * |x.caps| && cc + Groups(n) <= |x.caps|
  {
    hide Straight, ValidNode, DeadUnset, Undefined;
  }

  lemma PairsLength(n: Node, cc: nat, ys: seq<State>, zs: seq<Out>)
    requires StraightPairs(n, cc, ys, zs)
    ensures |ys| == |zs|
  {
  }

  lemma NoPairs(n: Node, cc: nat)
    ensures StraightPairs(n, cc, [], [])
  {
  }

  lemma PairsParts(n: Node, cc: nat, ys: seq<State>, zs: seq<Out>, x: State, s: Out, lo: nat, hi: nat)
    requires StraightPairs(n, cc, ys, zs) && ys != [] && AllSameCaps(x, ys, lo, hi) && AllSameSlots(s, zs, lo, hi)
    ensures |zs| == |ys| && StraightPair(n, cc, ys[0], zs[0]) && StraightPairs(n, cc, ys[1..], zs[1..])
    ensures SameCaps(x, ys[0], lo, hi) && SameSlots(s, zs[0], lo, hi)
    ensures AllSameCaps(x, ys[1..], lo, hi) && AllSameSlots(s, zs[1..], lo, hi)
  {
    hide StraightPair, SameCaps, SameSlots;
  }

  lemma PairsConcat(n: Node, cc: nat, ys: seq<State>, zs: seq<Out>, ys': seq<State>, zs': seq<Out>)
    requires StraightPairs(n, cc, ys, zs) && StraightPairs(n, cc, ys', zs')
    ensures StraightPairs(n, cc, ys + ys', zs + zs')
  {
    hide StraightPair;
  }

  lemma StraightEntryFirst(e: Env, a: Node, b: Node, cc: nat, back: bool, x: State, s: Out)
    requires StraightEntry(e, Cat(a, b), cc, x, s)
    ensures var (f, cf, n, cn) := CatOrder(a, b, cc, back); StraightEntry(e, f, cf, x, s) && cn + Groups(n) <= |x.caps|
    ensures Groups(Cat(a, b)) == Groups(a) + Groups(b)
  {
    hide ValidState;
  }

  lemma StraightEntryNext(e: Env, a: Node, b: Node, cc: nat, back: bool, x: State, s: Out, y: State, z: Out)
    requires StraightEntry(e, Cat(a, b), cc, x, s) && ValidState(e, y)
    requires var (f, cf, n, cn) := CatOrder(a, b, cc, back);
      && StraightPair(f, cf, y, z) && SameCaps(x, y, cf, cf + Groups(f)) && SameSlots(s, z, cf, cf + Groups(f))
    ensures var (f, cf, n, cn) := CatOrder(a, b, cc, back); StraightEntry(e, n, cn, y, z)
  {
    hide ValidState, AgreeIn;
    var (f, cf, n, cn) := CatOrder(a, b, cc, back);
    DeadUnsetFrame(n, cn, s, z, cf, cf + Groups(f));
  }

  lemma StraightJoin(a: Node, b: Node, cc: nat, back: bool, y: State, z: Out, ys: seq<State>, zs: seq<Out>)
    requires var (f, cf, n, cn) := CatOrder(a, b, cc, back);
      && StraightPair(f, cf, y, z) && StraightPairs(n, cn, ys, zs)
      && AllSameCaps(y, ys, cn, cn + Groups(n)) && AllSameSlots(z, zs, cn, cn + Groups(n))
    ensures StraightPairs(Cat(a, b), cc, ys, zs)
  {
    var (f, cf, n, cn) := CatOrder(a, b, cc, back);
    forall k | 0 <= k < |ys| ensures StraightPair(Cat(a, b), cc, ys[k], zs[k]) {
      assert StraightPair(n, cn, ys[k], zs[k]) && SameCaps(y, ys[k], cn, cn + Groups(n)) && SameSlots(z, zs[k], cn, cn + Groups(n));
      DeadUnsetFrame(f, cf, z, zs[k], cn, cn + Groups(n));
      AgreeFrame(y, z, ys[k], zs[k], cf, cf + Groups(f), cn, cn + Groups(n));
    }
  }

  lemma AgreeFrame(x: State, s: Out, y: State, z: Out, lo: nat, hi: nat, flo: nat, fhi: nat)
    requires AgreeIn(x, s, lo, hi) && SameCaps(x, y, flo, fhi) && SameSlots(s, z, flo, fhi) && (fhi <= lo || hi <= flo)
    ensures AgreeIn(y, z, lo, hi)
  {
    forall j: nat | lo <= j < hi ensures Agree(y, z, j) { assert Agree(x, s, j); }
  }

  // ----- counted loops -----

  /** An unbounded loop that the compiler counts from INT32_MAX down does not run out of count on
    * a subject of length `len`. */
  predicate CountFits(b: Node, back: bool, min: nat, max: nat, len: nat) {
    var s := ShapeOf(min, max, NeedAdvance(b, back));
    max == INT32_MAX && (s.Exact? || s.Counted?) ==> min + len <= INT32_MAX
  }

  predicate Fits(n: Node, back: bool, len: nat) {
    match n
    case Cat(a, b) => Fits(a, back, len) && Fits(b, back, len)
    case Alt(a, b) => Fits(a, back, len) && Fits(b, back, len)
    case Group(b) => Fits(b, back, len)
    case Quant(b, min, max, _) => Fits(b, back, len) && CountFits(b, back, min, max, len)
    case Look(_, behind, b) => Fits(b, behind, len)
    case _ => true
  }

  lemma FitsParts(n: Node, back: bool, len: nat)
    requires Fits(n, back, len)
    ensures n.Cat? || n.Alt? ==> Fits(n.first, back, len) && Fits(n.second, back, len)
    ensures n.Group? ==> Fits(n.body, back, len)
    ensures n.Quant? ==> Fits(n.body, back, len) && CountFits(n.body, back, n.min, n.max, len)
    ensures n.Look? ==> Fits(n.body, n.behind, len)
  {
    hide CountFits;
  }

  lemma FitsOrder(a: Node, b: Node, cc: nat, back: bool, len: nat)
    requires Fits(Cat(a, b), back, len)
    ensures var (f, cf, n, cn) := CatOrder(a, b, cc, back); Fits(f, back, len) && Fits(n, back, len)
  {
    hide Fits, Groups;
    FitsParts(Cat(a, b), back, len);
  }

  /** A finite bound that cannot be reached with `min` more forced passes and `room` characters left
    * is as good as none. */
  predicate SameBound(max: nat, bound: nat, min: nat, room: nat) {
    max == bound || (max == INFINITE && bound < INFINITE && min + room <= bound)
  }

  lemma SameBoundStep(max: nat, bound: nat, min: nat, room: nat, room': nat)
    requires SameBound(max, bound, min, room) && bound != 0 && room' <= room && (min == 0 ==> room' < room)
    ensures SameBound(PredMax(max), PredMax(bound), Pred(min), room')
  {
  }

  lemma SameBoundZero(max: nat, bound: nat, min: nat, room: nat)
    requires SameBound(max, bound, min, room)
    ensures max == 0 ==> bound == 0
    ensures bound == 0 && max != 0 ==> min == 0 && room == 0
  {
  }

  lemma MachineBound(b: Node, back: bool, min: nat, max: nat, len: nat, room: nat)
    requires CountFits(b, back, min, max, len) && room <= len && min <= max <= INT32_MAX
    ensures SameBound(Upper(max), MachineMax(b, back, min, max), min, room)
  {
    hide NeedAdvance;
  }

  // ----- any code, entered with its captures unset -----

  predicate CleanEntry(e: Env, n: Node, cc: nat, x: State, s: Out) {
    && ValidNode(n) && Rel(e, x, s) && cc + Groups(n) <= |x.caps|
    && Undefined(x, cc, cc + Groups(n)) && SlotsUnset(s, cc, cc + Groups(n))
  }

  lemma CleanFacts(e: Env, n: Node, cc: nat, x: State, s: Out)
    requires CleanEntry(e, n, cc, x, s)
    ensures Rel(e, x, s) && ValidState(e, x) && x.pos == s.pos <= |e.input| && |s.slots| == 2 * |x.caps| && cc + Groups(n) <= |x.caps|
  {
    hide ValidNode, Undefined, SlotsUnset;
  }

  lemma {:induction false} CleanRun(e: Env, n: Node, cc: nat, back: bool, x: State, s: Out)
    requires CleanEntry(e, n, cc, x, s)
    requires Fits(n, back, |e.input|)
    ensures RelAll(e, Match(e, n, cc, back, x), RunMatch(e, n, cc, back, s))
    decreases n, 1, 0, 0, 0, 0
  {
    hide *;
    CleanFacts(e, n, cc, x, s);
    match n {
      case Cat(a, b) => CleanCat(e, a, b, cc, back, x, s);
      case Alt(a, b) => CleanAlt(e, a, b, cc, back, x, s);
      case Group(b) => CleanGroup(e, b, cc, back, x, s);
      case Quant(b, min, max, greedy) => CleanQuant(e, b, min, max, greedy, cc, back, x, s);
      case Look(negated, behind, b) => CleanLook(e, negated, behind, b, cc, back, x, s);
      case BackRef(refs, icase) => CleanBackRef(e, refs, icase, cc, back, x, s);
      case _ => CleanLeaf(e, n, cc, back, x, s);
    }
  }

  lemma CleanLeaf(e: Env, n: Node, cc: nat, back: bool, x: State, s: Out)
    requires CleanEntry(e, n, cc, x, s) && (n.Empty? || n.Single? || n.LineStart? || n.LineEnd? || n.WordBoundary?)
    ensures RelAll(e, Match(e, n, cc, back, x), RunMatch(e, n, cc, back, s))
  {
    hide AgreeIn, TestAccepts, AtLineStart, AtLineEnd, AtWordBoundary;
    MovedRel(e, x, s);
  }

  /** Moving both to another position keeps the relation. */
  lemma MovedRel(e: Env, x: State, s: Out)
    requires Rel(e, x, s)
    ensures forall q: nat :: q <= |e.input| ==> Rel(e, x.(pos := q), s.(pos := q))
  {
    forall q: nat | q <= |e.input| ensures Rel(e, x.(pos := q), s.(pos := q)) {
      forall j: nat | j < |x.caps| ensures Agree(x.(pos := q), s.(pos := q), j) { assert Agree(x, s, j); }
    }
  }

  lemma RelConcat(e: Env, ys: seq<State>, zs: seq<Out>, ys': seq<State>, zs': seq<Out>)
    requires RelAll(e, ys, zs) && RelAll(e, ys', zs')
    ensures RelAll(e, ys + ys', zs + zs')
  {
    hide Rel;
  }

  lemma AltEntry(e: Env, a: Node, b: Node, cc: nat, x: State, s: Out)
    requires CleanEntry(e, Alt(a, b), cc, x, s)
    ensures CleanEntry(e, a, cc, x, s) && CleanEntry(e, b, cc + Groups(a), x, s)
  {
    hide Rel;
  }

  lemma {:induction false} CleanAlt(e: Env, a: Node, b: Node, cc: nat, back: bool, x: State, s: Out)
    requires CleanEntry(e, Alt(a, b), cc, x, s)
    requires Fits(Alt(a, b), back, |e.input|)
    ensures RelAll(e, Match(e, Alt(a, b), cc, back, x), RunMatch(e, Alt(a, b), cc, back, s))
    decreases Alt(a, b), 0, 0, 0, 0, 0
  {
    hide *;
    FitsParts(Alt(a, b), back, |e.input|);
    AltEntry(e, a, b, cc, x, s);
    CleanFacts(e, b, cc + Groups(a), x, s);
    AltMatch(e, a, b, cc, back, x);
    AltUnfold(e, a, b, cc, back, s);
    CleanRun(e, a, cc, back, x, s);
    CleanRun(e, b, cc + Groups(a), back, x, s);
    RelConcat(e, Match(e, a, cc, back, x), RunMatch(e, a, cc, back, s),
      Match(e, b, cc + Groups(a), back, x), RunMatch(e, b, cc + Groups(a), back, s));
  }

  lemma LookEntry(e: Env, negated: bool, behind: bool, b: Node, cc: nat, x: State, s: Out)
    requires CleanEntry(e, Look(negated, behind, b), cc, x, s)
    ensures CleanEntry(e, b, cc, x, s)
  {
    hide Rel;
  }

  lemma {:induction false} CleanLook(e: Env, negated: bool, behind: bool, b: Node, cc: nat, back: bool, x: State, s: Out)
    requires CleanEntry(e, Look(negated, behind, b), cc, x, s)
    requires Fits(Look(negated, behind, b), back, |e.input|)
    ensures RelAll(e, Match(e, Look(negated, behind, b), cc, back, x), RunMatch(e, Look(negated, behind, b), cc, back, s))
    decreases Look(negated, behind, b), 0, 0, 0, 0, 0
  {
    hide *;
    FitsParts(Look(negated, behind, b), back, |e.input|);
    LookEntry(e, negated, behind, b, cc, x, s);
    CleanFacts(e, b, cc, x, s);
    LookMatch(e, negated, behind, b, cc, back, x);
    LookUnfold(e, negated, behind, b, cc, back, s);
    CleanRun(e, b, cc, behind, x, s);
    LookRel(e, negated, x, s, Match(e, b, cc, behind, x), RunMatch(e, b, cc, behind, s));
  }

  lemma LookRel(e: Env, negated: bool, x: State, s: Out, ys: seq<State>, zs: seq<Out>)
    requires Rel(e, x, s) && RelAll(e, ys, zs) && x.pos <= |e.input|
    ensures RelAll(e, LookResults(negated, x, ys), LookOutcome(negated, s, zs))
  {
    hide AgreeIn, ValidState;
    if ys != [] { MovedRel(e, ys[0], zs[0]); }
  }

  // ----- groups -----

  lemma GroupEntry(e: Env, b: Node, cc: nat, back: bool, x: State, s: Out)
    requires CleanEntry(e, Group(b), cc, x, s)
    ensures 2 * cc + 1 < |s.slots| && CleanEntry(e, b, cc + 1, x, Opened(cc, back, s))
  {
    var open := Opened(cc, back, s);
    forall j: nat | j < |x.caps| ensures Agree(x, open, j) {
      assert Agree(x, s, j);
    }
  }

  lemma ClosedRel(e: Env, cc: nat, back: bool, x: State, s: Out, y: State, z: Out, c: State, g: Out, hi: nat)
    requires x.pos == s.pos <= |e.input| && |s.slots| == 2 * |x.caps| == 2 * |y.caps| && cc < hi <= |x.caps|
    requires Rel(e, y, z) && SameSlots(Opened(cc, back, s), z, cc + 1, hi) && Onward(back, x.pos, y.pos)
    requires c == y.(caps := y.caps[cc := Some(if back then Span(y.pos, x.pos) else Span(x.pos, y.pos))])
    requires g == z.(slots := z.slots[2 * cc + (if back then 0 else 1) := z.pos])
    ensures Rel(e, c, g)
  {
    assert z.slots[2 * cc + (if back then 1 else 0)] == s.pos;
    assert Agree(c, g, cc);
    forall j: nat | j < |c.caps| ensures Agree(c, g, j) {
      assert Agree(y, z, j);
    }
  }

  lemma CloseRel(e: Env, cc: nat, back: bool, x: State, s: Out, ys: seq<State>, zs: seq<Out>, hi: nat)
    requires ValidState(e, x) && x.pos == s.pos && |s.slots| == 2 * |x.caps| && cc < hi <= |x.caps|
    requires AllFollow(e, back, x, ys) && AllSlotFollow(e, back, s, zs)
    requires RelAll(e, ys, zs) && AllSameSlots(Opened(cc, back, s), zs, cc + 1, hi)
    ensures RelAll(e, SetCapture(e, cc, back, x, ys), CloseGroup(e, cc, back, s, zs))
  {
    hide SetCapture, CloseGroup, Opened, ValidState, Rel, SameSlots;
    var cs, gs := SetCapture(e, cc, back, x, ys), CloseGroup(e, cc, back, s, zs);
    forall k | 0 <= k < |cs| ensures Rel(e, cs[k], gs[k]) {
      assert Rel(e, ys[k], zs[k]) && SameSlots(Opened(cc, back, s), zs[k], cc + 1, hi) && Follows(e, back, x, ys[k]);
      ValidPos(e, x);
      ClosedRel(e, cc, back, x, s, ys[k], zs[k], cs[k], gs[k], hi);
    }
  }

  lemma ValidPos(e: Env, x: State)
    requires ValidState(e, x)
    ensures x.pos <= |e.input|
  {
  }

  lemma {:induction false} CleanGroup(e: Env, b: Node, cc: nat, back: bool, x: State, s: Out)
    requires CleanEntry(e, Group(b), cc, x, s)
    requires Fits(Group(b), back, |e.input|)
    ensures RelAll(e, Match(e, Group(b), cc, back, x), RunMatch(e, Group(b), cc, back, s))
    decreases Group(b), 0, 0, 0, 0, 0
  {
    hide *;
    FitsParts(Group(b), back, |e.input|);
    CleanFacts(e, Group(b), cc, x, s);
    GroupEntry(e, b, cc, back, x, s);
    var open := Opened(cc, back, s);
    CleanFacts(e, b, cc + 1, x, open);
    GroupMatch(e, b, cc, back, x);
    GroupUnfold(e, b, cc, back, s);
    CleanRun(e, b, cc + 1, back, x, open);
    RunFrame(e, b, cc + 1, back, open);
    RunFollows(e, b, cc + 1, back, open);
    FollowOpened(e, cc, back, s, RunMatch(e, b, cc + 1, back, open));
    CloseRel(e, cc, back, x, s, Match(e, b, cc + 1, back, x), RunMatch(e, b, cc + 1, back, open), cc + 1 + Groups(b));
  }

  lemma RunFollows(e: Env, n: Node, cc: nat, back: bool, s: Out)
    requires s.pos <= |e.input| && 2 * (cc + Groups(n)) <= |s.slots|
    ensures AllSlotFollow(e, back, s, RunMatch(e, n, cc, back, s))
  {
  }

  lemma MatchFollows(e: Env, n: Node, cc: nat, back: bool, x: State)
    requires ValidState(e, x) && cc + Groups(n) <= |x.caps|
    ensures AllFollow(e, back, x, Match(e, n, cc, back, x))
  {
  }

  // ----- sequence -----

  lemma CatEntry(e: Env, a: Node, b: Node, cc: nat, back: bool, x: State, s: Out)
    requires CleanEntry(e, Cat(a, b), cc, x, s)
    ensures var (f, cf, n, cn) := CatOrder(a, b, cc, back);
      && CleanEntry(e, f, cf, x, s) && CleanEntry(e, n, cn, x, s) && (cf + Groups(f) <= cn || cn + Groups(n) <= cf)
    ensures Groups(Cat(a, b)) == Groups(a) + Groups(b)
  {
    hide Rel;
  }

  /** After a pattern elsewhere, the captures of `n` are still unset. */
  lemma CleanAfter(e: Env, n: Node, cn: nat, x: State, s: Out, y: State, z: Out, lo: nat, hi: nat)
    requires CleanEntry(e, n, cn, x, s) && Rel(e, y, z) && SameCaps(x, y, lo, hi) && SameSlots(s, z, lo, hi)
    requires hi <= cn || cn + Groups(n) <= lo
    ensures CleanEntry(e, n, cn, y, z)
  {
    hide ValidNode, ValidState, Groups;
  }

  lemma {:induction false} CleanEach(e: Env, n: Node, cn: nat, back: bool, x: State, s: Out, ys: seq<State>, zs: seq<Out>, lo: nat, hi: nat)
    requires CleanEntry(e, n, cn, x, s) && RelAll(e, ys, zs) && (hi <= cn || cn + Groups(n) <= lo)
    requires Fits(n, back, |e.input|)
    requires AllSameCaps(x, ys, lo, hi) && AllSameSlots(s, zs, lo, hi)
    requires AllFollow(e, back, x, ys) && AllSlotFollow(e, back, s, zs)
    ensures ValidState(e, x) && s.pos <= |e.input| && cn + Groups(n) <= |x.caps| && |s.slots| == 2 * |x.caps|
    ensures RelAll(e, MatchEach(e, n, cn, back, x, ys), RunEach(e, n, cn, back, s, zs))
    decreases n, 2, 0, 0, 0, |ys|
  {
    hide *;
    CleanFacts(e, n, cn, x, s);
    MatchEachUnfold(e, n, cn, back, x, ys);
    RunEachUnfold(e, n, cn, back, s, zs);
    RelLength(e, ys, zs);
    if ys == [] {
      NoRel(e);
    } else {
      RelParts(e, ys, zs, x, s, lo, hi);
      CleanAfter(e, n, cn, x, s, ys[0], zs[0], lo, hi);
      CleanRun(e, n, cn, back, ys[0], zs[0]);
      CleanEach(e, n, cn, back, x, s, ys[1..], zs[1..], lo, hi);
      RelConcat(e, Match(e, n, cn, back, ys[0]), RunMatch(e, n, cn, back, zs[0]),
        MatchEach(e, n, cn, back, x, ys[1..]), RunEach(e, n, cn, back, s, zs[1..]));
    }
  }

  lemma RelLength(e: Env, ys: seq<State>, zs: seq<Out>)
    requires RelAll(e, ys, zs)
    ensures |ys| == |zs|
  {
  }

  lemma NoRel(e: Env)
    ensures RelAll(e, [], [])
  {
  }

  lemma RelParts(e: Env, ys: seq<State>, zs: seq<Out>, x: State, s: Out, lo: nat, hi: nat)
    requires RelAll(e, ys, zs) && ys != [] && AllSameCaps(x, ys, lo, hi) && AllSameSlots(s, zs, lo, hi)
    ensures |zs| == |ys| && Rel(e, ys[0], zs[0]) && RelAll(e, ys[1..], zs[1..])
    ensures SameCaps(x, ys[0], lo, hi) && SameSlots(s, zs[0], lo, hi)
    ensures AllSameCaps(x, ys[1..], lo, hi) && AllSameSlots(s, zs[1..], lo, hi)
  {
    hide Rel, SameCaps, SameSlots;
  }

  lemma {:induction false} CleanCat(e: Env, a: Node, b: Node, cc: nat, back: bool, x: State, s: Out)
    requires CleanEntry(e, Cat(a, b), cc, x, s)
    requires Fits(Cat(a, b), back, |e.input|)
    ensures RelAll(e, Match(e, Cat(a, b), cc, back, x), RunMatch(e, Cat(a, b), cc, back, s))
    decreases Cat(a, b), 0, 0, 0, 0, 0
  {
    hide *;
    FitsOrder(a, b, cc, back, |e.input|);
    CleanFacts(e, Cat(a, b), cc, x, s);
    CatEntry(e, a, b, cc, back, x, s);
    var (f, cf, n, cn) := CatOrder(a, b, cc, back);
    CatOrderSmaller(a, b, cc, back);
    CleanFacts(e, f, cf, x, s);
    CatMatchOrdered(e, a, b, cc, back, x);
    CatUnfold(e, a, b, cc, back, s);
    CleanRun(e, f, cf, back, x, s);
    MatchFrame(e, f, cf, back, x);
    RunFrame(e, f, cf, back, s);
    CleanEach(e, n, cn, back, x, s, Match(e, f, cf, back, x), RunMatch(e, f, cf, back, s), cf, cf + Groups(f));
  }

  lemma CatMatchOrdered(e: Env, a: Node, b: Node, cc: nat, back: bool, x: State)
    requires ValidState(e, x) && cc + Groups(a) + Groups(b) <= |x.caps|
    ensures var (f, cf, n, cn) := CatOrder(a, b, cc, back);
      && cf + Groups(f) <= |x.caps| && cn + Groups(n) <= |x.caps|
      && AllFollow(e, back, x, Match(e, f, cf, back, x))
      && Match(e, Cat(a, b), cc, back, x) == MatchEach(e, n, cn, back, x, Match(e, f, cf, back, x))
  {
    hide ValidState, AllFollow, Match, MatchEach;
    CatMatch(e, a, b, cc, back, x);
  }

  // ----- back references -----

  lemma {:induction false} FirstAgree(x: State, s: Out, refs: seq<nat>)
    requires AgreeIn(x, s, 0, |x.caps|)
    ensures var g := FirstSet(s.slots, refs);
      && (FirstCapture(x, refs).None? <==> g == -1)
      && (g != -1 ==> (var f := FirstCapture(x, refs);
           f.Some? && f.value.start == s.slots[2 * g] && f.value.end == s.slots[2 * g + 1]))
  {
    if refs != [] {
      if refs[0] < |x.caps| { assert Agree(x, s, refs[0]); }
      FirstAgree(x, s, refs[1..]);
    }
  }

  lemma {:induction false} CompareForwardCorrect(e: Env, icase: bool, i: nat, end: nat, pos: nat)
    requires i <= end <= |e.input| && pos <= |e.input|
    ensures CompareForward(e, icase, i, end, pos) ==
      if pos + (end - i) <= |e.input| && SameText(e, icase, Span(i, end), pos) then pos + (end - i) else -1
    decreases end - i
  {
    if i < end && pos < |e.input| {
      CompareForwardCorrect(e, icase, i + 1, end, pos + 1);
      if pos + (end - i) <= |e.input| {
        var all, rest := Span(i, end), Span(i + 1, end);
        if SameText(e, icase, rest, pos + 1) && SameChar(e, icase, i, pos) {
          forall k | i <= k < end ensures Canon(e, icase, e.input[k]) == Canon(e, icase, e.input[pos + (k - i)]) {
            if k > i { assert e.input[pos + (k - i)] == e.input[(pos + 1) + (k - (i + 1))]; }
          }
        }
        if SameText(e, icase, all, pos) {
          assert e.input[i] == e.input[i] && SameChar(e, icase, i, pos);
          forall k | i + 1 <= k < end ensures Canon(e, icase, e.input[k]) == Canon(e, icase, e.input[(pos + 1) + (k - (i + 1))]) {
            assert e.input[pos + (k - i)] == e.input[(pos + 1) + (k - (i + 1))];
          }
        }
      }
    }
  }

  lemma {:induction false} CompareBackwardCorrect(e: Env, icase: bool, i: nat, start: nat, pos: nat)
    requires start <= i <= |e.input| && pos <= |e.input|
    ensures CompareBackward(e, icase, i, start, pos) ==
      if i - start <= pos && SameText(e, icase, Span(start, i), pos - (i - start)) then pos - (i - start) else -1
    decreases i - start
  {
    if start < i && pos > 0 {
      CompareBackwardCorrect(e, icase, i - 1, start, pos - 1);
      if i - start <= pos {
        var at := pos - (i - start);
        if SameText(e, icase, Span(start, i - 1), at) && SameChar(e, icase, i - 1, pos - 1) {
          forall k | start <= k < i ensures Canon(e, icase, e.input[k]) == Canon(e, icase, e.input[at + (k - start)]) {
          }
        }
        if SameText(e, icase, Span(start, i), at) {
          assert e.input[at + (i - 1 - start)] == e.input[pos - 1];
        }
      }
    }
  }

  lemma BackRefMatch(e: Env, refs: seq<nat>, icase: bool, cc: nat, back: bool, x: State)
    requires ValidState(e, x) && cc <= |x.caps|
    ensures Groups(BackRef(refs, icase)) == 0
    ensures Match(e, BackRef(refs, icase), cc, back, x) == MatchBackRef(e, refs, icase, back, x)
  {
    hide MatchBackRef, ValidState, AllFollow;
  }

  lemma BackRefRun(e: Env, refs: seq<nat>, icase: bool, cc: nat, back: bool, x: Out)
    requires x.pos <= |e.input| && 2 * cc <= |x.slots|
    ensures Groups(BackRef(refs, icase)) == 0
    ensures var q := BackRefEnd(e, refs, icase, back, x.slots, x.pos);
      && (q == -1 || q >= 0)
      && RunMatch(e, BackRef(refs, icase), cc, back, x) == if q == -1 then [] else [x.(pos := q)]
  {
    hide BackRefEnd;
  }

  /** The machine's comparison loop decides what BackreferenceMatcher asks. */
  lemma BackRefAgrees(e: Env, refs: seq<nat>, icase: bool, back: bool, x: State, s: Out)
    requires Rel(e, x, s)
    ensures var q := BackRefEnd(e, refs, icase, back, s.slots, s.pos);
      && (q == -1 || 0 <= q <= |e.input|)
      && MatchBackRef(e, refs, icase, back, x) == if q == -1 then [] else [x.(pos := q)]
  {
    hide SameText, AllFollow;
    FirstAgree(x, s, refs);
    var g := FirstSet(s.slots, refs);
    if g != -1 {
      var span := FirstCapture(x, refs).value;
      if back {
        CompareBackwardCorrect(e, icase, span.end, span.start, s.pos);
      } else {
        CompareForwardCorrect(e, icase, span.start, span.end, s.pos);
      }
    }
  }

  lemma CleanBackRef(e: Env, refs: seq<nat>, icase: bool, cc: nat, back: bool, x: State, s: Out)
    requires CleanEntry(e, BackRef(refs, icase), cc, x, s)
    ensures RelAll(e, Match(e, BackRef(refs, icase), cc, back, x), RunMatch(e, BackRef(refs, icase), cc, back, s))
  {
    hide MatchBackRef, BackRefEnd, Match, RunMatch, AgreeIn, ValidState, ValidNode;
    CleanFacts(e, BackRef(refs, icase), cc, x, s);
    BackRefMatch(e, refs, icase, cc, back, x);
    BackRefRun(e, refs, icase, cc, back, s);
    BackRefAgrees(e, refs, icase, back, x, s);
    MovedRel(e, x, s);
  }

  // ----- repetition -----

  predicate RepeatEntry(e: Env, b: Node, cc: nat, x: State, s: Out) {
    && ValidNode(b) && Rel(e, x, s) && cc + Groups(b) <= |x.caps|
    && (!NeedInit(b) ==> DeadUnset(b, cc, s))
  }

  predicate RepeatEntries(e: Env, b: Node, cc: nat, ys: seq<State>, zs: seq<Out>) {
    |ys| == |zs| && forall k :: 0 <= k < |ys| ==> RepeatEntry(e, b, cc, ys[k], zs[k])
  }

  lemma EntryIsRel(e: Env, b: Node, cc: nat, x: State, s: Out)
    requires RepeatEntry(e, b, cc, x, s)
    ensures Rel(e, x, s) && ValidState(e, x) && x.pos == s.pos <= |e.input| && |s.slots| == 2 * |x.caps| && cc + Groups(b) <= |x.caps|
  {
    hide ValidNode, DeadUnset, Straight;
  }

  /** A pass with clearing: the atom is entered clean. */
  lemma ResetEntry(e: Env, b: Node, cc: nat, x: State, s: Out)
    requires RepeatEntry(e, b, cc, x, s) && NeedInit(b)
    ensures CleanEntry(e, b, cc, ClearCaps(x, cc, cc + Groups(b)), AtomStart(b, cc, s))
  {
    hide ValidNode, Straight;
    var c, a := ClearCaps(x, cc, cc + Groups(b)), AtomStart(b, cc, s);
    forall j: nat | j < |c.caps| ensures Agree(c, a, j) { assert Agree(x, s, j); }
  }

  /** A pass without clearing: the atom is straight and rewrites all its captures. */
  lemma StaleEntry(e: Env, b: Node, cc: nat, x: State, s: Out)
    requires RepeatEntry(e, b, cc, x, s) && !NeedInit(b)
    ensures AtomStart(b, cc, s) == s && StraightEntry(e, b, cc, ClearCaps(x, cc, cc + Groups(b)), s)
  {
    hide ValidNode, DeadUnset;
  }

  lemma StaleExit(e: Env, b: Node, cc: nat, back: bool, x: State, s: Out, ys: seq<State>, zs: seq<Out>)
    requires RepeatEntry(e, b, cc, x, s)
    requires var c := ClearCaps(x, cc, cc + Groups(b));
      StraightPairs(b, cc, ys, zs) && AllSameCaps(c, ys, cc, cc + Groups(b)) && AllSameSlots(s, zs, cc, cc + Groups(b))
      && AllFollow(e, back, c, ys)
    ensures RepeatEntries(e, b, cc, ys, zs)
  {
    hide ValidNode, DeadUnset, Straight, ValidState, Groups;
    var c := ClearCaps(x, cc, cc + Groups(b));
    forall k | 0 <= k < |ys| ensures RepeatEntry(e, b, cc, ys[k], zs[k]) {
      assert StraightPair(b, cc, ys[k], zs[k]) && SameCaps(c, ys[k], cc, cc + Groups(b)) && SameSlots(s, zs[k], cc, cc + Groups(b));
      forall j: nat | j < |ys[k].caps| ensures Agree(ys[k], zs[k], j) {
        if !(cc <= j < cc + Groups(b)) { assert Agree(x, s, j); }
      }
    }
  }

  lemma RelEntries(e: Env, b: Node, cc: nat, ys: seq<State>, zs: seq<Out>, x: State, hi: nat)
    requires RelAll(e, ys, zs) && ValidNode(b) && NeedInit(b) && cc + Groups(b) <= |x.caps| && AllSameCaps(x, ys, cc, hi)
    ensures RepeatEntries(e, b, cc, ys, zs)
  {
    hide ValidNode, DeadUnset, Straight, Rel, Groups;
  }

  lemma {:induction false} CleanPass(e: Env, b: Node, cc: nat, back: bool, x: State, s: Out)
    requires RepeatEntry(e, b, cc, x, s)
    requires Fits(b, back, |e.input|)
    ensures cc + Groups(b) <= |x.caps| && ValidState(e, ClearCaps(x, cc, cc + Groups(b)))
    ensures AtomStart(b, cc, s).pos <= |e.input| && 2 * (cc + Groups(b)) <= |AtomStart(b, cc, s).slots|
    ensures RepeatEntries(e, b, cc, Match(e, b, cc, back, ClearCaps(x, cc, cc + Groups(b))), RunMatch(e, b, cc, back, AtomStart(b, cc, s)))
    decreases b, 3, 0, 0, 0, 0
  {
    hide *;
    EntryIsRel(e, b, cc, x, s);
    EntryValid(e, b, cc, x, s);
    var c, a := ClearCaps(x, cc, cc + Groups(b)), AtomStart(b, cc, s);
    if NeedInit(b) {
      ResetEntry(e, b, cc, x, s);
      CleanFacts(e, b, cc, c, a);
      CleanRun(e, b, cc, back, c, a);
      MatchFrame(e, b, cc, back, c);
      RelEntries(e, b, cc, Match(e, b, cc, back, c), RunMatch(e, b, cc, back, a), c, cc + Groups(b));
    } else {
      StaleEntry(e, b, cc, x, s);
      EntryFacts(e, b, cc, c, s);
      StraightRun(e, b, cc, back, c, s);
      MatchFrame(e, b, cc, back, c);
      RunFrame(e, b, cc, back, s);
      MatchFollows(e, b, cc, back, c);
      StaleExit(e, b, cc, back, x, s, Match(e, b, cc, back, c), RunMatch(e, b, cc, back, s));
    }
  }

  lemma EntryValid(e: Env, b: Node, cc: nat, x: State, s: Out)
    requires RepeatEntry(e, b, cc, x, s)
    ensures ValidNode(b)
  {
    hide Rel, DeadUnset, Straight;
  }

  lemma {:induction false} StuckEach(e: Env, b: Node, cc: nat, back: bool, max: nat, greedy: bool, x: State, ys: seq<State>)
    requires ValidState(e, x) && cc + Groups(b) <= |x.caps| && max != 0 && AllFollow(e, back, x, ys)
    requires Remaining(e, back, x.pos) == 0
    ensures RepeatEach(e, b, cc, back, 0, max, greedy, x, ys) == []
    decreases |ys|
  {
    hide Repeat, Groups;
    if ys != [] { StuckEach(e, b, cc, back, max, greedy, x, ys[1..]); }
  }

  /** At the end of the subject further passes are rejected, however many are allowed. */
  lemma NoRoomLeft(e: Env, b: Node, cc: nat, back: bool, max: nat, greedy: bool, x: State)
    requires ValidState(e, x) && cc + Groups(b) <= |x.caps| && Remaining(e, back, x.pos) == 0
    ensures Repeat(e, b, cc, back, 0, max, greedy, x) == [x]
  {
    hide *;
    RepeatParts(e, b, cc, back, 0, max, greedy, x);
    if max != 0 { StuckEach(e, b, cc, back, max, greedy, x, Match(e, b, cc, back, ClearCaps(x, cc, cc + Groups(b)))); }
  }

  /** The counted repetition has the outcomes of the one asked for, while its count cannot run out. */
  lemma {:induction false} CleanRepeat(e: Env, b: Node, cc: nat, back: bool, min: nat, max: nat, bound: nat, greedy: bool, x: State, s: Out)
    requires RepeatEntry(e, b, cc, x, s) && Fits(b, back, |e.input|)
    requires x.pos <= |e.input| && SameBound(max, bound, min, Remaining(e, back, x.pos))
    ensures ValidState(e, x) && s.pos <= |e.input| && cc + Groups(b) <= |x.caps| && |s.slots| == 2 * |x.caps|
    ensures RelAll(e, Repeat(e, b, cc, back, min, max, greedy, x), RunRepeat(e, b, cc, back, min, bound, greedy, s))
    decreases b, 4, min, if x.pos <= |e.input| then Remaining(e, back, x.pos) else 0, 1, 0
  {
    hide *;
    EntryIsRel(e, b, cc, x, s);
    RelOne(e, x, s);
    SameBoundZero(max, bound, min, Remaining(e, back, x.pos));
    if bound == 0 {
      RepeatNone(e, b, cc, back, min, greedy, x, s);
      if max != 0 { NoRoomLeft(e, b, cc, back, max, greedy, x); }
    } else {
      CleanPass(e, b, cc, back, x, s);
      var c, a := ClearCaps(x, cc, cc + Groups(b)), AtomStart(b, cc, s);
      var ys, zs := Match(e, b, cc, back, c), RunMatch(e, b, cc, back, a);
      MatchFollows(e, b, cc, back, c);
      RunFollows(e, b, cc, back, a);
      PassFollowsStart(e, b, cc, back, x, s, ys, zs);
      CleanRepeatEach(e, b, cc, back, min, max, bound, greedy, x, s, ys, zs);
      RepeatMore(e, b, cc, back, min, max, bound, greedy, x, s);
      var my, mz := RepeatEach(e, b, cc, back, min, max, greedy, x, ys), RunRepeatEach(e, b, cc, back, min, bound, greedy, s, zs);
      RelConcat(e, my, mz, [x], [s]);
      RelConcat(e, [x], [s], my, mz);
    }
  }

  lemma RelOne(e: Env, x: State, s: Out)
    requires Rel(e, x, s)
    ensures RelAll(e, [x], [s])
  {
    hide Rel;
  }

  lemma RepeatNone(e: Env, b: Node, cc: nat, back: bool, min: nat, greedy: bool, x: State, s: Out)
    requires ValidState(e, x) && s.pos <= |e.input| && cc + Groups(b) <= |x.caps| && |s.slots| == 2 * |x.caps|
    ensures Repeat(e, b, cc, back, min, 0, greedy, x) == [x] && RunRepeat(e, b, cc, back, min, 0, greedy, s) == [s]
  {
  }

  lemma PassFollowsStart(e: Env, b: Node, cc: nat, back: bool, x: State, s: Out, ys: seq<State>, zs: seq<Out>)
    requires AllFollow(e, back, ClearCaps(x, cc, cc + Groups(b)), ys) && AllSlotFollow(e, back, AtomStart(b, cc, s), zs)
    ensures AllFollow(e, back, x, ys) && AllSlotFollow(e, back, s, zs)
  {
    hide ValidState, Straight, Groups;
  }

  lemma {:induction false} RepeatMore(e: Env, b: Node, cc: nat, back: bool, min: nat, max: nat, bound: nat, greedy: bool, x: State, s: Out)
    requires ValidState(e, x) && s.pos <= |e.input| && cc + Groups(b) <= |x.caps| && |s.slots| == 2 * |x.caps| && max != 0 && bound != 0
    ensures ValidState(e, ClearCaps(x, cc, cc + Groups(b)))
    ensures AtomStart(b, cc, s).pos <= |e.input| && 2 * (cc + Groups(b)) <= |AtomStart(b, cc, s).slots|
    ensures var ys, zs := Match(e, b, cc, back, ClearCaps(x, cc, cc + Groups(b))), RunMatch(e, b, cc, back, AtomStart(b, cc, s));
      && AllFollow(e, back, x, ys) && AllSlotFollow(e, back, s, zs)
      && var my, mz := RepeatEach(e, b, cc, back, min, max, greedy, x, ys), RunRepeatEach(e, b, cc, back, min, bound, greedy, s, zs);
      && Repeat(e, b, cc, back, min, max, greedy, x) == (if min != 0 then my else if greedy then my + [x] else [x] + my)
      && RunRepeat(e, b, cc, back, min, bound, greedy, s) == (if min != 0 then mz else if greedy then mz + [s] else [s] + mz)
  {
    hide Match, RunMatch, RepeatEach, RunRepeatEach, Straight, Groups;
  }

  lemma {:induction false} CleanRepeatEach(e: Env, b: Node, cc: nat, back: bool, min: nat, max: nat, bound: nat, greedy: bool, x: State, s: Out, ys: seq<State>, zs: seq<Out>)
    requires RepeatEntry(e, b, cc, x, s) && RepeatEntries(e, b, cc, ys, zs) && max != 0 && bound != 0 && Fits(b, back, |e.input|)
    requires x.pos <= |e.input| && SameBound(max, bound, min, Remaining(e, back, x.pos))
    requires AllFollow(e, back, x, ys) && AllSlotFollow(e, back, s, zs)
    ensures ValidState(e, x) && s.pos <= |e.input| && cc + Groups(b) <= |x.caps| && |s.slots| == 2 * |x.caps|
    ensures RelAll(e, RepeatEach(e, b, cc, back, min, max, greedy, x, ys), RunRepeatEach(e, b, cc, back, min, bound, greedy, s, zs))
    decreases b, 4, min, if x.pos <= |e.input| then Remaining(e, back, x.pos) else 0, 0, |ys|
  {
    hide *;
    EntryIsRel(e, b, cc, x, s);
    RepeatEachUnfold(e, b, cc, back, min, max, bound, greedy, x, s, ys, zs);
    if ys == [] {
      EntriesLength(e, b, cc, ys, zs);
      NoRel(e);
    } else {
      EntriesParts(e, b, cc, ys, zs);
      EntryIsRel(e, b, cc, ys[0], zs[0]);
      FollowsRemaining(e, back, x, ys[0]);
      var my, mz := RepeatEach(e, b, cc, back, min, max, greedy, x, ys[1..]), RunRepeatEach(e, b, cc, back, min, bound, greedy, s, zs[1..]);
      CleanRepeatEach(e, b, cc, back, min, max, bound, greedy, x, s, ys[1..], zs[1..]);
      if min == 0 && ys[0].pos == x.pos {
        NoRel(e);
        RelConcat(e, [], [], my, mz);
      } else {
        PredLess(min);
        SameBoundStep(max, bound, min, Remaining(e, back, x.pos), Remaining(e, back, ys[0].pos));
        CleanRepeat(e, b, cc, back, Pred(min), PredMax(max), PredMax(bound), greedy, ys[0], zs[0]);
        RelConcat(e, Repeat(e, b, cc, back, Pred(min), PredMax(max), greedy, ys[0]),
          RunRepeat(e, b, cc, back, Pred(min), PredMax(bound), greedy, zs[0]), my, mz);
      }
    }
  }

  lemma PredLess(m: nat)
    ensures m != 0 ==> Pred(m) < m
    ensures m == 0 ==> Pred(m) == 0
  {
  }

  lemma FollowsRemaining(e: Env, back: bool, x: State, y: State)
    requires ValidState(e, x) && Follows(e, back, x, y)
    ensures Remaining(e, back, y.pos) <= Remaining(e, back, x.pos)
    ensures y.pos != x.pos ==> Remaining(e, back, y.pos) < Remaining(e, back, x.pos)
  {
  }

  lemma EntriesLength(e: Env, b: Node, cc: nat, ys: seq<State>, zs: seq<Out>)
    requires RepeatEntries(e, b, cc, ys, zs)
    ensures |ys| == |zs|
  {
    hide RepeatEntry;
  }

  lemma EntriesParts(e: Env, b: Node, cc: nat, ys: seq<State>, zs: seq<Out>)
    requires RepeatEntries(e, b, cc, ys, zs) && ys != []
    ensures zs != [] && RepeatEntry(e, b, cc, ys[0], zs[0]) && RepeatEntries(e, b, cc, ys[1..], zs[1..])
  {
    hide RepeatEntry;
  }

  lemma RepeatEachUnfold(e: Env, b: Node, cc: nat, back: bool, min: nat, max: nat, bound: nat, greedy: bool, x: State, s: Out, ys: seq<State>, zs: seq<Out>)
    requires ValidState(e, x) && s.pos <= |e.input| && cc + Groups(b) <= |x.caps| && |s.slots| == 2 * |x.caps| && max != 0 && bound != 0
    requires AllFollow(e, back, x, ys) && AllSlotFollow(e, back, s, zs)
    ensures ys == [] ==> RepeatEach(e, b, cc, back, min, max, greedy, x, ys) == []
    ensures zs == [] ==> RunRepeatEach(e, b, cc, back, min, bound, greedy, s, zs) == []
    ensures ys != [] ==>
      && Follows(e, back, x, ys[0]) && ValidState(e, ys[0]) && |ys[0].caps| == |x.caps| && AllFollow(e, back, x, ys[1..])
      && RepeatEach(e, b, cc, back, min, max, greedy, x, ys) ==
           (if min == 0 && ys[0].pos == x.pos then [] else Repeat(e, b, cc, back, Pred(min), PredMax(max), greedy, ys[0]))
           + RepeatEach(e, b, cc, back, min, max, greedy, x, ys[1..])
    ensures zs != [] ==>
      && zs[0].pos <= |e.input| && |zs[0].slots| == |s.slots| && AllSlotFollow(e, back, s, zs[1..])
      && RunRepeatEach(e, b, cc, back, min, bound, greedy, s, zs) ==
           (if min == 0 && zs[0].pos == s.pos then [] else RunRepeat(e, b, cc, back, Pred(min), PredMax(bound), greedy, zs[0]))
           + RunRepeatEach(e, b, cc, back, min, bound, greedy, s, zs[1..])
  {
    hide Repeat, RunRepeat, Groups;
  }

  lemma QuantEntry(e: Env, b: Node, min: nat, max: nat, greedy: bool, cc: nat, x: State, s: Out)
    requires CleanEntry(e, Quant(b, min, max, greedy), cc, x, s)
    ensures RepeatEntry(e, b, cc, x, QuantStart(b, cc, min, s))
  {
    var s0 := QuantStart(b, cc, min, s);
    assert s0.slots == s.slots;
    UnsetIsDeadUnset(b, cc, s);
  }

  lemma {:induction false} CleanQuant(e: Env, b: Node, min: nat, max: nat, greedy: bool, cc: nat, back: bool, x: State, s: Out)
    requires CleanEntry(e, Quant(b, min, max, greedy), cc, x, s)
    requires Fits(Quant(b, min, max, greedy), back, |e.input|)
    ensures RelAll(e, Match(e, Quant(b, min, max, greedy), cc, back, x), RunMatch(e, Quant(b, min, max, greedy), cc, back, s))
    decreases Quant(b, min, max, greedy), 0, 0, 0, 0, 0
  {
    hide *;
    CleanFacts(e, Quant(b, min, max, greedy), cc, x, s);
    QuantEntry(e, b, min, max, greedy, cc, x, s);
    EntryIsRel(e, b, cc, x, QuantStart(b, cc, min, s));
    QuantMatch(e, b, min, max, greedy, cc, back, x);
    QuantStartLength(b, cc, min, s);
    QuantUnfold(e, b, min, max, greedy, cc, back, s);
    FitsParts(Quant(b, min, max, greedy), back, |e.input|);
    QuantRange(b, min, max, greedy, cc, x, s, e);
    RoomAtMost(e, back, x);
    MachineBound(b, back, min, max, |e.input|, Remaining(e, back, x.pos));
    CleanRepeat(e, b, cc, back, min, Upper(max), MachineMax(b, back, min, max), greedy, x, QuantStart(b, cc, min, s));
  }

  lemma QuantRange(b: Node, min: nat, max: nat, greedy: bool, cc: nat, x: State, s: Out, e: Env)
    requires CleanEntry(e, Quant(b, min, max, greedy), cc, x, s)
    ensures min <= max <= INT32_MAX
  {
    hide Rel, Undefined, SlotsUnset;
  }

  lemma RoomAtMost(e: Env, back: bool, x: State)
    requires ValidState(e, x)
    ensures x.pos <= |e.input| && Remaining(e, back, x.pos) <= |e.input|
  {
  }

  lemma QuantStartLength(b: Node, cc: nat, min: nat, s: Out)
    ensures |QuantStart(b, cc, min, s).slots| == |s.slots|
  {
    hide Straight, Groups;
  }

  // ----- a whole pattern -----

  /** The capture array at the start of a match, before capture 0 is recorded. */
  function StartSlots(captures: nat): seq<int> {
    seq(2 * captures, _ => UNSET)
  }

  /** From an untouched capture array the compiled semantics and ECMA-262 have the same outcomes. */
  lemma RunMatchIsMatch(e: Env, n: Node, start: nat)
    requires ValidNode(n) && start <= |e.input| && Fits(n, false, |e.input|)
    ensures var captures := 1 + Groups(n);
      var slots := StartSlots(captures)[0 := start];
      RelAll(e, Match(e, n, 1, false, StartState(captures, start)), RunMatch(e, n, 1, false, Out(start, slots)))
  {
    hide Match, RunMatch, ValidNode, Groups, Fits;
    var captures := 1 + Groups(n);
    var x, s := StartState(captures, start), Out(start, StartSlots(captures)[0 := start]);
    forall j: nat | j < |x.caps| ensures Agree(x, s, j) {
    }
    assert CleanEntry(e, n, 1, x, s);
    CleanRun(e, n, 1, false, x, s);
  }
}
