/** Where the compiled semantics and ECMA-262 part: a loop without upper bound that the compiler
  * counts from INT32_MAX down. A family of patterns shows that the condition Fits is exact. */
module CountLimit {
  import opened Wrappers
  import opened RegexSyntax
  import opened Emit
  import opened EcmaMatcher
  import opened SlotMatcher
  import opened CaptureReset
  import opened ProgramRun

  const LETTER_A: nat := 97

  /** `(?:|a)`: matches nothing, or one `a`, in this order. */
  function Atom(): Node { Alt(Empty, Single(Literal(LETTER_A, false))) }

  /** `(?:|a){min,}` */
  function Filler(min: nat): Node { Quant(Atom(), min, INT32_MAX, true) }

  predicate OnlyA(e: Env) {
    forall i :: 0 <= i < |e.input| ==> e.input[i] == LETTER_A
  }

  lemma AtomFacts()
    ensures Groups(Atom()) == 0 && ValidNode(Atom()) && !Scan(Atom(), false).moved && !Straight(Atom())
    ensures forall len: nat :: Fits(Atom(), false, len)
  {
  }

  lemma AtomMatch(e: Env, cc: nat, x: State)
    requires OnlyA(e) && ValidState(e, x) && cc <= |x.caps|
    ensures Groups(Atom()) == 0
    ensures Match(e, Atom(), cc, false, x) == [x] + (if x.pos < |e.input| then [x.(pos := x.pos + 1)] else [])
  {
    AltMatch(e, Empty, Single(Literal(LETTER_A, false)), cc, false, x);
  }

  lemma ClearNothing(x: State, cc: nat)
    ensures ClearCaps(x, cc, cc) == x
  {
    assert ClearCaps(x, cc, cc).caps == x.caps;
  }

  /** Where the outcome of highest priority ends: the forced passes match nothing, the others one
    * letter each while letters and passes last. */
  function FirstEnd(len: nat, pos: nat, min: nat, max: nat): int {
    if max == INFINITE || len < pos + (max - min) then len else pos + (max - min)
  }

  lemma {:induction false} FillerFirst(e: Env, cc: nat, min: nat, max: nat, x: State)
    requires OnlyA(e) && ValidState(e, x) && cc <= |x.caps| && min <= max <= INFINITE
    ensures cc + Groups(Atom()) <= |x.caps|
    ensures var ys := Repeat(e, Atom(), cc, false, min, max, true, x);
      ys != [] && ys[0].pos == FirstEnd(|e.input|, x.pos, min, max)
    decreases min, |e.input| - x.pos
  {
    hide Match, Repeat, RepeatEach, Atom, ClearCaps;
    AtomFacts();
    ClearNothing(x, cc);
    RepeatParts(e, Atom(), cc, false, min, max, true, x);
    if max != 0 {
      AtomMatch(e, cc, x);
      var ys := Match(e, Atom(), cc, false, x);
      RepeatEachParts(e, Atom(), cc, false, min, max, true, x, ys);
      if min != 0 {
        FillerFirst(e, cc, min - 1, PredMax(max), x);
      } else {
        assert ys[1..] == if x.pos < |e.input| then [x.(pos := x.pos + 1)] else [];
        RepeatEachParts(e, Atom(), cc, false, min, max, true, x, ys[1..]);
        if x.pos < |e.input| {
          FillerFirst(e, cc, 0, PredMax(max), x.(pos := x.pos + 1));
        }
      }
    }
  }

  /** The compiled loop has the outcomes of a loop bounded by INT32_MAX. */
  lemma {:induction false} FillerMachine(e: Env, min: nat)
    requires OnlyA(e) && 1 <= min <= INT32_MAX
    ensures var zs := Attempt(e, Filler(min), 0);
      zs != [] && zs[0].pos == FirstEnd(|e.input|, 0, min, INT32_MAX)
  {
    hide *;
    FillerShape(min);
    AttemptUnfold(e, Filler(min), 0);
    StartFacts(1, 0);
    var s := Out(0, StartSlots(1 + Groups(Filler(min)))[0 := 0]);
    var x := StartState(1, 0);
    FillerStart(e, min, x, s);
    AtomFacts();
    QuantUnfold(e, Atom(), min, INT32_MAX, true, 1, false, s);
    var s0 := QuantStart(Atom(), 1, min, s);
    EntryIsRel(e, Atom(), 1, x, s0);
    CleanRepeat(e, Atom(), 1, false, min, INT32_MAX, INT32_MAX, true, x, s0) by { SameBoundSelf(INT32_MAX, min, Remaining(e, false, x.pos)); }
    FillerFirst(e, 1, min, INT32_MAX, x) by { SmallBound(min); }
    FirstRel(e, Repeat(e, Atom(), 1, false, min, INT32_MAX, true, x), RunRepeat(e, Atom(), 1, false, min, INT32_MAX, true, s0));
    RelPos(e, Repeat(e, Atom(), 1, false, min, INT32_MAX, true, x)[0], RunRepeat(e, Atom(), 1, false, min, INT32_MAX, true, s0)[0]);
  }

  lemma SameBoundSelf(max: nat, min: nat, room: nat)
    ensures SameBound(max, max, min, room)
  {
  }

  lemma SmallBound(min: nat)
    requires min <= INT32_MAX
    ensures min <= INT32_MAX <= INFINITE && INT32_MAX == 0x7fff_ffff
  {
  }

  lemma RelPos(e: Env, x: State, s: Out)
    requires Rel(e, x, s)
    ensures x.pos == s.pos
  {
  }

  lemma FillerShape(min: nat)
    requires 1 <= min <= INT32_MAX
    ensures Groups(Filler(min)) == 0 && ValidNode(Filler(min)) && Filler(min) == Quant(Atom(), min, INT32_MAX, true)
    ensures MachineMax(Atom(), false, min, INT32_MAX) == INT32_MAX
    ensures forall len: nat :: Fits(Filler(min), false, len) == (min + len <= INT32_MAX)
  {
    AtomFacts();
  }

  lemma FillerStart(e: Env, min: nat, x: State, s: Out)
    requires min >= 1 && x == StartState(1, 0) && s == Out(0, StartSlots(1)[0 := 0])
    ensures ValidState(e, x) && x.pos == 0 <= |e.input| && |s.slots| == 2 && |x.caps| == 1 && s.pos == 0
    ensures RepeatEntry(e, Atom(), 1, x, QuantStart(Atom(), 1, min, s))
  {
    AtomFacts();
    assert Agree(x, s, 0);
  }

  /** For `(?:|a){min,}` on `len` letters, `min` at least 1, the engine agrees with the standard
    * exactly when min + len does not exceed 2^31 - 1. */
  lemma FillerAgreesIff(e: Env, sticky: bool, min: nat)
    requires OnlyA(e) && 1 <= min <= INT32_MAX
    ensures var n := Filler(min);
      SameAnswer(e, 1 + Groups(n), RegExpExec(e, n, sticky, 0), MachineExec(e, n, sticky, 0)) <==> min + |e.input| <= 0x7fff_ffff
  {
    hide *;
    var n := Filler(min);
    FillerShape(min);
    SmallBound(min);
    if min + |e.input| <= INT32_MAX {
      MachineExecIsRegExpExec(e, n, sticky, 0);
    } else {
      FillerMachine(e, min);
      FillerStandard(e, sticky, min);
      ExecUnfold(e, n, sticky, 0);
      FarApart(|e.input|, min);
      if SameAnswer(e, 1 + Groups(n), RegExpExec(e, n, sticky, 0), MachineExec(e, n, sticky, 0)) {
        SamePos(e, 1 + Groups(n), RegExpExec(e, n, sticky, 0), MachineExec(e, n, sticky, 0));
      }
    }
  }

  lemma FarApart(len: nat, min: nat)
    requires min <= INT32_MAX && min + len > INT32_MAX
    ensures FirstEnd(len, 0, min, INFINITE) != FirstEnd(len, 0, min, INT32_MAX)
  {
  }

  lemma SamePos(e: Env, captures: nat, f: Option<Found>, h: Option<Hit>)
    requires SameAnswer(e, captures, f, h) && f.Some?
    ensures h.Some? && f.value.outcome.pos == h.value.outcome.pos
  {
  }

  lemma FillerStandard(e: Env, sticky: bool, min: nat)
    requires OnlyA(e) && 1 <= min <= INT32_MAX
    ensures var f := RegExpExec(e, Filler(min), sticky, 0);
      f.Some? && f.value.outcome.pos == FirstEnd(|e.input|, 0, min, INFINITE)
  {
    hide Match, Repeat, Atom;
    FillerShape(min);
    RegExpUnfold(e, Filler(min), sticky, 0);
    var x := StartState(1, 0);
    QuantMatch(e, Atom(), min, INT32_MAX, true, 1, false, x);
    FillerFirst(e, 1, min, INFINITE, x);
  }
}
