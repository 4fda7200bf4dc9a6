/** Section 22.2.2 of ECMA-262 as it is written, with matcher continuations, and its agreement with the lists of
  * outcomes of EcmaMatcher. */
module EcmaContinuation {
  import opened Wrappers
  import opened RegexSyntax
  import opened EcmaMatcher
  import opened EcmaCharacters

  /** A MatcherContinuation; None is failure. */
  type Cont = State -> Option<State>

  /** A Matcher applied to a state and a continuation (section 22.2.2.3 on). The tests of well-formed states in the
    * continuations below only tell Dafny what the states passed to them always satisfy. */
  function Matcher(e: Env, n: Node, cc: nat, back: bool, x: State, c: Cont): Option<State>
    requires ValidState(e, x) && cc + Groups(n) <= |x.caps|
    decreases n, 0, 0, 0, 0
  {
    match n
    case Empty => c(x)
    case Single(t) =>
      var f := if back then x.pos - 1 else x.pos + 1;
      if f < 0 || f > |e.input| then None
      else if !SetHolds(e, t, e.input[if back then f else x.pos]) then None
      else c(x.(pos := f))
    case LineStart(multi) => if StartOfLine(e, multi, x.pos) then c(x) else None
    case LineEnd(multi) => if EndOfLine(e, multi, x.pos) then c(x) else None
    case WordBoundary(negated, icase) => if Boundary(e, icase, x.pos) != negated then c(x) else None
    case Cat(a, b) =>
      if back then Matcher(e, b, cc + Groups(a), back, x, Then(e, a, cc, back, |x.caps|, c))
      else Matcher(e, a, cc, back, x, Then(e, b, cc + Groups(a), back, |x.caps|, c))
    case Alt(a, b) =>
      var r := Matcher(e, a, cc, back, x, c);
      if r.Some? then r else Matcher(e, b, cc + Groups(a), back, x, c)
    case Group(b) => Matcher(e, b, cc + 1, back, x, Capturing(e, cc, back, x, c))
    case Quant(b, min, max, greedy) => RepeatMatcher(e, b, cc, back, min, Upper(max), greedy, x, c)
    case Look(negated, behind, b) =>
      var r := Matcher(e, b, cc, behind, x, y => Some(y));
      if negated then (if r.Some? then None else c(x))
      else if r.None? then None else c(State(x.pos, r.value.caps))
    case BackRef(refs, icase) =>
      (match FirstCapture(x, refs)
       case None => c(x)
       case Some(s) =>
         var len := s.end - s.start;
         var f := if back then x.pos - len else x.pos + len;
         if f < 0 || f > |e.input| then None
         else if !SameText(e, icase, s, if back then f else x.pos) then None
         else c(x.(pos := f)))
  }

  predicate Proper(e: Env, y: State, captures: nat) { ValidState(e, y) && |y.caps| == captures }

  /** MatchSequence: the continuation that runs the second matcher. */
  function Then(e: Env, n: Node, cc: nat, back: bool, captures: nat, c: Cont): Cont
    requires cc + Groups(n) <= captures
    decreases n, 2, 0, 0, 0
  {
    (y: State) => if Proper(e, y, captures) then Matcher(e, n, cc, back, y, c) else None
  }

  /** The continuation that records a capture group entered at x. */
  function Capturing(e: Env, i: nat, back: bool, x: State, c: Cont): Cont
    requires i < |x.caps|
  {
    (y: State) =>
      if Proper(e, y, |x.caps|) then c(y.(caps := y.caps[i := Some(if back then Span(y.pos, x.pos) else Span(x.pos, y.pos))])) else None
  }

  /** RepeatMatcher (section 22.2.2.3.1). */
  function RepeatMatcher(e: Env, b: Node, cc: nat, back: bool, min: nat, max: nat, greedy: bool, x: State, c: Cont): Option<State>
    requires ValidState(e, x) && cc + Groups(b) <= |x.caps|
    decreases b, 1, min, Remaining(e, back, x.pos), 1
  {
    if max == 0 then c(x)
    else
      var d := Again(e, b, cc, back, min, max, greedy, x, c);
      var xr := ClearCaps(x, cc, cc + Groups(b));
      if min != 0 then Matcher(e, b, cc, back, xr, d)
      else if !greedy then
        var z := c(x);
        if z.Some? then z else Matcher(e, b, cc, back, xr, d)
      else
        var z := Matcher(e, b, cc, back, xr, d);
        if z.Some? then z else c(x)
  }

  /** RepeatMatcher step 2: an iteration past the minimum must not be empty. */
  function Again(e: Env, b: Node, cc: nat, back: bool, min: nat, max: nat, greedy: bool, x: State, c: Cont): Cont
    requires ValidState(e, x) && cc + Groups(b) <= |x.caps| && max != 0
    decreases b, 1, min, Remaining(e, back, x.pos), 0
  {
    (y: State) =>
      if !Proper(e, y, |x.caps|) || !Onward(back, x.pos, y.pos) then None
      else if min == 0 && y.pos == x.pos then None
      else RepeatMatcher(e, b, cc, back, if min == 0 then 0 else min - 1, if max == INFINITE then max else max - 1, greedy, y, c)
  }

  // ----- agreement with the lists of outcomes -----

  /** The first outcome with which the continuation succeeds. */
  function First(ys: seq<State>, c: Cont): Option<State> {
    if ys == [] then None else if c(ys[0]).Some? then c(ys[0]) else First(ys[1..], c)
  }

  lemma {:induction false} FirstConcat(ys: seq<State>, zs: seq<State>, c: Cont)
    ensures First(ys + zs, c) == if First(ys, c).Some? then First(ys, c) else First(zs, c)
  {
    if ys == [] {
      assert ys + zs == zs;
    } else {
      assert (ys + zs)[0] == ys[0] && (ys + zs)[1..] == ys[1..] + zs;
      FirstConcat(ys[1..], zs, c);
    }
  }

  lemma FirstOne(y: State, c: Cont)
    ensures First([y], c) == c(y) && First([], c) == None
  {
    assert [y][1..] == [];
  }

  /** Running the second matcher from each outcome of the first. */
  lemma {:induction false} FirstEach(e: Env, n: Node, cc: nat, back: bool, x: State, ys: seq<State>, c: Cont)
    requires ValidState(e, x) && cc + Groups(n) <= |x.caps| && AllFollow(e, back, x, ys)
    ensures First(MatchEach(e, n, cc, back, x, ys), c) == First(ys, Then(e, n, cc, back, |x.caps|, c))
    decreases n, 2, 0, 0, 0, |ys|
  {
    hide Match;
    if ys != [] {
      var y := ys[0];
      assert Follows(e, back, x, y);
      Agrees(e, n, cc, back, y, c);
      FirstConcat(Match(e, n, cc, back, y), MatchEach(e, n, cc, back, x, ys[1..]), c);
      assert AllFollow(e, back, x, ys[1..]);
      FirstEach(e, n, cc, back, x, ys[1..], c);
      assert Then(e, n, cc, back, |x.caps|, c)(y) == Matcher(e, n, cc, back, y, c);
    }
  }

  lemma {:induction false} FirstCaptured(e: Env, i: nat, back: bool, x: State, ys: seq<State>, c: Cont)
    requires ValidState(e, x) && i < |x.caps| && AllFollow(e, back, x, ys)
    ensures First(SetCapture(e, i, back, x, ys), c) == First(ys, Capturing(e, i, back, x, c))
  {
    if ys != [] {
      assert Follows(e, back, x, ys[0]);
      assert AllFollow(e, back, x, ys[1..]);
      FirstCaptured(e, i, back, x, ys[1..], c);
      var zs := SetCapture(e, i, back, x, ys);
      assert zs[1..] == SetCapture(e, i, back, x, ys[1..]);
      assert Capturing(e, i, back, x, c)(ys[0]) == c(zs[0]);
    }
  }

  lemma {:induction false} FirstAgain(e: Env, b: Node, cc: nat, back: bool, min: nat, max: nat, greedy: bool, x: State, ys: seq<State>, c: Cont)
    requires ValidState(e, x) && cc + Groups(b) <= |x.caps| && max != 0 && AllFollow(e, back, x, ys)
    ensures First(RepeatEach(e, b, cc, back, min, max, greedy, x, ys), c) == First(ys, Again(e, b, cc, back, min, max, greedy, x, c))
    decreases b, 1, min, Remaining(e, back, x.pos), 0, |ys|
  {
    hide Match, Repeat, RepeatMatcher;
    if ys != [] {
      var y := ys[0];
      assert Follows(e, back, x, y);
      assert AllFollow(e, back, x, ys[1..]);
      FirstAgain(e, b, cc, back, min, max, greedy, x, ys[1..], c);
      var min', max' := if min == 0 then 0 else min - 1, if max == INFINITE then max else max - 1;
      var here := if min == 0 && y.pos == x.pos then [] else Repeat(e, b, cc, back, min', max', greedy, y);
      if !(min == 0 && y.pos == x.pos) { RepeatAgrees(e, b, cc, back, min', max', greedy, y, c); }
      FirstConcat(here, RepeatEach(e, b, cc, back, min, max, greedy, x, ys[1..]), c);
      assert First(here, c) == Again(e, b, cc, back, min, max, greedy, x, c)(y);
    }
  }

  lemma {:induction false} RepeatAgrees(e: Env, b: Node, cc: nat, back: bool, min: nat, max: nat, greedy: bool, x: State, c: Cont)
    requires ValidState(e, x) && cc + Groups(b) <= |x.caps|
    ensures RepeatMatcher(e, b, cc, back, min, max, greedy, x, c) == First(Repeat(e, b, cc, back, min, max, greedy, x), c)
    decreases b, 1, min, Remaining(e, back, x.pos), 1, 0
  {
    hide Match, Matcher, RepeatEach, First;
    FirstOne(x, c);
    if max != 0 {
      var xr := ClearCaps(x, cc, cc + Groups(b));
      var ys := Match(e, b, cc, back, xr);
      var d := Again(e, b, cc, back, min, max, greedy, x, c);
      Agrees(e, b, cc, back, xr, d);
      FirstAgain(e, b, cc, back, min, max, greedy, x, ys, c);
      var more := RepeatEach(e, b, cc, back, min, max, greedy, x, ys);
      FirstConcat(more, [x], c);
      FirstConcat([x], more, c);
    }
  }

  lemma FirstEnd(ys: seq<State>)
    ensures First(ys, y => Some(y)) == if ys == [] then None else Some(ys[0])
  {
  }

  /** The matchers of the standard deliver the outcomes of Match, in that order, to their continuations. */
  lemma {:induction false} Agrees(e: Env, n: Node, cc: nat, back: bool, x: State, c: Cont)
    requires ValidState(e, x) && cc + Groups(n) <= |x.caps|
    ensures Matcher(e, n, cc, back, x, c) == First(Match(e, n, cc, back, x), c)
    decreases n, 0, 0, 0, 0, 0
  {
    hide First, Match, Matcher, RepeatMatcher, Repeat, MatchEach, SetCapture, Then, Capturing;
    match n {
      case Cat(a, b) =>
        CatMatch(e, a, b, cc, back, x);
        CatMatcher(e, a, b, cc, back, x, c);
        if back {
          Agrees(e, b, cc + Groups(a), back, x, Then(e, a, cc, back, |x.caps|, c));
          FirstEach(e, a, cc, back, x, Match(e, b, cc + Groups(a), back, x), c);
        } else {
          Agrees(e, a, cc, back, x, Then(e, b, cc + Groups(a), back, |x.caps|, c));
          FirstEach(e, b, cc + Groups(a), back, x, Match(e, a, cc, back, x), c);
        }
      case Alt(a, b) =>
        AltMatch(e, a, b, cc, back, x);
        AltMatcher(e, a, b, cc, back, x, c);
        Agrees(e, a, cc, back, x, c);
        Agrees(e, b, cc + Groups(a), back, x, c);
        FirstConcat(Match(e, a, cc, back, x), Match(e, b, cc + Groups(a), back, x), c);
      case Group(b) =>
        GroupMatch(e, b, cc, back, x);
        GroupMatcher(e, b, cc, back, x, c);
        Agrees(e, b, cc + 1, back, x, Capturing(e, cc, back, x, c));
        FirstCaptured(e, cc, back, x, Match(e, b, cc + 1, back, x), c);
      case Quant(b, min, max, greedy) =>
        QuantMatch(e, b, min, max, greedy, cc, back, x);
        QuantMatcher(e, b, min, max, greedy, cc, back, x, c);
        RepeatAgrees(e, b, cc, back, min, Upper(max), greedy, x, c);
      case Look(negated, behind, b) =>
        LookMatch(e, negated, behind, b, cc, back, x);
        LookMatcher(e, negated, behind, b, cc, back, x, c);
        Agrees(e, b, cc, behind, x, y => Some(y));
        FirstEnd(Match(e, b, cc, behind, x));
        LookFirst(e, negated, x, Match(e, b, cc, behind, x), c);
      case _ => LeafAgrees(e, n, cc, back, x, c);
    }
  }

  lemma LookFirst(e: Env, negated: bool, x: State, ys: seq<State>, c: Cont)
    ensures First(LookResults(negated, x, ys), c) ==
      if negated then (if ys != [] then None else c(x)) else if ys == [] then None else c(State(x.pos, ys[0].caps))
  {
    FirstOne(x, c);
    if ys != [] { FirstOne(ys[0].(pos := x.pos), c); }
  }

  lemma LeafAgrees(e: Env, n: Node, cc: nat, back: bool, x: State, c: Cont)
    requires ValidState(e, x) && cc + Groups(n) <= |x.caps|
    requires n.Empty? || n.Single? || n.LineStart? || n.LineEnd? || n.WordBoundary? || n.BackRef?
    ensures Matcher(e, n, cc, back, x, c) == First(Match(e, n, cc, back, x), c)
  {
    hide TestAccepts, AtLineStart, AtLineEnd, AtWordBoundary, SetHolds, StartOfLine, EndOfLine, Boundary, SameText, FirstCapture;
    FirstOne(x, c);
    match n {
      case Single(t) =>
        if x.pos > 0 { SameTests(e, t, e.input[x.pos - 1]); }
        if x.pos < |e.input| { SameTests(e, t, e.input[x.pos]); }
      case LineStart(multi) => SamePositions(e, multi, false, x.pos);
      case LineEnd(multi) => SamePositions(e, multi, false, x.pos);
      case WordBoundary(_, icase) => SamePositions(e, false, icase, x.pos);
      case _ =>
    }
  }

  lemma CatMatcher(e: Env, a: Node, b: Node, cc: nat, back: bool, x: State, c: Cont)
    requires ValidState(e, x) && cc + Groups(a) + Groups(b) <= |x.caps|
    ensures Groups(Cat(a, b)) == Groups(a) + Groups(b)
    ensures Matcher(e, Cat(a, b), cc, back, x, c) ==
      if back then Matcher(e, b, cc + Groups(a), back, x, Then(e, a, cc, back, |x.caps|, c))
      else Matcher(e, a, cc, back, x, Then(e, b, cc + Groups(a), back, |x.caps|, c))
  {
    hide Then, RepeatMatcher, Capturing;
  }

  lemma AltMatcher(e: Env, a: Node, b: Node, cc: nat, back: bool, x: State, c: Cont)
    requires ValidState(e, x) && cc + Groups(a) + Groups(b) <= |x.caps|
    ensures Groups(Alt(a, b)) == Groups(a) + Groups(b)
    ensures var r := Matcher(e, a, cc, back, x, c);
      Matcher(e, Alt(a, b), cc, back, x, c) == if r.Some? then r else Matcher(e, b, cc + Groups(a), back, x, c)
  {
    hide Then, RepeatMatcher, Capturing;
  }

  lemma GroupMatcher(e: Env, b: Node, cc: nat, back: bool, x: State, c: Cont)
    requires ValidState(e, x) && cc + 1 + Groups(b) <= |x.caps|
    ensures Groups(Group(b)) == 1 + Groups(b)
    ensures Matcher(e, Group(b), cc, back, x, c) == Matcher(e, b, cc + 1, back, x, Capturing(e, cc, back, x, c))
  {
    hide Then, RepeatMatcher, Capturing;
  }

  lemma QuantMatcher(e: Env, b: Node, min: nat, max: nat, greedy: bool, cc: nat, back: bool, x: State, c: Cont)
    requires ValidState(e, x) && cc + Groups(b) <= |x.caps|
    ensures Groups(Quant(b, min, max, greedy)) == Groups(b)
    ensures Matcher(e, Quant(b, min, max, greedy), cc, back, x, c) == RepeatMatcher(e, b, cc, back, min, Upper(max), greedy, x, c)
  {
    hide Then, RepeatMatcher, Capturing;
  }

  lemma LookMatcher(e: Env, negated: bool, behind: bool, b: Node, cc: nat, back: bool, x: State, c: Cont)
    requires ValidState(e, x) && cc + Groups(b) <= |x.caps|
    ensures Groups(Look(negated, behind, b)) == Groups(b)
    ensures var r := Matcher(e, b, cc, behind, x, y => Some(y));
      Matcher(e, Look(negated, behind, b), cc, back, x, c) ==
        if negated then (if r.Some? then None else c(x)) else if r.None? then None else c(State(x.pos, r.value.caps))
  {
    hide Then, RepeatMatcher, Capturing;
  }

  /** The loop of RegExpBuiltinExec (section 22.2.7.2): try each index with the continuation that returns its state. */
  function BuiltinExec(e: Env, n: Node, sticky: bool, lastIndex: nat): Option<Found>
    requires lastIndex <= |e.input|
    decreases |e.input| - lastIndex
  {
    var r := Matcher(e, n, 1, false, StartState(1 + Groups(n), lastIndex), y => Some(y));
    if r.Some? then Some(Found(lastIndex, r.value))
    else if sticky || lastIndex == |e.input| then None
    else BuiltinExec(e, n, sticky, lastIndex + 1)
  }

  /** The answer of the standard is that of RegExpExec. */
  lemma {:induction false} BuiltinExecIsRegExpExec(e: Env, n: Node, sticky: bool, start: nat)
    requires start <= |e.input|
    ensures BuiltinExec(e, n, sticky, start) == RegExpExec(e, n, sticky, start)
    decreases |e.input| - start
  {
    hide Matcher, Match, First;
    var x := StartState(1 + Groups(n), start);
    Agrees(e, n, 1, false, x, y => Some(y));
    FirstEnd(Match(e, n, 1, false, x));
    if start < |e.input| { BuiltinExecIsRegExpExec(e, n, sticky, start + 1); }
  }
}
