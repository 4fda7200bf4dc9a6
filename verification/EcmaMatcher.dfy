/** The pattern semantics of section 22.2.2 of ECMA-262, with a matcher read as the finite list of
  * its outcomes in order of priority. */
module EcmaMatcher {
  import opened Wrappers
  import opened RegexSyntax

  datatype Span = Span(start: nat, end: nat)

  /** A MatchState: end index and captures; `caps[j]` is capture group j. */
  datatype State = State(pos: nat, caps: seq<Option<Span>>)

  predicate ValidState(e: Env, x: State) {
    && x.pos <= |e.input|
    && forall j :: 0 <= j < |x.caps| && x.caps[j].Some? ==> x.caps[j].value.start <= x.caps[j].value.end <= |e.input|
  }

  /** What every outcome of a matcher started at `x` satisfies. */
  predicate Follows(e: Env, back: bool, x: State, y: State) {
    Onward(back, x.pos, y.pos) && ValidState(e, y) && |y.caps| == |x.caps|
  }

  predicate AllFollow(e: Env, back: bool, x: State, ys: seq<State>) {
    forall k :: 0 <= k < |ys| ==> Follows(e, back, x, ys[k])
  }

  /** RepeatMatcher step 4: captures lo .. hi-1 become undefined. */
  function ClearCaps(x: State, lo: nat, hi: nat): (r: State)
    ensures r.pos == x.pos && |r.caps| == |x.caps|
    ensures forall j :: 0 <= j < |x.caps| ==> r.caps[j] == if lo <= j < hi then None else x.caps[j]
  {
    x.(caps := seq(|x.caps|, j requires 0 <= j < |x.caps| => if lo <= j < hi then None else x.caps[j]))
  }

  /** The span a back reference reads: the first defined capture among `refs`. */
  function FirstCapture(x: State, refs: seq<nat>): (r: Option<Span>)
    ensures r.Some? ==> exists k :: 0 <= k < |refs| && refs[k] < |x.caps| && x.caps[refs[k]] == r
  {
    if refs == [] then None
    else if refs[0] < |x.caps| && x.caps[refs[0]].Some? then x.caps[refs[0]]
    else FirstCapture(x, refs[1..])
  }

  /** BackreferenceMatcher: compare the captured text with the text next to `pos`. */
  predicate SameText(e: Env, icase: bool, s: Span, at: nat)
    requires s.start <= s.end <= |e.input| && at + (s.end - s.start) <= |e.input|
  {
    forall i :: s.start <= i < s.end ==>
      Canon(e, icase, e.input[i]) == Canon(e, icase, e.input[at + (i - s.start)])
  }

  function MatchBackRef(e: Env, refs: seq<nat>, icase: bool, back: bool, x: State): (r: seq<State>)
    requires ValidState(e, x)
    ensures AllFollow(e, back, x, r)
  {
    match FirstCapture(x, refs)
    case None => [x]
    case Some(s) =>
      var len := s.end - s.start;
      if back then
        if len <= x.pos && SameText(e, icase, s, x.pos - len) then [x.(pos := x.pos - len)] else []
      else
        if x.pos + len <= |e.input| && SameText(e, icase, s, x.pos) then [x.(pos := x.pos + len)] else []
  }

  /** CharacterSetMatcher. */
  function MatchSingle(e: Env, t: CharTest, back: bool, x: State): (r: seq<State>)
    requires ValidState(e, x)
    ensures AllFollow(e, back, x, r)
  {
    if back then
      if 0 < x.pos && TestAccepts(e, t, e.input[x.pos - 1]) then [x.(pos := x.pos - 1)] else []
    else
      if x.pos < |e.input| && TestAccepts(e, t, e.input[x.pos]) then [x.(pos := x.pos + 1)] else []
  }

  /** Outcomes of pattern `n`, whose first capture group has index `cc`, from state `x`. */
  function Match(e: Env, n: Node, cc: nat, back: bool, x: State): (r: seq<State>)
    requires ValidState(e, x) && cc + Groups(n) <= |x.caps|
    ensures AllFollow(e, back, x, r)
    decreases n, 0, 0, 0, 0, 0
  {
    match n
    case Empty => [x]
    case Single(t) => MatchSingle(e, t, back, x)
    case LineStart(multi) => if AtLineStart(e, multi, x.pos) then [x] else []
    case LineEnd(multi) => if AtLineEnd(e, multi, x.pos) then [x] else []
    case WordBoundary(negated, icase) => if AtWordBoundary(e, icase, x.pos) != negated then [x] else []
    case Cat(a, b) =>
      if back then MatchEach(e, a, cc, back, x, Match(e, b, cc + Groups(a), back, x))
      else MatchEach(e, b, cc + Groups(a), back, x, Match(e, a, cc, back, x))
    case Alt(a, b) => Match(e, a, cc, back, x) + Match(e, b, cc + Groups(a), back, x)
    case Group(b) => SetCapture(e, cc, back, x, Match(e, b, cc + 1, back, x))
    case Quant(b, min, max, greedy) => Repeat(e, b, cc, back, min, Upper(max), greedy, x)
    case Look(negated, behind, b) =>
      var ys := Match(e, b, cc, behind, x);
      if negated then (if ys == [] then [x] else [])
      else if ys == [] then [] else [ys[0].(pos := x.pos)]
    case BackRef(refs, icase) => MatchBackRef(e, refs, icase, back, x)
  }

  /** Continue with `n` from each outcome in turn. */
  function MatchEach(e: Env, n: Node, cc: nat, back: bool, x: State, ys: seq<State>): (r: seq<State>)
    requires ValidState(e, x) && cc + Groups(n) <= |x.caps| && AllFollow(e, back, x, ys)
    ensures AllFollow(e, back, x, r)
    decreases n, 2, 0, 0, 0, |ys|
  {
    if ys == [] then [] else
    Match(e, n, cc, back, ys[0]) + MatchEach(e, n, cc, back, x, ys[1..])
  }

  /** End of a group: capture `i` spans from where the group was entered to the outcome. */
  function SetCapture(e: Env, i: nat, back: bool, x: State, ys: seq<State>): (r: seq<State>)
    requires ValidState(e, x) && i < |x.caps| && AllFollow(e, back, x, ys)
    ensures AllFollow(e, back, x, r) && |r| == |ys|
    ensures forall k :: 0 <= k < |r| ==>
      r[k] == ys[k].(caps := ys[k].caps[i := Some(if back then Span(ys[k].pos, x.pos) else Span(x.pos, ys[k].pos))])
  {
    if ys == [] then [] else
    var span := if back then Span(ys[0].pos, x.pos) else Span(x.pos, ys[0].pos);
    [ys[0].(caps := ys[0].caps[i := Some(span)])] + SetCapture(e, i, back, x, ys[1..])
  }

  /** RepeatMatcher (section 22.2.2.3.1); a bound of INFINITE is not counted down. */
  function Repeat(e: Env, b: Node, cc: nat, back: bool, min: nat, max: nat, greedy: bool, x: State): (r: seq<State>)
    requires ValidState(e, x) && cc + Groups(b) <= |x.caps|
    ensures AllFollow(e, back, x, r)
    decreases b, 1, min, Remaining(e, back, x.pos), 1, 0
  {
    if max == 0 then [x] else
    var ys := Match(e, b, cc, back, ClearCaps(x, cc, cc + Groups(b)));
    var more := RepeatEach(e, b, cc, back, min, max, greedy, x, ys);
    if min != 0 then more else if greedy then more + [x] else [x] + more
  }

  function RepeatEach(e: Env, b: Node, cc: nat, back: bool, min: nat, max: nat, greedy: bool, x: State, ys: seq<State>): (r: seq<State>)
    requires ValidState(e, x) && cc + Groups(b) <= |x.caps| && max != 0
    requires AllFollow(e, back, x, ys)
    ensures AllFollow(e, back, x, r)
    decreases b, 1, min, Remaining(e, back, x.pos), 0, |ys|
  {
    if ys == [] then [] else
    var y := ys[0];
    (if min == 0 && y.pos == x.pos then []
     else Repeat(e, b, cc, back, if min == 0 then 0 else min - 1, if max == INFINITE then max else max - 1, greedy, y))
    + RepeatEach(e, b, cc, back, min, max, greedy, x, ys[1..])
  }

  /** The state every match attempt starts in. */
  function StartState(captures: nat, pos: nat): State {
    State(pos, seq(captures, _ => None))
  }

  /** RegExpBuiltinExec: the first index from `start` on at which the pattern has an outcome, with
    * its outcome of highest priority; only `start` itself is tried for a sticky pattern. */
  datatype Found = Found(index: nat, outcome: State)

  function RegExpExec(e: Env, n: Node, sticky: bool, start: nat): Option<Found>
    requires start <= |e.input|
    decreases |e.input| - start
  {
    var ys := Match(e, n, 1, false, StartState(1 + Groups(n), start));
    if ys != [] then Some(Found(start, ys[0]))
    else if sticky || start == |e.input| then None
    else RegExpExec(e, n, sticky, start + 1)
  }

  // ----- the equations of Match, one constructor at a time -----

  lemma CatMatch(e: Env, a: Node, b: Node, cc: nat, back: bool, x: State)
    requires ValidState(e, x) && cc + Groups(a) + Groups(b) <= |x.caps|
    ensures Groups(Cat(a, b)) == Groups(a) + Groups(b)
    ensures AllFollow(e, back, x, if back then Match(e, b, cc + Groups(a), back, x) else Match(e, a, cc, back, x))
    ensures Match(e, Cat(a, b), cc, back, x) ==
      if back then MatchEach(e, a, cc, back, x, Match(e, b, cc + Groups(a), back, x))
      else MatchEach(e, b, cc + Groups(a), back, x, Match(e, a, cc, back, x))
  {
    hide AllFollow, MatchEach, MatchSingle, SetCapture, Repeat, MatchBackRef, AtLineStart, AtLineEnd, AtWordBoundary;
  }

  lemma AltMatch(e: Env, a: Node, b: Node, cc: nat, back: bool, x: State)
    requires ValidState(e, x) && cc + Groups(a) + Groups(b) <= |x.caps|
    ensures Groups(Alt(a, b)) == Groups(a) + Groups(b)
    ensures Match(e, Alt(a, b), cc, back, x) == Match(e, a, cc, back, x) + Match(e, b, cc + Groups(a), back, x)
  {
    hide AllFollow, MatchEach, MatchSingle, SetCapture, Repeat, MatchBackRef, AtLineStart, AtLineEnd, AtWordBoundary;
  }

  lemma GroupMatch(e: Env, b: Node, cc: nat, back: bool, x: State)
    requires ValidState(e, x) && cc + 1 + Groups(b) <= |x.caps|
    ensures Groups(Group(b)) == 1 + Groups(b)
    ensures AllFollow(e, back, x, Match(e, b, cc + 1, back, x))
    ensures Match(e, Group(b), cc, back, x) == SetCapture(e, cc, back, x, Match(e, b, cc + 1, back, x))
  {
    hide AllFollow, MatchEach, MatchSingle, SetCapture, Repeat, MatchBackRef, AtLineStart, AtLineEnd, AtWordBoundary;
  }

  lemma QuantMatch(e: Env, b: Node, min: nat, max: nat, greedy: bool, cc: nat, back: bool, x: State)
    requires ValidState(e, x) && cc + Groups(b) <= |x.caps|
    ensures Groups(Quant(b, min, max, greedy)) == Groups(b)
    ensures Match(e, Quant(b, min, max, greedy), cc, back, x) == Repeat(e, b, cc, back, min, Upper(max), greedy, x)
  {
    hide AllFollow, MatchEach, MatchSingle, SetCapture, Repeat, MatchBackRef, AtLineStart, AtLineEnd, AtWordBoundary;
  }

  function LookResults(negated: bool, x: State, ys: seq<State>): seq<State> {
    if negated then (if ys == [] then [x] else []) else if ys == [] then [] else [ys[0].(pos := x.pos)]
  }

  lemma LookMatch(e: Env, negated: bool, behind: bool, b: Node, cc: nat, back: bool, x: State)
    requires ValidState(e, x) && cc + Groups(b) <= |x.caps|
    ensures Groups(Look(negated, behind, b)) == Groups(b)
    ensures Match(e, Look(negated, behind, b), cc, back, x) == LookResults(negated, x, Match(e, b, cc, behind, x))
  {
    hide AllFollow, MatchEach, MatchSingle, SetCapture, Repeat, MatchBackRef, AtLineStart, AtLineEnd, AtWordBoundary;
  }
}
