/** What a class with strings matches: forward, its longest member first; in a lookbehind, not its members. */
module StringMatch {
  import opened Wrappers
  import opened RegexSyntax
  import opened Bytecode
  import opened Emit
  import opened SlotMatcher
  import opened SnapshotVm
  import opened Yields
  import opened Execute
  import opened Simulation
  import opened StringClass

  /** The string s stands in the subject at position i. */
  predicate Occurs(e: Env, s: seq<nat>, icase: bool, i: int) {
    0 <= i && i + |s| <= |e.input| && forall k :: 0 <= k < |s| ==> Canon(e, icase, s[k]) == Canon(e, icase, e.input[i + k])
  }

  lemma EachOne(e: Env, n: Node, cc: nat, back: bool, x: Out, ys: seq<Out>)
    requires x.pos <= |e.input| && 2 * (cc + Groups(n)) <= |x.slots| && AllSlotFollow(e, back, x, ys) && |ys| <= 1
    ensures RunEach(e, n, cc, back, x, ys) == if ys == [] then [] else RunMatch(e, n, cc, back, ys[0])
  {
    hide RunMatch;
    if ys != [] {
      assert ys[1..] == [];
      assert RunEach(e, n, cc, back, x, ys[1..]) == [];
    }
  }

  lemma SingleUnfold(e: Env, t: CharTest, cc: nat, back: bool, x: Out)
    requires x.pos <= |e.input| && 2 * cc <= |x.slots|
    ensures RunMatch(e, Single(t), cc, back, x) == RunSingle(e, t, back, x) && Groups(Single(t)) == 0
  {
  }

  lemma EmptyUnfold(e: Env, cc: nat, back: bool, x: Out)
    requires x.pos <= |e.input| && 2 * cc <= |x.slots|
    ensures RunMatch(e, Empty, cc, back, x) == [x] && Groups(Empty) == 0
  {
  }

  lemma OccursMore(e: Env, s: seq<nat>, icase: bool, i: int)
    requires s != []
    ensures (var n := |s| - 1;
      Occurs(e, s, icase, i) <==> Occurs(e, s[..n], icase, i) && i + n < |e.input| && Canon(e, icase, s[n]) == Canon(e, icase, e.input[i + n]))
  {
  }

  lemma StringGroups(s: seq<nat>, icase: bool)
    ensures Groups(StringNode(s, icase)) == 0
  {
  }

  /** A string, read in either direction, matches exactly where it stands. */
  lemma {:induction false} StringRuns(e: Env, s: seq<nat>, icase: bool, cc: nat, back: bool, x: Out)
    requires x.pos <= |e.input| && 2 * cc <= |x.slots|
    ensures Groups(StringNode(s, icase)) == 0
    ensures RunMatch(e, StringNode(s, icase), cc, back, x) ==
      if back then (if Occurs(e, s, icase, x.pos - |s|) then [x.(pos := x.pos - |s|)] else [])
      else (if Occurs(e, s, icase, x.pos) then [x.(pos := x.pos + |s|)] else [])
    decreases |s|
  {
    hide RunMatch, RunEach, Occurs, Groups, Canon, AllSlotFollow;
    StringGroups(s, icase);
    if s == [] {
      EmptyUnfold(e, cc, back, x);
      NothingOccurs(e, icase, x.pos);
    } else {
      var n := |s| - 1;
      var p, t := s[..n], Literal(s[n], icase);
      StringGroups(p, icase);
      SingleUnfold(e, t, cc, back, x);
      CatUnfold(e, StringNode(p, icase), Single(t), cc, back, x);
      var at := if back then x.pos - |s| else x.pos;
      OccursMore(e, s, icase, at);
      if back {
        var ys := RunSingle(e, t, true, x);
        EachOne(e, StringNode(p, icase), cc, true, x, ys);
        if ys != [] { StringRuns(e, p, icase, cc, true, ys[0]); }
        NoOccurrence(e, p, icase, at);
      } else {
        StringRuns(e, p, icase, cc, false, x);
        NoOccurrence(e, p, icase, x.pos);
        var ys := RunMatch(e, StringNode(p, icase), cc, false, x);
        EachOne(e, Single(t), cc, false, x, ys);
        if ys != [] { SingleUnfold(e, t, cc, false, ys[0]); }
      }
    }
  }

  lemma NothingOccurs(e: Env, icase: bool, i: nat)
    requires i <= |e.input|
    ensures Occurs(e, [], icase, i)
  {
  }

  lemma NoOccurrence(e: Env, s: seq<nat>, icase: bool, i: int)
    ensures Occurs(e, s, icase, i) ==> 0 <= i && i + |s| <= |e.input|
  {
  }

  // ----- the members of a class, longest first -----

  function ClassEnds(e: Env, points: seq<nat>, icase: bool, x: Out): seq<Out>
    requires x.pos <= |e.input|
  {
    if points == [] then [] else RunSingle(e, Class(points, icase), false, x)
  }

  /** The outcomes of the class at x: one for each member that stands there. */
  function Ends(e: Env, strs: seq<seq<nat>>, points: seq<nat>, hasEmpty: bool, icase: bool, x: Out): seq<Out>
    requires x.pos <= |e.input|
  {
    if strs == [] then ClassEnds(e, points, icase, x) + (if hasEmpty then [x] else [])
    else (if Occurs(e, strs[0], icase, x.pos) then [x.(pos := x.pos + |strs[0]|)] else []) + Ends(e, strs[1..], points, hasEmpty, icase, x)
  }

  predicate SomeMember(strs: seq<seq<nat>>, points: seq<nat>, hasEmpty: bool) { strs != [] || points != [] || hasEmpty }

  lemma TailRuns(e: Env, points: seq<nat>, hasEmpty: bool, icase: bool, cc: nat, x: Out)
    requires x.pos <= |e.input| && 2 * cc <= |x.slots| && SomeMember([], points, hasEmpty)
    ensures Groups(TailNode(points, hasEmpty, icase)) == 0
    ensures RunMatch(e, TailNode(points, hasEmpty, icase), cc, false, x) == Ends(e, [], points, hasEmpty, icase, x)
  {
    hide TestAccepts, RunMatch;
    var one := Single(Class(points, icase));
    SingleUnfold(e, one.test, cc, false, x);
    EmptyUnfold(e, cc, false, x);
    if points != [] && hasEmpty {
      QuantUnfold(e, one, 0, 1, true, cc, false, x);
      OptionalRuns(e, one, cc, x);
    }
  }

  lemma OptionalRuns(e: Env, one: Node, cc: nat, x: Out)
    requires one.Single? && x.pos <= |e.input| && 2 * cc <= |x.slots|
    ensures Groups(one) == 0 && MachineMax(one, false, 0, 1) == 1 && QuantStart(one, cc, 0, x) == x
    ensures RunRepeat(e, one, cc, false, 0, 1, true, x) == RunSingle(e, one.test, false, x) + [x]
  {
    hide TestAccepts, RunMatch;
    assert AtomStart(one, cc, x) == x;
    SingleUnfold(e, one.test, cc, false, x);
    var ys := RunSingle(e, one.test, false, x);
    var more := RunRepeatEach(e, one, cc, false, 0, 1, true, x, ys);
    if ys != [] {
      assert ys == [ys[0]] && ys[1..] == [];
      assert RunRepeat(e, one, cc, false, 0, 0, true, ys[0]) == [ys[0]];
      assert RunRepeatEach(e, one, cc, false, 0, 1, true, x, ys[1..]) == [];
      assert more == [ys[0]] + [];
    }
    assert more == ys;
  }

  lemma {:induction false} ListGroups(strs: seq<seq<nat>>, points: seq<nat>, hasEmpty: bool, icase: bool)
    ensures Groups(ListNode(strs, points, hasEmpty, icase)) == 0
  {
    if strs != [] {
      StringGroups(strs[0], icase);
      ListGroups(strs[1..], points, hasEmpty, icase);
    }
  }

  /** Forward, the alternatives deliver the members in the order of the list. */
  lemma {:induction false} ListRuns(e: Env, strs: seq<seq<nat>>, points: seq<nat>, hasEmpty: bool, icase: bool, cc: nat, x: Out)
    requires x.pos <= |e.input| && 2 * cc <= |x.slots| && SomeMember(strs, points, hasEmpty)
    ensures Groups(ListNode(strs, points, hasEmpty, icase)) == 0
    ensures RunMatch(e, ListNode(strs, points, hasEmpty, icase), cc, false, x) == Ends(e, strs, points, hasEmpty, icase, x)
  {
    hide RunMatch, Occurs, StringNode, TailNode, Groups, TestAccepts;
    ListGroups(strs, points, hasEmpty, icase);
    if strs == [] {
      TailRuns(e, points, hasEmpty, icase, cc, x);
    } else {
      StringRuns(e, strs[0], icase, cc, false, x);
      if IsLast(strs, points, hasEmpty) {
        assert strs[1..] == [];
        assert Ends(e, strs[1..], points, hasEmpty, icase, x) == [];
      } else {
        ListGroups(strs[1..], points, hasEmpty, icase);
        ListRuns(e, strs[1..], points, hasEmpty, icase, cc, x);
        AltUnfold(e, StringNode(strs[0], icase), ListNode(strs[1..], points, hasEmpty, icase), cc, false, x);
      }
    }
  }

  /** An outcome that a member accounts for. */
  ghost predicate MemberEnd(e: Env, strs: seq<seq<nat>>, points: seq<nat>, hasEmpty: bool, icase: bool, x: Out, y: Out) {
    || (exists k :: 0 <= k < |strs| && Occurs(e, strs[k], icase, x.pos) && y == x.(pos := x.pos + |strs[k]|))
    || (points != [] && x.pos < |e.input| && InPoints(points, Canon(e, icase, e.input[x.pos])) && y == x.(pos := x.pos + 1))
    || (hasEmpty && y == x)
  }

  lemma {:induction false} MembersOnly(e: Env, strs: seq<seq<nat>>, points: seq<nat>, hasEmpty: bool, icase: bool, x: Out, y: Out)
    requires x.pos <= |e.input|
    ensures y in Ends(e, strs, points, hasEmpty, icase, x) <==> MemberEnd(e, strs, points, hasEmpty, icase, x, y)
  {
    hide Occurs, InPoints, Canon;
    if strs != [] {
      MembersOnly(e, strs[1..], points, hasEmpty, icase, x, y);
      MemberHead(e, strs, points, hasEmpty, icase, x, y);
    }
  }

  predicate Descending(ys: seq<Out>, bound: nat) {
    (forall i, j :: 0 <= i < j < |ys| ==> ys[i].pos >= ys[j].pos) && forall i :: 0 <= i < |ys| ==> ys[i].pos <= bound
  }

  lemma TailEnds(e: Env, points: seq<nat>, hasEmpty: bool, icase: bool, x: Out)
    requires x.pos <= |e.input|
    ensures Descending(Ends(e, [], points, hasEmpty, icase, x), x.pos + 1)
  {
    hide TestAccepts;
  }

  lemma DescendingCons(y: Out, ys: seq<Out>, bound: nat)
    requires Descending(ys, bound) && bound <= y.pos
    ensures Descending([y] + ys, y.pos) && Descending(ys, y.pos)
  {
  }

  lemma {:induction false} LongestFirstEnds(e: Env, strs: seq<seq<nat>>, points: seq<nat>, hasEmpty: bool, icase: bool, x: Out)
    requires x.pos <= |e.input| && LongestFirst(strs) && forall k :: 0 <= k < |strs| ==> strs[k] != []
    ensures Descending(Ends(e, strs, points, hasEmpty, icase, x), if strs == [] then x.pos + 1 else x.pos + |strs[0]|)
  {
    hide Occurs, TestAccepts, Descending;
    if strs == [] {
      TailEnds(e, points, hasEmpty, icase, x);
    } else {
      var rest := strs[1..];
      assert rest != [] ==> rest[0] == strs[1];
      LongestFirstEnds(e, rest, points, hasEmpty, icase, x);
      var zs := Ends(e, rest, points, hasEmpty, icase, x);
      DescendingCons(x.(pos := x.pos + |strs[0]|), zs, if rest == [] then x.pos + 1 else x.pos + |rest[0]|);
      assert [] + zs == zs;
    }
  }

  /** Every member that stands at x, and nothing else, is delivered, and with the strings sorted by length no longer
    * one comes after a shorter one. */
  lemma LongestMemberFirst(e: Env, strs: seq<seq<nat>>, points: seq<nat>, hasEmpty: bool, icase: bool, cc: nat, x: Out)
    requires x.pos <= |e.input| && 2 * cc <= |x.slots| && SomeMember(strs, points, hasEmpty)
    requires LongestFirst(strs) && forall k :: 0 <= k < |strs| ==> strs[k] != []
    ensures Groups(ListNode(strs, points, hasEmpty, icase)) == 0
    ensures (var ys := RunMatch(e, ListNode(strs, points, hasEmpty, icase), cc, false, x);
      && (forall y :: y in ys <==> MemberEnd(e, strs, points, hasEmpty, icase, x, y))
      && (forall i, j :: 0 <= i < j < |ys| ==> ys[i].pos >= ys[j].pos))
  {
    hide *;
    ListRuns(e, strs, points, hasEmpty, icase, cc, x);
    var ys := Ends(e, strs, points, hasEmpty, icase, x);
    LongestFirstEnds(e, strs, points, hasEmpty, icase, x);
    DescendingPairs(ys, if strs == [] then x.pos + 1 else x.pos + |strs[0]|);
    forall y ensures y in ys <==> MemberEnd(e, strs, points, hasEmpty, icase, x, y) {
      MembersOnly(e, strs, points, hasEmpty, icase, x, y);
    }
  }

  lemma DescendingPairs(ys: seq<Out>, bound: nat)
    requires Descending(ys, bound)
    ensures forall i, j :: 0 <= i < j < |ys| ==> ys[i].pos >= ys[j].pos
  {
  }

  lemma MemberHead(e: Env, strs: seq<seq<nat>>, points: seq<nat>, hasEmpty: bool, icase: bool, x: Out, y: Out)
    requires strs != []
    ensures MemberEnd(e, strs, points, hasEmpty, icase, x, y) <==>
      (Occurs(e, strs[0], icase, x.pos) && y == x.(pos := x.pos + |strs[0]|)) || MemberEnd(e, strs[1..], points, hasEmpty, icase, x, y)
  {
    hide Occurs, InPoints;
    var rest := strs[1..];
    if k :| 0 <= k < |strs| && Occurs(e, strs[k], icase, x.pos) && y == x.(pos := x.pos + |strs[k]|) {
      if k > 0 { var j := k - 1; assert rest[j] == strs[k]; }
    }
    if k :| 0 <= k < |rest| && Occurs(e, rest[k], icase, x.pos) && y == x.(pos := x.pos + |rest[k]|) {
      var j := k + 1;
      assert strs[j] == rest[k];
    }
  }

  // ----- in a lookbehind -----

  /** One step back from each outcome. */
  function StepBack(ys: seq<Out>): seq<Out> {
    if ys == [] then [] else (if ys[0].pos == 0 then [] else [ys[0].(pos := ys[0].pos - 1)]) + StepBack(ys[1..])
  }

  lemma {:induction false} DeliverPrev(p: Prog, c: Cfg, ys: seq<Out>, pc: int, base: seq<Frame>, regs: seq<int>, d: nat)
    requires Fetch(p.code, pc) == Some(IPrev) && Delivers(p, c, ys, pc, base, regs, d) && forall k :: 0 <= k < |ys| ==> ys[k].pos > 0
    ensures Delivers(p, c, StepBack(ys), pc + 1, base, regs, d)
    decreases |ys|
  {
    hide Reaches, Fetch, FailTo;
    if ys != [] {
      var st, regs' :| Lands(p, c, ys[0], pc, base, regs, d, st, regs') && Delivers(p, FailTo(st), ys[1..], pc, base, regs, d);
      var zs := StepBack(ys);
      RunPrev(p, pc, ys[0], regs', st);
      ReachesTrans(p, c, At(pc, ys[0], regs', st), At(pc + 1, zs[0], regs', st));
      DeliverPrev(p, FailTo(st), ys[1..], pc, base, regs, d);
      assert zs[1..] == StepBack(ys[1..]);
      assert Lands(p, c, zs[0], pc + 1, base, regs, d, st, regs');
    }
  }

  /** In a lookbehind a class is read forward between two steps back, whatever the lengths of its members. */
  function BackwardEnds(e: Env, s: seq<nat>, icase: bool, x: Out): seq<Out> {
    if x.pos > 0 && Occurs(e, s, icase, x.pos - 1) && x.pos + |s| >= 2 then [x.(pos := x.pos + |s| - 2)] else []
  }

  lemma {:induction false} StringStatic(s: seq<nat>, icase: bool, captures: nat)
    ensures Depth(StringNode(s, icase), false) == 0 && RefsBelow(StringNode(s, icase), captures)
  {
    if s != [] { StringStatic(s[..|s| - 1], icase, captures); }
  }

  /** What the machine does with a string member in a lookbehind. */
  lemma BackwardRuns(p: Prog, s: seq<nat>, icase: bool, cc: nat, d: nat, pc: int, x: Out, regs: seq<int>, base: seq<Frame>)
    requires ValidEnv(p.env) && ParsedString(p.env, s, icase) && ValidNode(StringNode(s, icase))
    requires cc <= p.captures && |x.slots| == 2 * p.captures && x.pos <= |p.env.input| && d <= |regs|
    requires HasCode(p.code, pc, [IPrev] + Code(p.env, StringNode(s, icase), cc, false, true, d) + [IPrev])
    ensures Delivers(p, At(pc, x, regs, base), BackwardEnds(p.env, s, icase, x),
      pc + Size([IPrev] + Code(p.env, StringNode(s, icase), cc, false, true, d) + [IPrev]), base, regs, d)
  {
    hide *;
    var n := StringNode(s, icase);
    var body := Code(p.env, n, cc, false, true, d);
    var c := At(pc, x, regs, base);
    WrapLayout(p.code, pc, IPrev, body, IPrev);
    PrevSize();
    RunPrev(p, pc, x, regs, base);
    var end := pc + 1 + Size(body) + 1;
    if x.pos == 0 {
      DeliverNone(p, c, end, base, regs, d);
      AtStart(p.env, s, icase, x);
    } else {
      var y := x.(pos := x.pos - 1);
      StringGroups(s, icase);
      StringStatic(s, icase, p.captures);
      IsReady(p, n, cc, d, pc + 1, y, regs);
      Simulate(p, n, cc, false, d, pc + 1, y, regs, base);
      StringRuns(p.env, s, icase, cc, false, y);
      NoOccurrence(p.env, s, icase, y.pos);
      var ys := RunMatch(p.env, n, cc, false, y);
      AfterString(p.env, s, icase, x, y, ys);
      if ys == [] || ys[0].pos > 0 {
        DeliverPrev(p, At(pc + 1, y, regs, base), ys, pc + 1 + Size(body), base, regs, d);
        DeliverAfter(p, c, At(pc + 1, y, regs, base), StepBack(ys), end, base, regs, d);
      } else {
        DeliverStart(p, At(pc + 1, y, regs, base), ys, pc + 1 + Size(body), base, regs, d);
        DeliverAfter(p, c, At(pc + 1, y, regs, base), [], end, base, regs, d);
      }
    }
  }

  lemma AtStart(e: Env, s: seq<nat>, icase: bool, x: Out)
    requires x.pos == 0
    ensures BackwardEnds(e, s, icase, x) == []
  {
  }

  lemma IsReady(p: Prog, n: Node, cc: nat, d: nat, pc: int, x: Out, regs: seq<int>)
    requires ValidEnv(p.env) && ValidNode(n) && RefsBelow(n, p.captures) && Groups(n) == 0 && Depth(n, false) == 0
    requires cc <= p.captures && |x.slots| == 2 * p.captures && x.pos <= |p.env.input| && d <= |regs|
    requires HasCode(p.code, pc, Code(p.env, n, cc, false, true, d))
    ensures Ready(p, n, cc, false, d, pc, x, regs) && EndPc(p, n, cc, false, d, pc) == pc + Size(Code(p.env, n, cc, false, true, d))
    ensures 2 * (cc + Groups(n)) <= |x.slots|
  {
    hide HasCode, Code, ValidNode, RefsBelow, Depth, Groups, ValidEnv, Size;
  }

  lemma AfterString(e: Env, s: seq<nat>, icase: bool, x: Out, y: Out, ys: seq<Out>)
    requires x.pos > 0 && y == x.(pos := x.pos - 1)
    requires ys == if Occurs(e, s, icase, y.pos) then [y.(pos := y.pos + |s|)] else []
    ensures BackwardEnds(e, s, icase, x) == if ys == [] || ys[0].pos > 0 then StepBack(ys) else []
    ensures ys == [] || ys == [ys[0]]
  {
    hide Occurs;
    assert ys != [] ==> ys[1..] == [];
    assert StepBack([]) == [];
  }

  /** A step back from the very beginning fails. */
  lemma DeliverStart(p: Prog, c: Cfg, ys: seq<Out>, pc: int, base: seq<Frame>, regs: seq<int>, d: nat)
    requires Fetch(p.code, pc) == Some(IPrev) && ys != [] && ys == [ys[0]] && ys[0].pos == 0 && Delivers(p, c, ys, pc, base, regs, d)
    ensures Delivers(p, c, [], pc + 1, base, regs, d)
  {
    hide Reaches, Fetch, FailTo;
    var st, regs' :| Lands(p, c, ys[0], pc, base, regs, d, st, regs') && Delivers(p, FailTo(st), ys[1..], pc, base, regs, d);
    assert ys[1..] == [];
    RunPrev(p, pc, ys[0], regs', st);
    ReachesTrans(p, c, At(pc, ys[0], regs', st), FailTo(st));
    ReachesTrans(p, c, FailTo(st), FailTo(base));
  }

  /** The lookbehind reading of s agrees with its backward meaning on every subject. */
  ghost predicate BackwardAgrees(e: Env, s: seq<nat>, icase: bool) {
    StringGroups(s, icase);
    forall input: seq<nat>, pos: nat :: pos <= |input| ==>
      BackwardEnds(e.(input := input), s, icase, Out(pos, [])) == RunMatch(e.(input := input), StringNode(s, icase), 0, true, Out(pos, []))
  }

  /** In a lookbehind a string member is matched as ECMA-262 asks exactly when it is a single character; the class
    * parser keeps those among the ranges, so every string that reaches this code is matched wrongly. */
  lemma BackwardOnlySingle(e: Env, s: seq<nat>, icase: bool)
    ensures BackwardAgrees(e, s, icase) <==> |s| == 1
  {
    hide RunMatch, Canon;
    StringGroups(s, icase);
    if |s| == 1 {
      forall input: seq<nat>, pos: nat | pos <= |input|
        ensures BackwardEnds(e.(input := input), s, icase, Out(pos, [])) == RunMatch(e.(input := input), StringNode(s, icase), 0, true, Out(pos, []))
      {
        StringRuns(e.(input := input), s, icase, 0, true, Out(pos, []));
      }
    } else {
      var pos := |s|;
      StringRuns(e.(input := s), s, icase, 0, true, Out(pos, []));
      assert RunMatch(e.(input := s), StringNode(s, icase), 0, true, Out(pos, [])) == [Out(0, [])];
      assert BackwardEnds(e.(input := s), s, icase, Out(pos, [])) == [];
    }
  }
}
