/** A whole compiled pattern on the snapshot machine: it stops, and it answers what
  * RegExpBuiltinExec answers. */
module ProgramRun {
  import opened Wrappers
  import opened RegexSyntax
  import opened Bytecode
  import opened Emit
  import opened SlotMatcher
  import opened SnapshotVm
  import opened Yields
  import opened Execute
  import opened Simulation
  import opened EcmaMatcher
  import opened CaptureReset

  /** The first index, from `start` on, at which the compiled pattern has an outcome. */
  datatype Hit = Hit(index: nat, outcome: Out)

  function MachineExec(e: Env, n: Node, sticky: bool, start: nat): Option<Hit>
    requires start <= |e.input|
    decreases |e.input| - start
  {
    var ys := Attempt(e, n, start);
    if ys != [] then Some(Hit(start, ys[0]))
    else if sticky || start == |e.input| then None
    else MachineExec(e, n, sticky, start + 1)
  }

  /** Outcomes of trying position `i`. */
  function Attempt(e: Env, n: Node, i: nat): seq<Out>
    requires i <= |e.input|
  {
    RunMatch(e, n, 1, false, Out(i, StartSlots(1 + Groups(n))[0 := i]))
  }

  /** The final capture array holds that outcome, capture 0 closed. */
  predicate Shows(h: Hit, captures: nat, pos: nat, slots: seq<int>) {
    && pos == h.outcome.pos && captures >= 1 && |h.outcome.slots| == 2 * captures <= |slots|
    && slots[..2 * captures] == h.outcome.slots[1 := pos] && h.outcome.slots[0] == h.index
  }

  ghost predicate Answers(e: Env, n: Node, sticky: bool, start: nat, c: Cfg)
    requires start <= |e.input|
  {
    match MachineExec(e, n, sticky, start)
    case None => c == Reject
    case Some(h) => c.Accept? && Shows(h, 1 + Groups(n), c.pos, c.slots)
  }

  /** A compiled program ready to run: valid pattern, its code at offset 0. */
  ghost predicate Loaded(p: Prog, n: Node, sticky: bool) {
    && ValidEnv(p.env) && ValidNode(n) && p.captures == 1 + Groups(n) && RefsBelow(n, p.captures)
    && HasCode(p.code, 0, ProgramCode(p.env, n, sticky, true))
  }

  function BodyPc(sticky: bool): int { if sticky then 2 else 13 }

  lemma ProgramLayout(p: Prog, n: Node, sticky: bool)
    requires Loaded(p, n, sticky)
    ensures var start, body := BodyPc(sticky) - 2, BodyPc(sticky);
      var end := body + Size(Code(p.env, n, 1, false, true, 0));
      && Fetch(p.code, start) == Some(ISave(false, 0)) && HasCode(p.code, body, Code(p.env, n, 1, false, true, 0))
      && Fetch(p.code, end) == Some(ISave(true, 0)) && Fetch(p.code, end + 2) == Some(IMatch)
    ensures !sticky ==>
      && Fetch(p.code, 0) == Some(ISplit(false, 6)) && Fetch(p.code, 5) == Some(IAny)
      && Fetch(p.code, 6) == Some(IGoto(-11))
  {
    hide Code, HasCode, Fetch, Size, ISize;
    var prefix := SearchPrefix(sticky);
    var code := Code(p.env, n, 1, false, true, 0);
    var body := [ISave(false, 0)] + code + [ISave(true, 0), IMatch];
    PrefixSize(sticky);
    HasCodeSplit(p.code, 0, prefix, body);
    var start := BodyPc(sticky) - 2;
    assert body == [ISave(false, 0)] + (code + ([ISave(true, 0)] + [IMatch]));
    HasCodeHead(p.code, start, ISave(false, 0), code + ([ISave(true, 0)] + [IMatch]));
    HasCodeSplit(p.code, start + 2, code, [ISave(true, 0)] + [IMatch]);
    HasCodeHead(p.code, start + 2 + Size(code), ISave(true, 0), [IMatch]);
    HasCodeOne(p.code, start + 2 + Size(code) + 2, IMatch);
    if !sticky {
      assert prefix == [ISplit(false, 6)] + ([IAny] + [IGoto(-11)]);
      HasCodeHead(p.code, 0, ISplit(false, 6), [IAny] + [IGoto(-11)]);
      HasCodeHead(p.code, 5, IAny, [IGoto(-11)]);
      HasCodeOne(p.code, 6, IGoto(-11));
    }
  }

  lemma PrefixSize(sticky: bool)
    ensures Size(SearchPrefix(sticky)) == BodyPc(sticky) - 2
    ensures ISize(ISave(false, 0)) == 2 && ISize(ISave(true, 0)) == 2 && ISize(ISplit(false, 6)) == 5 && ISize(IAny) == 1
  {
    if !sticky {
      assert SearchPrefix(sticky) == [ISplit(false, 6)] + ([IAny] + [IGoto(-11)]);
      BytesConcat([ISplit(false, 6)], [IAny] + [IGoto(-11)]);
      BytesConcat([IAny], [IGoto(-11)]);
      SizeOne(ISplit(false, 6));
      SizeOne(IAny);
      SizeOne(IGoto(-11));
    }
  }

  /** The state in which position `i` is tried. */
  function Fresh(captures: nat, i: nat): Out { Out(i, StartSlots(captures)) }

  lemma RunMatchAccept(p: Prog, pc: int, y: Out, regs: seq<int>, st: seq<Frame>)
    requires Fetch(p.code, pc) == Some(IMatch)
    ensures Reaches(p, At(pc, y, regs, st), Accept(y.pos, y.slots + regs))
  {
    hide Fetch, Reaches, FailTo;
    RunInstr(p, pc, IMatch, y, regs, st);
  }

  lemma ReadyProgram(p: Prog, n: Node, sticky: bool, i: nat, regs: seq<int>)
    requires Loaded(p, n, sticky) && i <= |p.env.input| && Depth(n, false) <= |regs|
    ensures var x := Out(i, StartSlots(p.captures)[0 := i]);
      Ready(p, n, 1, false, 0, BodyPc(sticky), x, regs)
  {
    ProgramLayout(p, n, sticky);
    hide Code, HasCode, Fetch, Size, Fits, RefsBelow, ValidNode, ValidEnv, Depth, ProgramCode;
  }

  lemma FinalShow(n: Node, i: nat, y: Out, regs: seq<int>)
    requires |y.slots| == 2 * (1 + Groups(n)) && y.slots[0] == i
    ensures Shows(Hit(i, y), 1 + Groups(n), y.pos, y.slots[1 := y.pos] + regs)
  {
    hide Groups;
  }

  /** One attempt: accept with the outcome of highest priority, or backtrack into `base`. */
  lemma RunAttempt(p: Prog, n: Node, sticky: bool, i: nat, regs: seq<int>, base: seq<Frame>) returns (c: Cfg)
    requires Loaded(p, n, sticky) && i <= |p.env.input| && Depth(n, false) <= |regs|
    ensures Reaches(p, At(BodyPc(sticky) - 2, Fresh(p.captures, i), regs, base), c)
    ensures Attempt(p.env, n, i) == [] ==> c == FailTo(base)
    ensures Attempt(p.env, n, i) != [] ==>
      c.Accept? && Shows(Hit(i, Attempt(p.env, n, i)[0]), 1 + Groups(n), c.pos, c.slots)
  {
    hide *;
    LoadedFacts(p, n, sticky);
    FreshFacts(p.captures, i);
    ProgramLayout(p, n, sticky);
    ReadyProgram(p, n, sticky, i, regs);
    var x := Out(i, StartSlots(p.captures)[0 := i]);
    var body := BodyPc(sticky);
    var c0, c1 := At(body - 2, Fresh(p.captures, i), regs, base), At(body, x, regs, base);
    RunSave(p, body - 2, false, 0, Fresh(p.captures, i), regs, base);
    ReadyFacts(p, n, 1, false, 0, body, x, regs);
    Simulate(p, n, 1, false, 0, body, x, regs, base);
    ReadyCode(p, n, 1, false, 0, body, x, regs);
    AttemptUnfold(p.env, n, i);
    var zs := Attempt(p.env, n, i);
    var end := EndPc(p, n, 1, false, 0, body);
    if zs == [] {
      DeliversNothing(p, c1, end, base, regs, 0);
      c := FailTo(base);
      ReachesTrans(p, c0, c1, c);
    } else {
      var st, regs' := DeliversFirst(p, c1, zs, end, base, regs, 0);
      var y := zs[0];
      FirstOutcome(p.env, n, i, x);
      var z := y.(slots := y.slots[1 := y.pos]);
      RunSave(p, end, true, 0, y, regs', st);
      RunMatchAccept(p, end + 2, z, regs', st);
      c := Accept(z.pos, z.slots + regs');
      ReachesTrans(p, c0, c1, At(end, y, regs', st));
      ReachesTrans(p, c0, At(end, y, regs', st), At(end + 2, z, regs', st));
      ReachesTrans(p, c0, At(end + 2, z, regs', st), c);
      FinalShow(n, i, y, regs');
    }
  }

  lemma LoadedFacts(p: Prog, n: Node, sticky: bool)
    requires Loaded(p, n, sticky)
    ensures ValidNode(n) && p.captures == 1 + Groups(n)
  {
    hide HasCode, ValidEnv, ValidNode, RefsBelow, Fits;
  }

  lemma FreshFacts(captures: nat, i: nat)
    requires captures >= 1
    ensures |StartSlots(captures)| == 2 * captures && Fresh(captures, i).pos == i && Fresh(captures, i).slots == StartSlots(captures)
  {
  }

  lemma AttemptUnfold(e: Env, n: Node, i: nat)
    requires i <= |e.input|
    ensures var x := Out(i, StartSlots(1 + Groups(n))[0 := i]);
      && |x.slots| == 2 * (1 + Groups(n)) && x.slots[0] == i
      && Attempt(e, n, i) == RunMatch(e, n, 1, false, x)
  {
    hide RunMatch, Groups;
  }

  lemma DeliversNothing(p: Prog, c: Cfg, end: int, base: seq<Frame>, regs: seq<int>, d: nat)
    requires Delivers(p, c, [], end, base, regs, d)
    ensures Reaches(p, c, FailTo(base))
  {
    hide Reaches, FailTo;
  }

  lemma FirstOutcome(e: Env, n: Node, i: nat, x: Out)
    requires i <= |e.input| && x == Out(i, StartSlots(1 + Groups(n))[0 := i])
    requires x.pos <= |e.input| && 2 * (1 + Groups(n)) <= |x.slots| && RunMatch(e, n, 1, false, x) != []
    ensures var y := RunMatch(e, n, 1, false, x)[0];
      |y.slots| == 2 * (1 + Groups(n)) && y.slots[0] == i
  {
    hide RunMatch, Groups;
    RunFrame(e, n, 1, false, x);
    assert SameSlots(x, RunMatch(e, n, 1, false, x)[0], 1, 1 + Groups(n));
  }

  /** From position `i` on, the program stops with the answer of MachineExec. */
  lemma {:induction false} RunProgram(p: Prog, n: Node, sticky: bool, i: nat, regs: seq<int>) returns (c: Cfg)
    requires Loaded(p, n, sticky) && i <= |p.env.input| && Depth(n, false) <= |regs|
    ensures Reaches(p, At(0, Fresh(p.captures, i), regs, []), c) && Answers(p.env, n, sticky, i, c)
    decreases |p.env.input| - i
  {
    hide *;
    var x := Fresh(p.captures, i);
    ExecUnfold(p.env, n, sticky, i);
    if sticky {
      BodyPcIs(sticky);
      c := RunAttempt(p, n, sticky, i, regs, []);
      FailToNothing();
      AnswersHere(p.env, n, sticky, i, c);
    } else {
      c := RunSearch(p, n, i, regs);
    }
  }

  lemma {:induction false} RunSearch(p: Prog, n: Node, i: nat, regs: seq<int>) returns (c: Cfg)
    requires Loaded(p, n, false) && i <= |p.env.input| && Depth(n, false) <= |regs|
    ensures Reaches(p, At(0, Fresh(p.captures, i), regs, []), c) && Answers(p.env, n, false, i, c)
    decreases |p.env.input| - i
  {
    hide *;
    var x := Fresh(p.captures, i);
    var c0 := At(0, x, regs, []);
    ProgramLayout(p, n, false);
    BodyPcIs(false);
    RunSplit(p, 0, false, 6, x, regs, []);
    var f := Frame(SplitK, 5, x.pos, x.slots + regs);
    var c1 := At(11, x, regs, [] + [f]);
    c := RunAttempt(p, n, false, i, regs, [] + [f]);
    ReachesTrans(p, c0, c1, c);
    ExecUnfold(p.env, n, false, i);
    FailToFrame([], SplitK, 5, x, regs);
    if Attempt(p.env, n, i) == [] {
      AnyAccepts();
      RunConsumeAny(p, 5, x, regs);
      FreshPos(p.captures, i);
      if i < |p.env.input| {
        RunGoto(p, 6, -11, Fresh(p.captures, i + 1), regs, []);
        var c2 := At(0, Fresh(p.captures, i + 1), regs, []);
        ReachesTrans(p, c0, c, At(6, Fresh(p.captures, i + 1), regs, []));
        ReachesTrans(p, c0, At(6, Fresh(p.captures, i + 1), regs, []), c2);
        c := RunSearch(p, n, i + 1, regs);
        ReachesTrans(p, c0, c2, c);
        AnswersNext(p.env, n, i, c);
      } else {
        FailToNothing();
        ReachesTrans(p, c0, c, Reject);
        c := Reject;
        AnswersHere(p.env, n, false, i, c);
      }
    } else {
      AnswersHere(p.env, n, false, i, c);
    }
  }

  lemma BodyPcIs(sticky: bool)
    ensures BodyPc(sticky) == if sticky then 2 else 13
  {
  }

  lemma FailToNothing()
    ensures FailTo([]) == Reject
  {
  }

  lemma AnyAccepts()
    ensures Consumes(IAny) && ISize(IAny) == 1
  {
  }

  lemma FreshPos(captures: nat, i: nat)
    ensures Fresh(captures, i).pos == i && Fresh(captures, i).(pos := i + 1) == Fresh(captures, i + 1)
  {
  }

  lemma RunConsumeAny(p: Prog, pc: int, x: Out, regs: seq<int>)
    requires Fetch(p.code, pc) == Some(IAny)
    ensures Reaches(p, At(pc, x, regs, []), if x.pos < |p.env.input| then At(pc + 1, x.(pos := x.pos + 1), regs, []) else FailTo([]))
  {
    hide Reaches, Fetch, FailTo, At;
    RunConsume(p, pc, IAny, x, regs, []);
  }

  lemma ExecUnfold(e: Env, n: Node, sticky: bool, i: nat)
    requires i <= |e.input|
    ensures MachineExec(e, n, sticky, i) ==
      if Attempt(e, n, i) != [] then Some(Hit(i, Attempt(e, n, i)[0]))
      else if sticky || i == |e.input| then None
      else MachineExec(e, n, sticky, i + 1)
  {
    hide Attempt;
  }

  lemma AnswersHere(e: Env, n: Node, sticky: bool, i: nat, c: Cfg)
    requires i <= |e.input|
    requires Attempt(e, n, i) == [] ==> c == Reject && (sticky || i == |e.input|)
    requires Attempt(e, n, i) != [] ==> c.Accept? && Shows(Hit(i, Attempt(e, n, i)[0]), 1 + Groups(n), c.pos, c.slots)
    ensures Answers(e, n, sticky, i, c)
  {
    hide Attempt, Groups, Shows;
    ExecUnfold(e, n, sticky, i);
  }

  lemma AnswersNext(e: Env, n: Node, i: nat, c: Cfg)
    requires i < |e.input| && Attempt(e, n, i) == [] && Answers(e, n, false, i + 1, c)
    ensures Answers(e, n, false, i, c)
  {
    hide Attempt, Groups, Shows;
    ExecUnfold(e, n, false, i);
  }

  // ----- the same answer as the standard -----

  /** What a final capture array must report: capture 0 spans the match and every other group
    * reports its capture. */
  predicate Reports(f: Found, captures: nat, pos: nat, slots: seq<int>) {
    && pos == f.outcome.pos && |f.outcome.caps| == captures && captures >= 1 && 2 * captures <= |slots|
    && slots[0] == f.index && slots[1] == pos
    && AgreeIn(f.outcome, Out(pos, slots[..2 * captures]), 1, captures)
  }

  /** The two searches stop at the same index, with related outcomes. */
  ghost predicate SameAnswer(e: Env, captures: nat, f: Option<Found>, h: Option<Hit>) {
    match f
    case None => h.None?
    case Some(found) =>
      h.Some? && found.index == h.value.index && |found.outcome.caps| == captures && Rel(e, found.outcome, h.value.outcome)
  }

  lemma {:induction false} MachineExecIsRegExpExec(e: Env, n: Node, sticky: bool, start: nat)
    requires ValidNode(n) && start <= |e.input| && Fits(n, false, |e.input|)
    ensures SameAnswer(e, 1 + Groups(n), RegExpExec(e, n, sticky, start), MachineExec(e, n, sticky, start))
    decreases |e.input| - start
  {
    hide *;
    StartFacts(1 + Groups(n), start);
    StartValid(e, 1 + Groups(n), start);
    RunMatchIsMatch(e, n, start);
    AttemptUnfold(e, n, start);
    var x := StartState(1 + Groups(n), start);
    var ys, zs := Match(e, n, 1, false, x), Attempt(e, n, start);
    RelLength(e, ys, zs);
    ExecUnfold(e, n, sticky, start);
    RegExpUnfold(e, n, sticky, start);
    if ys != [] {
      FirstRel(e, ys, zs);
      MatchFollows(e, n, 1, false, x);
      FirstLength(e, x, ys);
      SameHit(e, 1 + Groups(n), start, ys[0], zs[0]);
    } else if sticky || start == |e.input| {
      SameNothing(e, 1 + Groups(n));
    } else {
      MachineExecIsRegExpExec(e, n, sticky, start + 1);
    }
  }

  lemma StartFacts(captures: nat, i: nat)
    requires captures >= 1
    ensures |StartSlots(captures)| == 2 * captures && |StartState(captures, i).caps| == captures
  {
  }

  lemma StartValid(e: Env, captures: nat, i: nat)
    requires i <= |e.input|
    ensures ValidState(e, StartState(captures, i))
  {
  }

  lemma RegExpUnfold(e: Env, n: Node, sticky: bool, start: nat)
    requires start <= |e.input|
    ensures ValidState(e, StartState(1 + Groups(n), start)) && |StartState(1 + Groups(n), start).caps| == 1 + Groups(n)
    ensures var ys := Match(e, n, 1, false, StartState(1 + Groups(n), start));
      RegExpExec(e, n, sticky, start) ==
        if ys != [] then Some(Found(start, ys[0]))
        else if sticky || start == |e.input| then None
        else RegExpExec(e, n, sticky, start + 1)
  {
    hide Match, Groups;
  }

  lemma FirstRel(e: Env, ys: seq<State>, zs: seq<Out>)
    requires RelAll(e, ys, zs) && ys != []
    ensures zs != [] && Rel(e, ys[0], zs[0])
  {
    hide Rel;
  }

  lemma FirstLength(e: Env, x: State, ys: seq<State>)
    requires AllFollow(e, false, x, ys) && ys != []
    ensures |ys[0].caps| == |x.caps|
  {
    hide ValidState;
  }

  lemma SameHit(e: Env, captures: nat, i: nat, y: State, z: Out)
    requires Rel(e, y, z) && |y.caps| == captures
    ensures SameAnswer(e, captures, Some(Found(i, y)), Some(Hit(i, z)))
  {
    hide Rel;
  }

  lemma SameNothing(e: Env, captures: nat)
    ensures SameAnswer(e, captures, None, None)
  {
  }

  /** A capture array that shows a machine outcome reports the related outcome of the standard. */
  lemma ShowsReports(e: Env, captures: nat, f: Found, h: Hit, pos: nat, slots: seq<int>)
    requires SameAnswer(e, captures, Some(f), Some(h)) && Shows(h, captures, pos, slots)
    ensures Reports(f, captures, pos, slots)
  {
    var shown := Out(pos, slots[..2 * captures]);
    assert shown.slots[0] == slots[0] && shown.slots[1] == slots[1];
    forall j: nat | 1 <= j < captures ensures Agree(f.outcome, shown, j) {
      assert Agree(f.outcome, h.outcome, j);
    }
  }
}
