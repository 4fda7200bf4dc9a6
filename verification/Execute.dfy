/** The effect of single instructions on a capture array split into slots and registers. */
module Execute {
  import opened Wrappers
  import opened RegexSyntax
  import opened Bytecode
  import opened Emit
  import opened SlotMatcher
  import opened SnapshotVm
  import opened Yields

  lemma RunInstr(p: Prog, pc: int, i: Instr, y: Out, regs: seq<int>, st: seq<Frame>)
    requires Fetch(p.code, pc) == Some(i)
    ensures Reaches(p, At(pc, y, regs, st), ExecInstr(p, i, pc + ISize(i), At(pc, y, regs, st)))
  {
    hide Fetch, ExecInstr, ISize, Reaches;
    ReachesExec(p, At(pc, y, regs, st), i);
  }

  lemma RunConsume(p: Prog, pc: int, i: Instr, y: Out, regs: seq<int>, st: seq<Frame>)
    requires Fetch(p.code, pc) == Some(i) && Consumes(i)
    ensures Reaches(p, At(pc, y, regs, st),
      if y.pos < |p.env.input| && InstrAccepts(p.env, i, p.env.input[y.pos]) then At(pc + ISize(i), y.(pos := y.pos + 1), regs, st)
      else FailTo(st))
  {
    hide Fetch, ISize, Reaches, InstrAccepts, FailTo;
    RunInstr(p, pc, i, y, regs, st);
  }

  lemma RunPrev(p: Prog, pc: int, y: Out, regs: seq<int>, st: seq<Frame>)
    requires Fetch(p.code, pc) == Some(IPrev)
    ensures Reaches(p, At(pc, y, regs, st), if y.pos == 0 then FailTo(st) else At(pc + 1, y.(pos := y.pos - 1), regs, st))
  {
    hide Fetch, Reaches, FailTo;
    RunInstr(p, pc, IPrev, y, regs, st);
  }

  lemma RunAssert(p: Prog, pc: int, i: Instr, y: Out, regs: seq<int>, st: seq<Frame>)
    requires Fetch(p.code, pc) == Some(i) && Asserts(i) && y.pos <= |p.env.input|
    ensures Reaches(p, At(pc, y, regs, st), if AssertHolds(p.env, i, y.pos) then At(pc + ISize(i), y, regs, st) else FailTo(st))
  {
    hide Fetch, ISize, Reaches, AssertHolds, FailTo;
    RunInstr(p, pc, i, y, regs, st);
  }

  lemma RunSave(p: Prog, pc: int, end: bool, g: nat, y: Out, regs: seq<int>, st: seq<Frame>)
    requires Fetch(p.code, pc) == Some(ISave(end, g)) && g < p.captures && |y.slots| == 2 * p.captures
    ensures Reaches(p, At(pc, y, regs, st), At(pc + 2, y.(slots := y.slots[2 * g + (if end then 1 else 0) := y.pos]), regs, st))
  {
    hide Fetch, Reaches, FailTo;
    RunInstr(p, pc, ISave(end, g), y, regs, st);
    var idx := 2 * g + (if end then 1 else 0);
    assert (y.slots + regs)[idx := y.pos] == y.slots[idx := y.pos] + regs;
  }

  lemma RunReset(p: Prog, pc: int, lo: nat, hi: nat, y: Out, regs: seq<int>, st: seq<Frame>)
    requires Fetch(p.code, pc) == Some(IReset(lo, hi)) && hi < p.captures && |y.slots| == 2 * p.captures
    ensures Reaches(p, At(pc, y, regs, st), At(pc + 3, y.(slots := ResetSlots(y.slots, 2 * lo, 2 * (hi + 1))), regs, st))
  {
    hide Fetch, Reaches, FailTo;
    RunInstr(p, pc, IReset(lo, hi), y, regs, st);
    assert ResetSlots(y.slots + regs, 2 * lo, 2 * (hi + 1)) == ResetSlots(y.slots, 2 * lo, 2 * (hi + 1)) + regs;
  }

  lemma RunGoto(p: Prog, pc: int, off: int, y: Out, regs: seq<int>, st: seq<Frame>)
    requires Fetch(p.code, pc) == Some(IGoto(off))
    ensures Reaches(p, At(pc, y, regs, st), At(pc + 5 + off, y, regs, st))
  {
    hide Fetch, Reaches, FailTo;
    RunInstr(p, pc, IGoto(off), y, regs, st);
  }

  /** Two ways on from a choice: first `near`, and `far` on backtracking. */
  lemma RunSplit(p: Prog, pc: int, nextFirst: bool, off: int, y: Out, regs: seq<int>, st: seq<Frame>)
    requires Fetch(p.code, pc) == Some(ISplit(nextFirst, off))
    ensures var next, target := pc + 5, pc + 5 + off;
      var near, far := if nextFirst then next else target, if nextFirst then target else next;
      Reaches(p, At(pc, y, regs, st), At(near, y, regs, st + [Frame(SplitK, far, y.pos, y.slots + regs)]))
  {
    hide Fetch, Reaches, FailTo;
    RunInstr(p, pc, ISplit(nextFirst, off), y, regs, st);
  }

  lemma RunLook(p: Prog, pc: int, negated: bool, off: int, y: Out, regs: seq<int>, st: seq<Frame>)
    requires Fetch(p.code, pc) == Some(ILook(negated, off))
    ensures Reaches(p, At(pc, y, regs, st),
      At(pc + 5, y, regs, st + [Frame(if negated then NegLookK else LookK, pc + 5 + off, y.pos, y.slots + regs)]))
  {
    hide Fetch, Reaches, FailTo;
    RunInstr(p, pc, ILook(negated, off), y, regs, st);
  }

  lemma {:induction false} TopmostBelowSplits(kind: Kind, base: seq<Frame>, f: Frame, st: seq<Frame>)
    requires Extends(base + [f], st) && f.kind == kind && kind != SplitK
    ensures Topmost(kind, st) == |base|
    decreases |st|
  {
    if |st| == |base| + 1 {
      assert st[|base|] == st[..|base| + 1][|base|] == f;
    } else {
      assert st[..|st| - 1][..|base| + 1] == st[..|base| + 1];
      TopmostBelowSplits(kind, base, f, st[..|st| - 1]);
    }
  }

  /** The end of a lookaround pops everything down to its own frame. */
  lemma RunLookMatch(p: Prog, pc: int, negated: bool, y: Out, regs: seq<int>, base: seq<Frame>, f: Frame, st: seq<Frame>)
    requires Fetch(p.code, pc) == Some(ILookMatch(negated))
    requires f.kind == (if negated then NegLookK else LookK) && Extends(base + [f], st)
    ensures Reaches(p, At(pc, y, regs, st), if negated then FailTo(base) else At(f.pc, Out(f.pos, y.slots), regs, base))
  {
    TopmostBelowSplits(f.kind, base, f, st);
    assert st[|base|] == st[..|base| + 1][|base|] == f;
    assert st[..|base|] == st[..|base| + 1][..|base|] == base;
    hide Fetch, Reaches, FailTo, Topmost, Extends;
    RunInstr(p, pc, ILookMatch(negated), y, regs, st);
  }

  lemma RunBackRef(p: Prog, pc: int, back: bool, icase: bool, refs: seq<nat>, y: Out, regs: seq<int>, st: seq<Frame>)
    requires Fetch(p.code, pc) == Some(IBackRef(back, icase, refs)) && |y.slots| == 2 * p.captures
    requires forall k :: 0 <= k < |refs| ==> refs[k] < p.captures
    ensures var q := BackRefEnd(p.env, refs, icase, back, y.slots, y.pos);
      Reaches(p, At(pc, y, regs, st),
        if q == -1 then FailTo(st) else At(pc + ISize(IBackRef(back, icase, refs)), y.(pos := q), regs, st))
  {
    hide Fetch, Reaches, FailTo, BackRefEnd, MachineBackRef, ISize;
    RunInstr(p, pc, IBackRef(back, icase, refs), y, regs, st);
    assert (y.slots + regs)[..2 * p.captures] == y.slots;
    MachineBackRefIsBackRefEnd(p.env, refs, icase, back, y.slots, y.pos);
  }

  // ----- registers -----

  lemma RegUpdate(slots: seq<int>, regs: seq<int>, r: nat, v: int)
    requires r < |regs|
    ensures (slots + regs)[|slots| + r] == regs[r]
    ensures (slots + regs)[|slots| + r := v] == slots + regs[r := v]
  {
  }

  lemma RunSetI32(p: Prog, pc: int, r: nat, v: nat, y: Out, regs: seq<int>, st: seq<Frame>)
    requires Fetch(p.code, pc) == Some(ISetI32(r, v)) && |y.slots| == 2 * p.captures && r < |regs|
    ensures Reaches(p, At(pc, y, regs, st), At(pc + 6, y, regs[r := v], st))
  {
    hide Fetch, Reaches, FailTo;
    RunInstr(p, pc, ISetI32(r, v), y, regs, st);
    RegUpdate(y.slots, regs, r, v);
  }

  lemma RunSetPos(p: Prog, pc: int, r: nat, y: Out, regs: seq<int>, st: seq<Frame>)
    requires Fetch(p.code, pc) == Some(ISetPos(r)) && |y.slots| == 2 * p.captures && r < |regs|
    ensures Reaches(p, At(pc, y, regs, st), At(pc + 2, y, regs[r := y.pos], st))
  {
    hide Fetch, Reaches, FailTo;
    RunInstr(p, pc, ISetPos(r), y, regs, st);
    RegUpdate(y.slots, regs, r, y.pos);
  }

  lemma RunCheckAdv(p: Prog, pc: int, r: nat, y: Out, regs: seq<int>, st: seq<Frame>)
    requires Fetch(p.code, pc) == Some(ICheckAdv(r)) && |y.slots| == 2 * p.captures && r < |regs|
    ensures Reaches(p, At(pc, y, regs, st), if regs[r] == y.pos then FailTo(st) else At(pc + 2, y, regs, st))
  {
    hide Fetch, Reaches, FailTo;
    RunInstr(p, pc, ICheckAdv(r), y, regs, st);
    RegUpdate(y.slots, regs, r, 0);
  }

  lemma RunLoop(p: Prog, pc: int, r: nat, off: int, y: Out, regs: seq<int>, st: seq<Frame>)
    requires Fetch(p.code, pc) == Some(ILoop(r, off)) && |y.slots| == 2 * p.captures && r < |regs|
    requires 1 <= regs[r] < WORD
    ensures var v := regs[r] - 1;
      Reaches(p, At(pc, y, regs, st), At(if v != 0 then pc + 6 + off else pc + 6, y, regs[r := v], st))
  {
    hide Fetch, Reaches, FailTo;
    RunInstr(p, pc, ILoop(r, off), y, regs, st);
    RegUpdate(y.slots, regs, r, regs[r] - 1);
  }

  /** What a counting loop does at the end of a pass; `v` is the decremented counter. */
  function LoopSplitTo(adv: bool, nextFirst: bool, limit: nat, next: int, target: int, y: Out, regs: seq<int>, v: int, seen: int, st: seq<Frame>): Cfg {
    if v > limit then At(target, y, regs, st)
    else if adv && seen == y.pos && v != limit then FailTo(st)
    else if v == 0 then At(next, y, regs, st)
    else if nextFirst then At(next, y, regs, st + [Frame(SplitK, target, y.pos, y.slots + regs)])
    else At(target, y, regs, st + [Frame(SplitK, next, y.pos, y.slots + regs)])
  }

  lemma RunLoopSplit(p: Prog, pc: int, adv: bool, nextFirst: bool, r: nat, limit: nat, off: int, y: Out, regs: seq<int>, st: seq<Frame>)
    requires Fetch(p.code, pc) == Some(ILoopSplit(adv, nextFirst, r, limit, off)) && |y.slots| == 2 * p.captures
    requires r + (if adv then 1 else 0) < |regs| && 1 <= regs[r] < WORD
    ensures var v := regs[r] - 1;
      Reaches(p, At(pc, y, regs, st),
        LoopSplitTo(adv, nextFirst, limit, pc + 10, pc + 10 + off, y, regs[r := v], v, if adv then regs[r + 1] else 0, st))
  {
    hide Fetch, Reaches, FailTo;
    var i := ILoopSplit(adv, nextFirst, r, limit, off);
    var v := regs[r] - 1;
    RunInstr(p, pc, i, y, regs, st);
    RegUpdate(y.slots, regs, r, v);
    if adv { RegUpdate(y.slots, regs[r := v], r + 1, 0); }
    assert ISize(i) == 10;
    assert Decrement(regs[r]) == v;
  }
}
