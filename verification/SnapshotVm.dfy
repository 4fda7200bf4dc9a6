/** The matching machine with whole saved states: every choice point keeps a copy of the capture
  * array. The undo log of the real machine is shown to have the same effect in BacktrackVm. */
module SnapshotVm {
  import opened Wrappers
  import opened RegexSyntax
  import opened Bytecode
  import opened SlotMatcher

  datatype Kind = SplitK | LookK | NegLookK

  /** A choice point: where to go on, from which position, with which capture array. */
  datatype Frame = Frame(kind: Kind, pc: int, pos: nat, slots: seq<int>)

  /** `slots` is the capture array: two entries per group, then the registers. */
  datatype Cfg =
    | Run(pc: int, pos: nat, slots: seq<int>, stack: seq<Frame>)
    | Accept(pos: nat, slots: seq<int>)
    | Reject
    | Crash

  datatype Prog = Prog(code: seq<byte>, captures: nat, env: Env)

  // ----- range search -----

  /** The binary search of REOP_range and REOP_range32. */
  function SearchBetween(rs: seq<(nat, nat)>, lo: int, hi: int, c: nat): bool
    requires 0 <= lo && hi < |rs|
    decreases hi - lo + 1
  {
    if lo > hi then false else
    var mid := (lo + hi) / 2;
    if c < rs[mid].0 then SearchBetween(rs, lo, mid - 1, c)
    else if c > rs[mid].1 then SearchBetween(rs, mid + 1, hi, c)
    else true
  }

  function RangeSearch(wide: bool, rs: seq<(nat, nat)>, c: nat): bool {
    if rs == [] || c < rs[0].0 then false
    else if !wide && c >= 0xffff && rs[|rs| - 1].1 == 0xffff then true
    else if c > rs[|rs| - 1].1 then false
    else SearchBetween(rs, 0, |rs| - 1, c)
  }

  // ----- one step -----

  predicate Consumes(i: Instr) {
    i.IChar? || i.IDot? || i.IAny? || i.ISpace? || i.IRange?
  }

  predicate InstrAccepts(e: Env, i: Instr, ch: nat)
    requires Consumes(i)
  {
    match i
    case IChar(_, icase, c) => c == Canon(e, icase, ch)
    case IDot => !IsLineTerminator(ch)
    case ISpace(negated) => e.isSpace(ch) != negated
    case IRange(wide, icase, rs) => RangeSearch(wide, rs, Canon(e, icase, ch))
    case _ => true
  }

  /** Assertions about the current position. */
  predicate Asserts(i: Instr) {
    i.ILineStart? || i.ILineEnd? || i.IWordBoundary?
  }

  predicate AssertHolds(e: Env, i: Instr, pos: nat)
    requires Asserts(i) && pos <= |e.input|
  {
    match i
    case ILineStart(multi) => AtLineStart(e, multi, pos)
    case ILineEnd(multi) => AtLineEnd(e, multi, pos)
    case IWordBoundary(negated, icase) => AtWordBoundary(e, icase, pos) != negated
    case _ => true
  }

  /** Backtrack: resume the topmost choice point that is not a pending lookahead. */
  function FailTo(stack: seq<Frame>): Cfg {
    if stack == [] then Reject else
    var f := stack[|stack| - 1];
    var rest := stack[..|stack| - 1];
    if f.kind == LookK then FailTo(rest) else Run(f.pc, f.pos, f.slots, rest)
  }

  /** Index of the topmost frame of the given kind, -1 if there is none. */
  function Topmost(kind: Kind, stack: seq<Frame>): (r: int)
    ensures -1 <= r < |stack|
  {
    if stack == [] then -1
    else if stack[|stack| - 1].kind == kind then |stack| - 1
    else Topmost(kind, stack[..|stack| - 1])
  }

  function Decrement(v: int): nat { (v - 1) % WORD }

  /** Push a choice point for `other` and continue at `pc`. */
  function Branch(pc: int, other: int, pos: nat, slots: seq<int>, stack: seq<Frame>): Cfg {
    Run(pc, pos, slots, stack + [Frame(SplitK, other, pos, slots)])
  }

  function BranchOn(nextFirst: bool, next: int, target: int, pos: nat, slots: seq<int>, stack: seq<Frame>): Cfg {
    if nextFirst then Branch(next, target, pos, slots, stack) else Branch(target, next, pos, slots, stack)
  }

  /** Register and loop instructions. */
  function ExecLoop(p: Prog, i: Instr, next: int, c: Cfg): Cfg
    requires c.Run?
  {
    match i
    case ISetI32(r, v) =>
      var idx := 2 * p.captures + r;
      if idx < |c.slots| then c.(pc := next, slots := c.slots[idx := v]) else Crash
    case ISetPos(r) =>
      var idx := 2 * p.captures + r;
      if idx < |c.slots| then c.(pc := next, slots := c.slots[idx := c.pos]) else Crash
    case ICheckAdv(r) =>
      var idx := 2 * p.captures + r;
      if idx >= |c.slots| then Crash
      else if c.slots[idx] == c.pos then FailTo(c.stack) else c.(pc := next)
    case ILoop(r, off) =>
      var idx := 2 * p.captures + r;
      if idx >= |c.slots| then Crash else
      var v := Decrement(c.slots[idx]);
      c.(pc := if v != 0 then next + off else next, slots := c.slots[idx := v])
    case ILoopSplit(adv, nextFirst, r, limit, off) =>
      var idx := 2 * p.captures + r;
      if idx + (if adv then 1 else 0) >= |c.slots| then Crash else
      var v := Decrement(c.slots[idx]);
      var slots := c.slots[idx := v];
      if v > limit then c.(pc := next + off, slots := slots)
      else if adv && slots[idx + 1] == c.pos && v != limit then FailTo(c.stack)
      else if v == 0 then c.(pc := next, slots := slots)
      else BranchOn(nextFirst, next, next + off, c.pos, slots, c.stack)
    case _ => Crash
  }

  /** Captures, back references, jumps and lookarounds. */
  function ExecControl(p: Prog, i: Instr, next: int, c: Cfg): Cfg
    requires c.Run?
  {
    match i
    case IGoto(off) => c.(pc := next + off)
    case ISplit(nextFirst, off) => BranchOn(nextFirst, next, next + off, c.pos, c.slots, c.stack)
    case IMatch => Accept(c.pos, c.slots)
    case ILook(negated, off) =>
      Run(next, c.pos, c.slots, c.stack + [Frame(if negated then NegLookK else LookK, next + off, c.pos, c.slots)])
    case ILookMatch(negated) =>
      var k := Topmost(if negated then NegLookK else LookK, c.stack);
      if k < 0 then Crash
      else if negated then FailTo(c.stack[..k])
      else Run(c.stack[k].pc, c.stack[k].pos, c.slots, c.stack[..k])
    case ISave(end, g) =>
      var idx := 2 * g + (if end then 1 else 0);
      if g < p.captures && idx < |c.slots| then c.(pc := next, slots := c.slots[idx := c.pos]) else Crash
    case IReset(lo, hi) =>
      if hi < p.captures && 2 * hi + 1 < |c.slots| then c.(pc := next, slots := ResetSlots(c.slots, 2 * lo, 2 * (hi + 1))) else Crash
    case IBackRef(back, icase, refs) =>
      if 2 * p.captures > |c.slots| then Crash else
      var q := MachineBackRef(p.env, refs, icase, back, c.slots[..2 * p.captures], c.pos);
      if q == -1 then FailTo(c.stack) else c.(pc := next, pos := q)
    case _ => Crash
  }

  /** The first usable reference decides; one beyond the last group fails at once. */
  function MachineBackRef(e: Env, refs: seq<nat>, icase: bool, back: bool, slots: seq<int>, pos: nat): (r: int)
    ensures r >= -1
  {
    if refs == [] then pos
    else if refs[0] >= |slots| / 2 then -1
    else if slots[2 * refs[0]] == UNSET || slots[2 * refs[0] + 1] == UNSET then MachineBackRef(e, refs[1..], icase, back, slots, pos)
    else if back then CompareBackward(e, icase, slots[2 * refs[0] + 1], slots[2 * refs[0]], pos)
    else CompareForward(e, icase, slots[2 * refs[0]], slots[2 * refs[0] + 1], pos)
  }

  lemma {:induction false} MachineBackRefIsBackRefEnd(e: Env, refs: seq<nat>, icase: bool, back: bool, slots: seq<int>, pos: nat)
    requires forall k :: 0 <= k < |refs| ==> refs[k] < |slots| / 2
    ensures MachineBackRef(e, refs, icase, back, slots, pos) == BackRefEnd(e, refs, icase, back, slots, pos)
  {
    if refs != [] && (slots[2 * refs[0]] == UNSET || slots[2 * refs[0] + 1] == UNSET) {
      MachineBackRefIsBackRefEnd(e, refs[1..], icase, back, slots, pos);
    }
  }

  function ExecInstr(p: Prog, i: Instr, next: int, c: Cfg): Cfg
    requires c.Run?
  {
    if Consumes(i) then
      if c.pos < |p.env.input| && InstrAccepts(p.env, i, p.env.input[c.pos]) then c.(pc := next, pos := c.pos + 1)
      else FailTo(c.stack)
    else if Asserts(i) then
      if c.pos <= |p.env.input| && AssertHolds(p.env, i, c.pos) then c.(pc := next) else FailTo(c.stack)
    else if i.IPrev? then
      if c.pos == 0 then FailTo(c.stack) else c.(pc := next, pos := c.pos - 1)
    else if i.ISetI32? || i.ISetPos? || i.ICheckAdv? || i.ILoop? || i.ILoopSplit? then ExecLoop(p, i, next, c)
    else ExecControl(p, i, next, c)
  }

  function Step(p: Prog, c: Cfg): Cfg {
    if !c.Run? then c else
    match Fetch(p.code, c.pc)
    case None => Crash
    case Some(i) => ExecInstr(p, i, c.pc + ISize(i), c)
  }

  function Steps(p: Prog, c: Cfg, k: nat): Cfg
    decreases k
  {
    if k == 0 then c else Steps(p, Step(p, c), k - 1)
  }

  ghost predicate Reaches(p: Prog, c: Cfg, d: Cfg) {
    exists k: nat :: Steps(p, c, k) == d
  }

  lemma {:induction false} StepsAdd(p: Prog, c: Cfg, j: nat, k: nat)
    ensures Steps(p, c, j + k) == Steps(p, Steps(p, c, j), k)
    decreases j
  {
    hide Step;
    if j != 0 { StepsAdd(p, Step(p, c), j - 1, k); }
  }

  lemma ReachesSelf(p: Prog, c: Cfg)
    ensures Reaches(p, c, c)
  {
    assert Steps(p, c, 0) == c;
  }

  lemma ReachesTrans(p: Prog, c: Cfg, d: Cfg, f: Cfg)
    requires Reaches(p, c, d) && Reaches(p, d, f)
    ensures Reaches(p, c, f)
  {
    hide Step;
    var j: nat :| Steps(p, c, j) == d;
    var k: nat :| Steps(p, d, k) == f;
    StepsAdd(p, c, j, k);
  }

  /** Fetched range tables are not empty. */
  lemma FetchedRanges(code: seq<byte>, pc: int)
    requires Fetch(code, pc).Some? && Fetch(code, pc).value.IRange?
    ensures Fetch(code, pc).value.ranges != []
  {
  }

  /** Once fetched, an instruction no longer looks at its own address. */
  lemma AddressFree(p: Prog, i: Instr, next: int, c: Cfg)
    requires c.Run?
    ensures ExecInstr(p, i, next, c) == ExecInstr(p, i, next, c.(pc := next))
    ensures ExecLoop(p, i, next, c) == ExecLoop(p, i, next, c.(pc := next))
    ensures ExecControl(p, i, next, c) == ExecControl(p, i, next, c.(pc := next))
  {
  }

  // ----- the cursor stays inside the subject -----

  predicate Inside(e: Env, c: Cfg) {
    c.Run? ==> c.pos <= |e.input| && forall k :: 0 <= k < |c.stack| ==> c.stack[k].pos <= |e.input|
  }

  lemma {:induction false} FailInside(e: Env, stack: seq<Frame>)
    requires forall k :: 0 <= k < |stack| ==> stack[k].pos <= |e.input|
    ensures Inside(e, FailTo(stack))
    decreases |stack|
  {
    if stack != [] && stack[|stack| - 1].kind == LookK { FailInside(e, stack[..|stack| - 1]); }
  }

  lemma BackRefInside(e: Env, refs: seq<nat>, icase: bool, back: bool, slots: seq<int>, pos: nat)
    requires pos <= |e.input|
    ensures MachineBackRef(e, refs, icase, back, slots, pos) <= |e.input|
    decreases |refs|
  {
    if refs != [] { BackRefInside(e, refs[1..], icase, back, slots, pos); }
  }

  lemma LoopInside(p: Prog, i: Instr, next: int, c: Cfg)
    requires Inside(p.env, c) && c.Run?
    ensures Inside(p.env, ExecLoop(p, i, next, c))
  {
    hide FailTo;
    FailInside(p.env, c.stack);
  }

  lemma ControlInside(p: Prog, i: Instr, next: int, c: Cfg)
    requires Inside(p.env, c) && c.Run?
    ensures Inside(p.env, ExecControl(p, i, next, c))
  {
    hide FailTo, MachineBackRef;
    FailInside(p.env, c.stack);
    if i.ILookMatch? {
      var k := Topmost(if i.negated then NegLookK else LookK, c.stack);
      if k >= 0 { FailInside(p.env, c.stack[..k]); }
    } else if i.IBackRef? && 2 * p.captures <= |c.slots| {
      BackRefInside(p.env, i.refs, i.icase, i.back, c.slots[..2 * p.captures], c.pos);
    }
  }

  /** No instruction moves the cursor, or a saved cursor, past the end of the subject. */
  lemma StepInside(p: Prog, c: Cfg)
    requires Inside(p.env, c)
    ensures Inside(p.env, Step(p, c))
  {
    hide Fetch, FailTo, ExecLoop, ExecControl, InstrAccepts, AssertHolds;
    if c.Run? && Fetch(p.code, c.pc).Some? {
      var i := Fetch(p.code, c.pc).value;
      FailInside(p.env, c.stack);
      LoopInside(p, i, c.pc + ISize(i), c);
      ControlInside(p, i, c.pc + ISize(i), c);
    }
  }

  lemma CrashStays(p: Prog, k: nat)
    ensures Steps(p, Crash, k) == Crash
    decreases k
  {
    if k != 0 { CrashStays(p, k - 1); }
  }

  /** One instruction forward. */
  lemma ReachesExec(p: Prog, c: Cfg, i: Instr)
    requires c.Run? && Fetch(p.code, c.pc) == Some(i)
    ensures Reaches(p, c, ExecInstr(p, i, c.pc + ISize(i), c))
  {
    hide Fetch, ExecInstr, ISize;
    assert Steps(p, Step(p, c), 0) == Step(p, c);
    assert Steps(p, c, 1) == Step(p, c);
  }
}
