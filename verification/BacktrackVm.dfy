/** The matching machine itself: one capture array, and one stack shared by choice points and the
  * undo log of captures. Every instruction has the effect SnapshotVm.Step gives it. */
module BacktrackVm {
  import opened Wrappers
  import opened RegexSyntax
  import opened Bytecode
  import opened SlotMatcher
  import opened SnapshotVm
  import opened UndoLog

  datatype Status = Running | Matched | NoMatch

  /** Pairs found between `a` and `top` once each popped header points to the end of its run. */
  predicate Marked(st: seq<Elem>, a: nat, top: nat)
    decreases top - a
  {
    a == top <= |st| ||
    (a + 3 <= top <= |st| && st[a + 2].Word? && a + 3 <= st[a + 2].v <= top && Marked(st, st[a + 2].v, top))
  }

  function Gather(st: seq<Elem>, a: nat, top: nat): (r: seq<Elem>)
    requires Marked(st, a, top)
    decreases top - a
  {
    if a == top then [] else st[a + 3..st[a + 2].v] + Gather(st, st[a + 2].v, top)
  }

  /** Only the stack from `a` on matters. */
  lemma {:induction false} GatherAbove(st: seq<Elem>, st': seq<Elem>, a: nat, top: nat)
    requires Marked(st, a, top) && |st'| == |st| && st'[a..top] == st[a..top]
    ensures Marked(st', a, top) && Gather(st', a, top) == Gather(st, a, top)
    decreases top - a
  {
    if a != top {
      assert st'[a + 2] == st'[a..top][2] == st[a..top][2] == st[a + 2];
      var next := st[a + 2].v;
      SliceSame(st, st', a, top, next, top);
      SliceSame(st, st', a, top, a + 3, next);
      GatherAbove(st, st', next, top);
    }
  }

  lemma SliceSame(st: seq<Elem>, st': seq<Elem>, a: nat, top: nat, i: nat, j: nat)
    requires a <= i <= j <= top <= |st| && |st'| == |st| && st'[a..top] == st[a..top]
    ensures st'[i..j] == st[i..j]
  {
    forall k | i <= k < j ensures st'[k] == st[k] {
      assert st'[a..top][k - a] == st[a..top][k - a];
    }
  }

  /** Popping one more header in a successful lookahead: it is marked with the end of its run. */
  lemma MarkHeader(st: seq<Elem>, st': seq<Elem>, bp: nat, sp: nat, top: nat)
    requires 3 <= bp <= sp <= top <= |st| && Marked(st, sp, top) && st' == st[bp - 1 := Word(sp)]
    ensures Marked(st', bp - 3, top) && Gather(st', bp - 3, top) == st[bp..sp] + Gather(st, sp, top)
  {
    GatherAbove(st, st', sp, top);
    assert st'[bp..sp] == st[bp..sp];
  }

  /** Dropping the newest pair after undoing it changes no saved state. */
  lemma UndoStep(st: seq<Elem>, sp: nat, bp: nat, caps: seq<int>)
    requires WellFormed(st, sp, bp, |caps|) && sp > bp
    ensures sp >= bp + 2 && st[sp - 2].Word? && st[sp - 1].Word? && 0 <= st[sp - 2].v < |caps|
    ensures var caps' := caps[st[sp - 2].v := st[sp - 1].v];
      WellFormed(st, sp - 2, bp, |caps|) && Frames(st, sp - 2, bp, caps') == Frames(st, sp, bp, caps)
  {
    hide WellFormed, Frames;
    BpBelow(st, sp, bp, |caps|);
    var ps := st[bp..sp];
    assert ps[|ps| - 2] == st[sp - 2] && ps[|ps| - 1] == st[sp - 1];
    PairsPrefix(ps, |ps| - 2, |caps|);
    assert ps[..|ps| - 2] == st[bp..sp - 2];
    FramesSameUndo(st, sp, st, sp - 2, bp, caps, caps[st[sp - 2].v := st[sp - 1].v]);
  }

  // ----- successful lookahead: popping down to it, then sliding the pairs kept -----

  predicate HasLook(st: seq<Elem>, bp: nat)
    decreases bp
  {
    && 3 <= bp <= |st| && st[bp - 1].Link?
    && (st[bp - 1].kind == LookK || (st[bp - 1].prev <= bp - 3 && HasLook(st, st[bp - 1].prev)))
  }

  lemma {:induction false} TopmostHasLook(st: seq<Elem>, sp: nat, bp: nat, caps: seq<int>)
    requires WellFormed(st, sp, bp, |caps|) && Topmost(LookK, Frames(st, sp, bp, caps)) >= 0
    ensures HasLook(st, bp)
    decreases bp
  {
    if bp != 0 {
      PopRestores(st, sp, bp, caps);
      var prev, saved := st[bp - 1].prev, Undo(st[bp..sp], caps);
      TopmostConcat(LookK, Frames(st, bp - 3, prev, saved), Frame(st[bp - 1].kind, st[bp - 3].v, st[bp - 2].v, saved));
      if st[bp - 1].kind != LookK { TopmostHasLook(st, bp - 3, prev, saved); }
    }
  }

  /** While popping: `st0` is the stack before, `all` the pairs to keep, `spF` and `bpF` the target. */
  predicate Popping(st0: seq<Elem>, st: seq<Elem>, n: nat, sp: nat, bp: nat, top: nat, spF: nat, bpF: nat, all: seq<Elem>) {
    && WellFormed(st0, sp, bp, n) && HasLook(st0, bp) && Popped(st0, st, sp, top)
    && LookaheadBase(st0, sp, bp, n) == (spF, bpF)
    && all == Collected(st0, sp, bp, n) + Gather(st, sp, top)
  }

  predicate Popped(st0: seq<Elem>, st: seq<Elem>, sp: nat, top: nat) {
    sp <= top <= |st| == |st0| && st[..sp] == st0[..sp] && Marked(st, sp, top)
  }

  lemma PopHeader(st0: seq<Elem>, st: seq<Elem>, st': seq<Elem>, n: nat, sp: nat, bp: nat, top: nat, spF: nat, bpF: nat, all: seq<Elem>)
    requires Popping(st0, st, n, sp, bp, top, spF, bpF, all)
    requires 3 <= bp <= sp && st' == st[bp - 1 := Word(sp)]
    ensures st[bp - 1] == st0[bp - 1] && st[bp - 2] == st0[bp - 2] && st[bp - 3] == st0[bp - 3]
    ensures st0[bp - 1].Link? && st0[bp - 2].Word? && st0[bp - 3].Word? && st0[bp - 2].v >= 0 && st0[bp - 1].prev <= bp - 3
    ensures if st0[bp - 1].kind == LookK
      then spF == bp - 3 && bpF == st0[bp - 1].prev && Popped(st0, st', spF, top) && Gather(st', spF, top) == all
      else Popping(st0, st', n, bp - 3, st0[bp - 1].prev, top, spF, bpF, all)
  {
    hide Undo, Frames;
    MarkHeader(st, st', bp, sp, top);
    SlicePrefix(st0, st, sp, bp, sp);
    SameAt(st0, st, sp, bp - 1);
    SameAt(st0, st, sp, bp - 2);
    SameAt(st0, st, sp, bp - 3);
    SlicePrefix(st0, st, sp, 0, bp - 3);
    assert st'[..bp - 3] == st[..bp - 3];
  }

  /** While sliding: pairs already moved, then those still to read. */
  predicate Sliding(st0: seq<Elem>, st: seq<Elem>, spF: nat, sp: nat, sp1: nat, top: nat, all: seq<Elem>) {
    && spF <= sp <= sp1 <= top <= |st| == |st0| && st[..spF] == st0[..spF] && Marked(st, sp1, top)
    && all == st[spF..sp] + Gather(st, sp1, top)
  }

  /** Inside one run: `next` is its end. */
  predicate SlidingRun(st0: seq<Elem>, st: seq<Elem>, spF: nat, sp: nat, sp1: nat, next: nat, top: nat, all: seq<Elem>) {
    && spF <= sp <= sp1 <= next <= top <= |st| == |st0| && st[..spF] == st0[..spF] && Marked(st, next, top)
    && all == st[spF..sp] + st[sp1..next] + Gather(st, next, top)
  }

  lemma EnterRun(st0: seq<Elem>, st: seq<Elem>, spF: nat, sp: nat, sp1: nat, top: nat, all: seq<Elem>)
    requires Sliding(st0, st, spF, sp, sp1, top, all) && sp1 < top
    ensures sp1 + 3 <= top && st[sp1 + 2].Word? && sp1 + 3 <= st[sp1 + 2].v <= top
    ensures SlidingRun(st0, st, spF, sp, sp1 + 3, st[sp1 + 2].v, top, all)
  {
  }

  lemma LeaveRun(st0: seq<Elem>, st: seq<Elem>, spF: nat, sp: nat, next: nat, top: nat, all: seq<Elem>)
    requires SlidingRun(st0, st, spF, sp, next, next, top, all)
    ensures Sliding(st0, st, spF, sp, next, top, all)
  {
    hide Gather, Marked;
    assert st[next..next] == [];
  }

  lemma SlideOne(st0: seq<Elem>, st: seq<Elem>, spF: nat, sp: nat, sp1: nat, next: nat, top: nat, all: seq<Elem>)
    requires SlidingRun(st0, st, spF, sp, sp1, next, top, all) && sp1 < next
    ensures SlidingRun(st0, st[sp := st[sp1]], spF, sp + 1, sp1 + 1, next, top, all)
  {
    hide Gather, Marked;
    var st' := st[sp := st[sp1]];
    assert st'[next..top] == st[next..top];
    GatherAbove(st, st', next, top);
    assert st'[spF..sp + 1] == st[spF..sp] + [st[sp1]];
    assert [st[sp1]] + st'[sp1 + 1..next] == st[sp1..next];
    assert st'[..spF] == st[..spF];
  }

  lemma PoppedBounds(st0: seq<Elem>, st: seq<Elem>, sp: nat, top: nat)
    requires Popped(st0, st, sp, top)
    ensures sp <= top <= |st| == |st0| && st[..sp] == st0[..sp] && Marked(st, sp, top)
  {
    hide Marked;
  }

  lemma StartPopping(st0: seq<Elem>, sp: nat, bp: nat, n: nat, spF: nat, bpF: nat, all: seq<Elem>)
    requires WellFormed(st0, sp, bp, n) && HasLook(st0, bp) && sp <= |st0|
    requires LookaheadBase(st0, sp, bp, n) == (spF, bpF) && all == Collected(st0, sp, bp, n)
    ensures Popping(st0, st0, n, sp, bp, sp, spF, bpF, all)
  {
    hide WellFormed, HasLook, LookaheadBase, Collected;
    assert Gather(st0, sp, sp) == [];
  }

  lemma PoppingBounds(st0: seq<Elem>, st: seq<Elem>, n: nat, sp: nat, bp: nat, top: nat, spF: nat, bpF: nat, all: seq<Elem>)
    requires Popping(st0, st, n, sp, bp, top, spF, bpF, all)
    ensures 3 <= bp <= sp <= top <= |st| == |st0|
    ensures st[bp - 1].Link? && st[bp - 2].Word? && st[bp - 3].Word? && st[bp - 2].v >= 0 && st[bp - 1].prev <= bp - 3
  {
    hide Undo, Frames, LookaheadBase, Collected, Gather;
    SameAt(st0, st, sp, bp - 1);
    SameAt(st0, st, sp, bp - 2);
    SameAt(st0, st, sp, bp - 3);
  }

  lemma StartSliding(st0: seq<Elem>, sp: nat, top: nat)
    requires sp <= top <= |st0| && Marked(st0, sp, top)
    ensures Sliding(st0, st0, sp, sp, sp, top, Gather(st0, sp, top))
  {
    hide Marked, Gather;
  }

  lemma DoneSliding(st0: seq<Elem>, st: seq<Elem>, spF: nat, sp: nat, sp1: nat, top: nat, all: seq<Elem>)
    requires Sliding(st0, st, spF, sp, sp1, top, all) && sp1 >= top
    ensures spF <= sp <= |st| && st[..spF] == st0[..spF] && st[spF..sp] == all
  {
    assert Gather(st, top, top) == [];
  }

  lemma SlidingBounds(st0: seq<Elem>, st: seq<Elem>, spF: nat, sp: nat, sp1: nat, next: nat, top: nat, all: seq<Elem>)
    requires SlidingRun(st0, st, spF, sp, sp1, next, top, all)
    ensures sp <= sp1 <= next <= |st|
  {
  }

  /** The stack after the slide stands for the saved states below the lookahead. */
  lemma AfterLookahead(st0: seq<Elem>, sp0: nat, bp0: nat, st1: seq<Elem>, spF: nat, bpF: nat, st: seq<Elem>, sp: nat, caps: seq<int>)
    requires WellFormed(st0, sp0, bp0, |caps|) && Topmost(LookK, Frames(st0, sp0, bp0, caps)) >= 0
    requires (spF, bpF) == LookaheadBase(st0, sp0, bp0, |caps|) && spF <= |st1| && st1[..spF] == st0[..spF]
    requires spF <= sp <= |st| && st[..spF] == st1[..spF]
    requires spF != 0 ==> st[spF..sp] == Collected(st0, sp0, bp0, |caps|)
    requires spF == 0 ==> sp == 0
    ensures WellFormed(st, sp, bpF, |caps|) && bpF <= sp
    ensures Frames(st, sp, bpF, caps) == Frames(st0, sp0, bp0, caps)[..Topmost(LookK, Frames(st0, sp0, bp0, caps))]
  {
    hide WellFormed, Frames, LookaheadBase, Collected, Topmost, Undo;
    BpBelow(st0, sp0, bp0, |caps|);
    CompactionKeepsFrames(st0, sp0, bp0, caps);
    var all := Collected(st0, sp0, bp0, |caps|);
    PopBelow(st0, spF, bpF, |caps|);
    if spF != 0 {
      assert sp == spF + |all|;
      assert st[..sp] == st0[..spF] + all;
      Compacted(st0, spF, bpF, st, all, caps);
      PopBelow(st, sp, bpF, |caps|);
    } else {
      NoFrames(st0, 0, Undo(all, caps));
      FramesPrefix(st0, st, 0, 0, Undo(all, caps));
      EmptyStack(st, |caps|);
      NoFrames(st, 0, caps);
    }
  }

  lemma EmptyStack(st: seq<Elem>, n: nat)
    ensures WellFormed(st, 0, 0, n)
  {
  }

  class REExecContext {
    const p: Prog
    /** Two slots per group, then the registers; -1 is the null pointer. */
    const capture: array<int>
    var stack: array<Elem>
    var sp: nat
    var bp: nat
    var pc: int
    var cptr: nat

    ghost predicate Valid()
      reads this, stack, capture
    {
      bp <= sp <= stack.Length && WellFormed(stack[..], sp, bp, capture.Length)
    }

    ghost function Saved(): seq<Frame>
      requires Valid()
      reads this, stack, capture
    {
      Frames(stack[..], sp, bp, capture[..])
    }

    /** The configuration with whole saved states that this one stands for. */
    ghost function Abs(): Cfg
      requires Valid()
      reads this, stack, capture
    {
      Run(pc, cptr, capture[..], Saved())
    }

    lemma AbsIs()
      requires Valid()
      ensures Abs() == Run(pc, cptr, capture[..], Saved()) && Saved() == Frames(stack[..], sp, bp, capture[..])
      ensures bp <= sp <= stack.Length && WellFormed(stack[..], sp, bp, capture.Length)
    {
      hide WellFormed, Frames;
    }

    lemma ValidIs()
      requires bp <= sp <= stack.Length && WellFormed(stack[..], sp, bp, capture.Length)
      ensures Valid()
    {
      hide WellFormed;
    }

    /** What an instruction left behind. */
    ghost predicate Is(status: Status, c: Cfg)
      reads this, stack, capture
    {
      match status
      case Running => Valid() && Abs() == c
      case Matched => c == Accept(cptr, capture[..])
      case NoMatch => c == Reject
    }

    constructor (p: Prog, capture: array<int>, pc: int, cptr: nat)
      ensures Valid() && Abs() == Run(pc, cptr, capture[..], [])
      ensures this.p == p && this.capture == capture && fresh(stack)
    {
      this.p, this.capture := p, capture;
      this.stack := new Elem[32](_ => Word(0));
      this.sp, this.bp, this.pc, this.cptr := 0, 0, pc, cptr;
    }

    /** stack_realloc: the used part of the stack moves to a larger one. */
    method Grow(size: nat) returns (bigger: array<Elem>)
      requires sp <= stack.Length && sp <= size
      ensures fresh(bigger) && bigger.Length == size && bigger[..sp] == stack[..sp]
    {
      bigger := new Elem[size](_ => Word(0));
      var i := 0;
      while i < sp
        invariant 0 <= i <= sp && bigger[..i] == stack[..i]
        modifies bigger
      {
        bigger[i] := stack[i];
        i := i + 1;
      }
    }

    /** CHECK_STACK_SPACE: grow by half, or to what is needed. */
    method CheckStackSpace(n: nat)
      requires Valid()
      modifies this`stack
      ensures Valid() && Abs() == old(Abs()) && stack.Length - sp >= n
      ensures stack == old(stack) || fresh(stack)
      ensures stack.Length >= old(stack.Length) && stack[..sp] == old(stack[..sp])
    {
      BpBelow(stack[..], sp, bp, capture.Length);
      if stack.Length - sp < n {
        var size := stack.Length * 3 / 2;
        if size < sp + n { size := sp + n; }
        var bigger := Grow(size);
        assert bigger[..][..sp] == stack[..][..sp];
        FramesPrefix(stack[..], bigger[..], sp, bp, capture[..]);
        stack := bigger;
      }
    }

    /** SAVE_CAPTURE. */
    method SaveCapture(idx: nat, value: int)
      requires Valid() && idx < capture.Length
      modifies this`stack, this`sp, stack, capture
      ensures Valid() && Abs() == Run(pc, cptr, old(capture[..])[idx := value], old(Saved()))
      ensures stack == old(stack) || fresh(stack)
    {
      hide WellFormed, Frames;
      CheckStackSpace(2);
      BpBelow(stack[..], sp, bp, capture.Length);
      ghost var st, caps := stack[..], capture[..];
      stack[sp] := Word(idx);
      stack[sp + 1] := Word(capture[idx]);
      capture[idx] := value;
      assert stack[..][..sp] == st[..sp] && capture[..] == caps[idx := value];
      SaveKeepsFrames(st, stack[..], sp, bp, caps, idx, value);
      sp := sp + 2;
    }

    /** SAVE_CAPTURE_CHECK: no second entry for a slot logged since the last choice point. */
    method SaveCaptureCheck(idx: nat, value: int)
      requires Valid() && idx < capture.Length
      modifies this`stack, this`sp, stack, capture
      ensures Valid() && Abs() == Run(pc, cptr, old(capture[..])[idx := value], old(Saved()))
      ensures stack == old(stack) || fresh(stack)
    {
      hide WellFormed, Frames, Logged;
      BpBelow(stack[..], sp, bp, capture.Length);
      ghost var ps := stack[..][bp..sp];
      var sp1 := sp;
      while sp1 > bp && stack[sp1 - 2] != Word(idx)
        invariant bp <= sp1 <= sp && (sp1 - bp) % 2 == 0
      {
        sp1 := sp1 - 2;
      }
      if sp1 > bp {
        assert ps[2 * ((sp1 - bp) / 2 - 1)] == stack[sp1 - 2];
        LoggedAt(ps, (sp1 - bp) / 2 - 1, idx);
        SkipKeepsFrames(stack[..], sp, bp, capture[..], idx, value);
        ghost var caps := capture[..];
        capture[idx] := value;
        assert capture[..] == caps[idx := value];
        SkipWellFormed(stack[..], sp, bp, caps, idx, value);
      } else {
        SaveCapture(idx, value);
      }
    }

    /** A choice point for `target`, REExecStateEnum `kind`. */
    method PushState(kind: Kind, target: int)
      requires Valid()
      modifies this`stack, this`sp, this`bp, stack
      ensures Valid() && Abs() == Run(pc, cptr, capture[..], old(Saved()) + [Frame(kind, target, cptr, capture[..])])
      ensures stack == old(stack) || fresh(stack)
    {
      hide WellFormed, Frames;
      CheckStackSpace(3);
      BpBelow(stack[..], sp, bp, capture.Length);
      ghost var st := stack[..];
      stack[sp] := Word(target);
      stack[sp + 1] := Word(cptr);
      stack[sp + 2] := Link(bp, kind);
      assert stack[..][..sp] == st[..sp];
      PushAddsFrame(st, stack[..], sp, bp, capture[..], kind, target, cptr);
      sp := sp + 3;
      bp := sp;
    }

    /** Undo all capture writes since the last choice point. */
    method UndoToBp()
      requires Valid()
      modifies this`sp, capture
      ensures Valid() && sp == bp && Saved() == old(Saved())
    {
      hide WellFormed, Frames;
      BpBelow(stack[..], sp, bp, capture.Length);
      while sp > bp
        invariant Valid() && sp >= bp && Saved() == old(Saved())
      {
        ghost var caps := capture[..];
        UndoStep(stack[..], sp, bp, caps);
        capture[stack[sp - 2].v] := stack[sp - 1].v;
        assert capture[..] == caps[stack[sp - 2].v := stack[sp - 1].v];
        sp := sp - 2;
      }
    }

    /** Undo, then take the newest choice point off the stack and go to it. */
    method PopState() returns (kind: Kind)
      requires Valid() && bp != 0
      modifies this`sp, this`bp, this`pc, this`cptr, capture
      ensures Valid() && bp < old(bp)
      ensures old(Saved()) == Saved() + [Frame(kind, pc, cptr, capture[..])]
    {
      hide WellFormed, Frames;
      UndoToBp();
      PopRestores(stack[..], sp, bp, capture[..]);
      UndoNothing(stack[..], bp, capture[..]);
      pc := stack[bp - 3].v;
      cptr := stack[bp - 2].v;
      kind := stack[bp - 1].kind;
      sp, bp := bp - 3, stack[bp - 1].prev;
      PopBelow(stack[..], sp, bp, capture.Length);
    }

    /** no_match. */
    method Fail() returns (status: Status)
      requires Valid()
      modifies this`sp, this`bp, this`pc, this`cptr, capture
      ensures Is(status, FailTo(old(Saved())))
    {
      hide WellFormed, Frames;
      while true
        invariant Valid() && FailTo(Saved()) == FailTo(old(Saved()))
        decreases bp
      {
        if bp == 0 {
          NoFrames(stack[..], sp, capture[..]);
          return NoMatch;
        }
        ghost var before := Saved();
        var kind := PopState();
        assert before[..|before| - 1] == Saved();
        if kind != LookK { return Running; }
      }
    }

    /** Pop to the topmost pending lookahead, whatever is above it. */
    method PopToLookahead() returns (top: nat)
      requires Valid() && HasLook(stack[..], bp)
      modifies this`sp, this`bp, this`pc, this`cptr, stack
      ensures top == old(sp) && Popped(old(stack[..]), stack[..], sp, top)
      ensures (sp, bp) == LookaheadBase(old(stack[..]), old(sp), old(bp), capture.Length)
      ensures Gather(stack[..], sp, top) == Collected(old(stack[..]), old(sp), old(bp), capture.Length)
      ensures sp + 1 < stack.Length && old(stack[..])[sp] == Word(pc) && old(stack[..])[sp + 1] == Word(cptr)
    {
      hide *;
      AbsIs();
      ghost var st0 := stack[..];
      ghost var spF, bpF := LookaheadBase(st0, sp, bp, capture.Length).0, LookaheadBase(st0, sp, bp, capture.Length).1;
      ghost var all := Collected(st0, sp, bp, capture.Length);
      top := sp;
      StartPopping(st0, sp, bp, capture.Length, spF, bpF, all);
      while true
        invariant Popping(st0, stack[..], capture.Length, sp, bp, top, spF, bpF, all)
        decreases bp
      {
        PoppingBounds(st0, stack[..], capture.Length, sp, bp, top, spF, bpF, all);
        ghost var st := stack[..];
        var sp1 := sp;
        sp := bp;
        PopHeader(st0, st, st[sp - 1 := Word(sp1)], capture.Length, sp1, sp, top, spF, bpF, all);
        pc := stack[sp - 3].v;
        cptr := stack[sp - 2].v;
        var link := stack[sp - 1];
        bp := link.prev;
        stack[sp - 1] := Word(sp1);
        assert stack[..] == st[sp - 1 := Word(sp1)];
        sp := sp - 3;
        if link.kind == LookK { return; }
      }
    }

    /** Move the undo pairs kept onto the log below the lookahead. */
    method SlidePairs(top: nat)
      requires sp <= top <= stack.Length && Marked(stack[..], sp, top)
      modifies this`sp, stack
      ensures stack[..][..old(sp)] == old(stack[..][..sp])
      ensures old(sp) <= sp <= stack.Length && stack[..][old(sp)..sp] == old(Gather(stack[..], sp, top))
    {
      hide *;
      ghost var st0, spF, all := stack[..], sp, Gather(stack[..], sp, top);
      var sp1 := sp;
      StartSliding(st0, sp, top);
      while sp1 < top
        invariant Sliding(st0, stack[..], spF, sp, sp1, top, all)
      {
        EnterRun(st0, stack[..], spF, sp, sp1, top, all);
        var next := stack[sp1 + 2].v;
        sp1 := sp1 + 3;
        while sp1 < next
          invariant SlidingRun(st0, stack[..], spF, sp, sp1, next, top, all)
          invariant sp1 <= next
          decreases next - sp1
        {
          ghost var st := stack[..];
          SlideOne(st0, st, spF, sp, sp1, next, top, all);
          SlidingBounds(st0, st, spF, sp, sp1, next, top, all);
          stack[sp] := stack[sp1];
          assert stack[..] == st[sp := st[sp1]];
          sp := sp + 1;
          sp1 := sp1 + 1;
        }
        LeaveRun(st0, stack[..], spF, sp, next, top, all);
      }
      DoneSliding(st0, stack[..], spF, sp, sp1, top, all);
    }

    /** REOP_lookahead_match: drop the choice points made inside, keep what was captured. */
    method LookaheadMatch()
      requires Valid() && Topmost(LookK, Saved()) >= 0
      modifies this`sp, this`bp, this`pc, this`cptr, stack
      ensures Valid()
      ensures var k := Topmost(LookK, old(Saved()));
        Abs() == Run(old(Saved())[k].pc, old(Saved())[k].pos, capture[..], old(Saved())[..k])
    {
      hide *;
      ghost var st0, caps, sp0, bp0 := stack[..], capture[..], sp, bp;
      AbsIs();
      TopmostHasLook(st0, sp, bp, caps);
      CompactionKeepsFrames(st0, sp, bp, caps);
      ghost var (spF, bpF) := LookaheadBase(st0, sp, bp, capture.Length);
      KeptParts(st0, sp, caps, spF, bpF, Undo(Collected(st0, sp, bp, capture.Length), caps), Saved(), Topmost(LookK, Saved()));
      var top := PopToLookahead();
      ghost var st1 := stack[..];
      PoppedBounds(st0, st1, sp, top);
      if sp != 0 {
        SlidePairs(top);
      }
      AfterLookahead(st0, sp0, bp0, st1, spF, bp, stack[..], sp, caps);
      ValidIs();
      AbsIs();
    }

    /** REOP_negative_lookahead_match: the lookaround body matched, so the whole of it fails. */
    method NegativeLookaheadMatch() returns (status: Status)
      requires Valid() && Topmost(NegLookK, Saved()) >= 0
      modifies this`sp, this`bp, this`pc, this`cptr, capture
      ensures Is(status, FailTo(old(Saved())[..Topmost(NegLookK, old(Saved()))]))
    {
      hide WellFormed, Frames;
      ghost var k := Topmost(NegLookK, Saved());
      while true
        invariant Valid() && Topmost(NegLookK, Saved()) == k >= 0
        invariant Saved()[..k] == old(Saved())[..k]
        decreases bp
      {
        if bp == 0 { NoFrames(stack[..], sp, capture[..]); }
        ghost var before := Saved();
        var kind := PopState();
        TopmostConcat(NegLookK, Saved(), Frame(kind, pc, cptr, capture[..]));
        assert before[..k] == Saved()[..k];
        if kind == NegLookK { break; }
      }
      assert Saved() == old(Saved())[..k];
      status := Fail();
    }

    /** REOP_save_reset. */
    method SaveReset(lo: nat, hi: nat)
      requires Valid() && 2 * hi + 1 < capture.Length
      modifies this`stack, this`sp, stack, capture
      ensures Valid() && Abs() == Run(pc, cptr, ResetSlots(old(capture[..]), 2 * lo, 2 * (hi + 1)), old(Saved()))
      ensures stack == old(stack) || fresh(stack)
    {
      hide WellFormed, Frames;
      var i := lo;
      ghost var slots := capture[..];
      assert ResetSlots(slots, 2 * lo, 2 * lo) == slots;
      while i <= hi
        invariant lo <= i && (i <= hi + 1 || i == lo)
        invariant Valid() && Abs() == Run(pc, cptr, ResetSlots(slots, 2 * lo, 2 * i), old(Saved()))
        invariant stack == old(stack) || fresh(stack)
      {
        SaveCapture(2 * i, UNSET);
        SaveCapture(2 * i + 1, UNSET);
        assert ResetSlots(slots, 2 * lo, 2 * i)[2 * i := UNSET][2 * i + 1 := UNSET] == ResetSlots(slots, 2 * lo, 2 * (i + 1));
        i := i + 1;
      }
      assert ResetSlots(slots, 2 * lo, 2 * i) == ResetSlots(slots, 2 * lo, 2 * (hi + 1));
    }

    /** Compare a captured text with what follows `cptr`; on a mismatch `cptr` is abandoned. */
    method CompareAfter(icase: bool, start: int, end: int) returns (ok: bool)
      modifies this`cptr
      ensures ok == (CompareForward(p.env, icase, start, end, old(cptr)) != -1)
      ensures ok ==> cptr == CompareForward(p.env, icase, start, end, old(cptr))
    {
      var cptr1 := start;
      while cptr1 < end
        invariant CompareForward(p.env, icase, cptr1, end, cptr) == CompareForward(p.env, icase, start, end, old(cptr))
      {
        if cptr >= |p.env.input| { return false; }
        var c1, c2 := CharAt(p.env, cptr1), p.env.input[cptr];
        cptr1, cptr := cptr1 + 1, cptr + 1;
        if Canon(p.env, icase, c1) != Canon(p.env, icase, c2) { return false; }
      }
      return true;
    }

    method CompareBefore(icase: bool, start: int, end: int) returns (ok: bool)
      modifies this`cptr
      ensures ok == (CompareBackward(p.env, icase, end, start, old(cptr)) != -1)
      ensures ok ==> cptr == CompareBackward(p.env, icase, end, start, old(cptr))
    {
      var cptr1 := end;
      while cptr1 > start
        invariant CompareBackward(p.env, icase, cptr1, start, cptr) == CompareBackward(p.env, icase, end, start, old(cptr))
      {
        if cptr == 0 { return false; }
        cptr1, cptr := cptr1 - 1, cptr - 1;
        if Canon(p.env, icase, CharAt(p.env, cptr1)) != Canon(p.env, icase, CharAt(p.env, cptr)) { return false; }
      }
      return true;
    }

    /** REOP_back_reference and its variants. */
    method BackReference(refs: seq<nat>, icase: bool, back: bool) returns (ok: bool)
      requires 2 * p.captures <= capture.Length
      modifies this`cptr
      ensures var q := MachineBackRef(p.env, refs, icase, back, capture[..2 * p.captures], old(cptr));
        ok == (q != -1) && (ok ==> cptr == q)
    {
      var i := 0;
      ghost var slots := capture[..2 * p.captures];
      while i < |refs|
        invariant 0 <= i <= |refs| && cptr == old(cptr)
        invariant MachineBackRef(p.env, refs[i..], icase, back, slots, cptr) == MachineBackRef(p.env, refs, icase, back, slots, old(cptr))
      {
        var val := refs[i];
        assert refs[i..][0] == val && refs[i..][1..] == refs[i + 1..];
        if val >= p.captures { return false; }
        var start, end := capture[2 * val], capture[2 * val + 1];
        if start != UNSET && end != UNSET {
          if back { ok := CompareBefore(icase, start, end); } else { ok := CompareAfter(icase, start, end); }
          return;
        }
        i := i + 1;
      }
      return true;
    }

    method TestChar(i: Instr, ch: nat) returns (ok: bool)
      requires Consumes(i) && (i.IRange? ==> i.ranges != [])
      ensures ok == InstrAccepts(p.env, i, ch)
    {
      match i
      case IChar(_, icase, c) => ok := c == (if icase then p.env.canon(ch) else ch);
      case IDot => ok := !IsLineTerminator(ch);
      case ISpace(negated) => ok := p.env.isSpace(ch) != negated;
      case IRange(wide, icase, rs) => ok := InRanges(wide, rs, if icase then p.env.canon(ch) else ch);
      case IAny => ok := true;
    }

    /** Instructions that consume a character. */
    method ExecuteChar(i: Instr) returns (status: Status)
      requires Valid() && Consumes(i) && (i.IRange? ==> i.ranges != [])
      modifies this`sp, this`bp, this`pc, this`cptr, capture
      ensures Is(status, old(ExecInstr(p, i, pc, Abs())))
    {
      hide WellFormed, Frames;
      if cptr >= |p.env.input| {
        status := Fail();
        return;
      }
      var ok := TestChar(i, p.env.input[cptr]);
      if ok {
        cptr := cptr + 1;
        status := Running;
      } else {
        status := Fail();
      }
    }

    method TestPosition(i: Instr) returns (ok: bool)
      requires Asserts(i) && cptr <= |p.env.input|
      ensures ok == AssertHolds(p.env, i, cptr)
    {
      var input := p.env.input;
      match i
      case ILineStart(multi) =>
        if cptr == 0 { return true; }
        if !multi { return false; }
        ok := IsLineTerminator(input[cptr - 1]);
      case ILineEnd(multi) =>
        if cptr == |input| { return true; }
        if !multi { return false; }
        ok := IsLineTerminator(input[cptr]);
      case IWordBoundary(negated, icase) =>
        var v1, v2 := false, false;
        if cptr != 0 { v1 := IsWordChar(input[cptr - 1], icase); }
        if cptr < |input| { v2 := IsWordChar(input[cptr], icase); }
        ok := (v1 != v2) != negated;
    }

    /** Assertions about the position, and REOP_prev. */
    method ExecuteAssert(i: Instr) returns (status: Status)
      requires Valid() && (Asserts(i) || i.IPrev?) && cptr <= |p.env.input|
      modifies this`sp, this`bp, this`pc, this`cptr, capture
      ensures Is(status, old(ExecInstr(p, i, pc, Abs())))
    {
      hide WellFormed, Frames;
      var ok;
      if i.IPrev? {
        ok := cptr != 0;
        if ok { cptr := cptr - 1; }
      } else {
        ok := TestPosition(i);
      }
      if ok { status := Running; } else { status := Fail(); }
    }

    /** Push the alternative tried second, go to the first. */
    method Split(nextFirst: bool, off: int)
      requires Valid()
      modifies this`stack, this`sp, this`bp, this`pc, stack
      ensures Valid() && Abs() == BranchOn(nextFirst, old(pc), old(pc) + off, cptr, capture[..], old(Saved()))
      ensures stack == old(stack) || fresh(stack)
    {
      hide WellFormed, Frames;
      var pc1;
      if nextFirst {
        pc1 := pc + off;
      } else {
        pc1 := pc;
        pc := pc + off;
      }
      PushState(SplitK, pc1);
    }

    /** Registers and loops. */
    method ExecuteLoop(i: Instr) returns (status: Status)
      requires Valid() && (i.ISetI32? || i.ISetPos? || i.ICheckAdv? || i.ILoop?)
      requires ExecLoop(p, i, pc, Abs()) != Crash
      modifies this, stack, capture
      ensures Is(status, old(ExecLoop(p, i, pc, Abs())))
      ensures stack == old(stack) || fresh(stack)
    {
      hide WellFormed, Frames;
      var idx := 2 * p.captures + i.r;
      status := Running;
      match i
      case ISetI32(_, v) => SaveCaptureCheck(idx, v);
      case ISetPos(_) => SaveCaptureCheck(idx, cptr);
      case ICheckAdv(_) => if capture[idx] == cptr { status := Fail(); }
      case ILoop(_, off) =>
        var val2 := Decrement(capture[idx]);
        SaveCaptureCheck(idx, val2);
        if val2 != 0 { pc := pc + off; }
    }

    method ExecuteLoopSplit(i: Instr) returns (status: Status)
      requires Valid() && i.ILoopSplit? && ExecLoop(p, i, pc, Abs()) != Crash
      modifies this, stack, capture
      ensures Is(status, old(ExecLoop(p, i, pc, Abs())))
      ensures stack == old(stack) || fresh(stack)
    {
      hide WellFormed, Frames;
      var idx := 2 * p.captures + i.r;
      var val2 := Decrement(capture[idx]);
      SaveCaptureCheck(idx, val2);
      status := Running;
      if val2 > i.limit {
        pc := pc + i.off;
      } else if i.adv && capture[idx + 1] == cptr && val2 != i.limit {
        status := Fail();
      } else if val2 != 0 {
        Split(i.nextFirst, i.off);
      }
    }

    /** Captures, jumps and lookarounds. */
    method ExecuteControl(i: Instr) returns (status: Status)
      requires Valid() && (i.ISave? || i.IReset? || i.IGoto? || i.ISplit? || i.IMatch? || i.ILook?)
      requires ExecControl(p, i, pc, Abs()) != Crash
      modifies this, stack, capture
      ensures Is(status, old(ExecControl(p, i, pc, Abs())))
      ensures stack == old(stack) || fresh(stack)
    {
      hide WellFormed, Frames;
      status := Running;
      match i
      case ISave(end, g) => SaveCapture(2 * g + (if end then 1 else 0), cptr);
      case IReset(lo, hi) => SaveReset(lo, hi);
      case IGoto(off) => pc := pc + off;
      case ISplit(nextFirst, off) => Split(nextFirst, off);
      case IMatch => status := Matched;
      case ILook(negated, off) => PushState(if negated then NegLookK else LookK, pc + off);
    }

    method ExecuteBack(i: Instr) returns (status: Status)
      requires Valid() && (i.IBackRef? || i.ILookMatch?) && ExecControl(p, i, pc, Abs()) != Crash
      modifies this, stack, capture
      ensures Is(status, old(ExecControl(p, i, pc, Abs())))
      ensures stack == old(stack) || fresh(stack)
    {
      hide WellFormed, Frames;
      status := Running;
      match i
      case IBackRef(back, icase, refs) =>
        var ok := BackReference(refs, icase, back);
        if !ok { status := Fail(); }
      case ILookMatch(negated) =>
        if negated { status := NegativeLookaheadMatch(); } else { LookaheadMatch(); }
    }

    /** One turn of the interpreter loop. */
    method RunInstruction() returns (status: Status)
      requires Valid() && SnapshotVm.Step(p, Abs()) != Crash && cptr <= |p.env.input|
      modifies this, stack, capture
      ensures Is(status, old(SnapshotVm.Step(p, Abs())))
      ensures stack == old(stack) || fresh(stack)
    {
      hide WellFormed, Frames, Fetch, ExecLoop, ExecControl, FailTo;
      var i := Fetch(p.code, pc).value;
      AddressFree(p, i, pc + ISize(i), Abs());
      pc := pc + ISize(i);
      if Consumes(i) {
        if i.IRange? { FetchedRanges(p.code, old(pc)); }
        status := ExecuteChar(i);
      } else if Asserts(i) || i.IPrev? {
        status := ExecuteAssert(i);
      } else if i.ILoopSplit? {
        status := ExecuteLoopSplit(i);
      } else if i.ISetI32? || i.ISetPos? || i.ICheckAdv? || i.ILoop? {
        status := ExecuteLoop(i);
      } else if i.IBackRef? || i.ILookMatch? {
        status := ExecuteBack(i);
      } else {
        status := ExecuteControl(i);
      }
    }

    /** lre_exec_backtrack: run until the program accepts or nothing is left to try. */
    method LreExecBacktrack(ghost final: Cfg) returns (status: Status)
      requires Valid() && Inside(p.env, Abs())
      requires Reaches(p, Abs(), final) && (final.Accept? || final.Reject?)
      modifies this, stack, capture
      ensures status != Running && Is(status, final)
    {
      hide *;
      ghost var k: nat := StepsTo(p, Abs(), final);
      status := Running;
      while status == Running
        invariant stack == old(stack) || fresh(stack)
        invariant status != Running ==> Is(status, final)
        invariant status == Running ==> Valid() && Inside(p.env, Abs()) && Steps(p, Abs(), k) == final
        decreases status == Running, k
      {
        AbsIs();
        NextStep(p, Abs(), k, final);
        StepInside(p, Abs());
        InsideCursor(p.env, Abs());
        ghost var c := SnapshotVm.Step(p, Abs());
        status := RunInstruction();
        k := k - 1;
        IsCases(status, c);
        if status != Running { Stopped(p, c, k, final); }
      }
    }

    lemma IsCases(status: Status, c: Cfg)
      requires Is(status, c)
      ensures status == Running ==> Valid() && Abs() == c
      ensures status == Matched ==> c == Accept(cptr, capture[..])
      ensures status == NoMatch ==> c == Reject
    {
      hide WellFormed, Frames;
    }
  }

  lemma InsideCursor(e: Env, c: Cfg)
    requires c.Run? && Inside(e, c)
    ensures c.pos <= |e.input|
  {
  }

  lemma StepsTo(p: Prog, c: Cfg, final: Cfg) returns (k: nat)
    requires Reaches(p, c, final)
    ensures Steps(p, c, k) == final
  {
    k :| Steps(p, c, k) == final;
  }

  /** A running configuration on the way to a final one has a step to take. */
  lemma NextStep(p: Prog, c: Cfg, k: nat, final: Cfg)
    requires c.Run? && Steps(p, c, k) == final && (final.Accept? || final.Reject?)
    ensures k > 0 && SnapshotVm.Step(p, c) != Crash && Steps(p, SnapshotVm.Step(p, c), k - 1) == final
  {
    hide SnapshotVm.Step;
    if k > 0 && SnapshotVm.Step(p, c) == Crash { CrashStays(p, k - 1); }
  }

  lemma {:induction false} Stopped(p: Prog, c: Cfg, k: nat, final: Cfg)
    requires (c.Accept? || c.Reject?) && Steps(p, c, k) == final
    ensures c == final
    decreases k
  {
    if k > 0 { Stopped(p, SnapshotVm.Step(p, c), k - 1, final); }
  }

  /** The binary search of REOP_range and REOP_range32, on unsigned indices: `hi` never wraps. */
  method InRanges(wide: bool, rs: seq<(nat, nat)>, c: nat) returns (found: bool)
    requires rs != []
    ensures found == RangeSearch(wide, rs, c)
  {
    var lo: nat, hi: nat := 0, |rs| - 1;
    if c < rs[0].0 { return false; }
    if !wide && c >= 0xffff && rs[hi].1 == 0xffff { return true; }
    if c > rs[hi].1 { return false; }
    while lo <= hi
      invariant hi < |rs| && SearchBetween(rs, lo, hi, c) == SearchBetween(rs, 0, |rs| - 1, c)
    {
      var mid := (lo + hi) / 2;
      if c < rs[mid].0 { hi := mid - 1; }
      else if c > rs[mid].1 { lo := mid + 1; }
      else { return true; }
    }
    return false;
  }

  lemma LoggedAt(ps: seq<Elem>, k: nat, idx: int)
    requires k < |ps| / 2 && ps[2 * k] == Word(idx)
    ensures Logged(ps, idx)
  {
  }

  lemma SkipWellFormed(st: seq<Elem>, sp: nat, bp: nat, caps: seq<int>, idx: nat, value: int)
    requires WellFormed(st, sp, bp, |caps|) && idx < |caps|
    ensures WellFormed(st, sp, bp, |caps[idx := value]|)
  {
  }

  lemma UndoNothing(st: seq<Elem>, bp: nat, caps: seq<int>)
    requires bp <= |st|
    ensures Pairs(st[bp..bp], |caps|) && Undo(st[bp..bp], caps) == caps
  {
  }

  lemma PopBelow(st: seq<Elem>, sp: nat, bp: nat, n: nat)
    requires WellFormed(st, sp, bp, n)
    ensures bp <= sp
  {
  }

  lemma NoFrames(st: seq<Elem>, sp: nat, caps: seq<int>)
    requires WellFormed(st, sp, 0, |caps|)
    ensures Frames(st, sp, 0, caps) == []
  {
  }
}
