/** The real machine's stack: choice points and the capture undo log share one array. Here it is
  * related to the whole saved states of SnapshotVm. */
module UndoLog {
  import opened SnapshotVm

  /** A stack slot: a pointer or index, or the saved `bp` with the type of the choice point. */
  datatype Elem = Word(v: int) | Link(prev: nat, kind: Kind)

  /** (index, old value) pairs of the undo log. */
  predicate Pairs(ps: seq<Elem>, n: nat) {
    |ps| % 2 == 0 &&
    forall k :: 0 <= k < |ps| ==> ps[k].Word? && (k % 2 == 0 ==> 0 <= ps[k].v < n)
  }

  /** Undo from the newest pair to the oldest. */
  function Undo(ps: seq<Elem>, caps: seq<int>): (r: seq<int>)
    requires Pairs(ps, |caps|)
    ensures |r| == |caps|
    decreases |ps|
  {
    if ps == [] then caps else
    var k := |ps| - 2;
    assert ps[..k] == ps[..k];
    Undo(ps[..k], caps[ps[k].v := ps[k + 1].v])
  }

  /** From `bp` down every choice point is (pc, position, link to the previous one). */
  predicate WellFormed(st: seq<Elem>, sp: nat, bp: nat, n: nat)
    decreases bp
  {
    && bp <= sp <= |st| && Pairs(st[bp..sp], n)
    && (bp != 0 ==>
         && bp >= 3 && st[bp - 3].Word? && st[bp - 2].Word? && st[bp - 2].v >= 0 && st[bp - 1].Link?
         && st[bp - 1].prev <= bp - 3 && WellFormed(st, bp - 3, st[bp - 1].prev, n))
  }

  /** The saved states the stack stands for, given the current capture array. */
  function Frames(st: seq<Elem>, sp: nat, bp: nat, caps: seq<int>): (r: seq<Frame>)
    requires WellFormed(st, sp, bp, |caps|)
    decreases bp
  {
    if bp == 0 then [] else
    var saved := Undo(st[bp..sp], caps);
    Frames(st, bp - 3, st[bp - 1].prev, saved) + [Frame(st[bp - 1].kind, st[bp - 3].v, st[bp - 2].v, saved)]
  }

  // ----- the log -----

  lemma PairsConcat(a: seq<Elem>, b: seq<Elem>, n: nat)
    requires Pairs(a, n) && Pairs(b, n)
    ensures Pairs(a + b, n)
  {
  }

  lemma PairsPrefix(a: seq<Elem>, k: nat, n: nat)
    requires Pairs(a, n) && k <= |a| && k % 2 == 0
    ensures Pairs(a[..k], n)
  {
  }

  lemma {:induction false} UndoConcat(a: seq<Elem>, b: seq<Elem>, caps: seq<int>)
    requires Pairs(a, |caps|) && Pairs(b, |caps|)
    ensures Pairs(a + b, |caps|) && Undo(a + b, caps) == Undo(a, Undo(b, caps))
    decreases |b|
  {
    PairsConcat(a, b, |caps|);
    if b == [] {
      assert a + b == a;
    } else {
      var k := |b| - 2;
      PairsPrefix(b, k, |caps|);
      assert (a + b)[..|a + b| - 2] == a + b[..k];
      UndoConcat(a, b[..k], caps[b[k].v := b[k + 1].v]);
    }
  }

  predicate Logged(ps: seq<Elem>, idx: int) {
    exists k :: 0 <= k < |ps| / 2 && ps[2 * k].Word? && ps[2 * k].v == idx
  }

  /** A slot already in the log may be overwritten without logging it again. */
  lemma {:induction false} UndoIgnoresLogged(ps: seq<Elem>, caps: seq<int>, idx: nat, value: int)
    requires Pairs(ps, |caps|) && idx < |caps| && Logged(ps, idx)
    ensures Undo(ps, caps[idx := value]) == Undo(ps, caps)
    decreases |ps|
  {
    var k := |ps| - 2;
    PairsPrefix(ps, k, |caps|);
    var i, was := ps[k].v, ps[k + 1].v;
    if i == idx {
      assert caps[idx := value][i := was] == caps[i := was];
    } else {
      assert caps[idx := value][i := was] == caps[i := was][idx := value];
      var j :| 0 <= j < |ps| / 2 && ps[2 * j].Word? && ps[2 * j].v == idx;
      assert j != |ps| / 2 - 1;
      assert ps[..k][2 * j] == ps[2 * j];
      UndoIgnoresLogged(ps[..k], caps[i := was], idx, value);
    }
  }

  /** The stack below `sp` is all that matters. */
  lemma {:induction false} WellFormedPrefix(st: seq<Elem>, st': seq<Elem>, sp: nat, bp: nat, n: nat)
    requires WellFormed(st, sp, bp, n) && sp <= |st'| && st'[..sp] == st[..sp]
    ensures WellFormed(st', sp, bp, n)
    decreases bp
  {
    SlicePrefix(st, st', sp, bp, sp);
    if bp != 0 {
      SameAt(st, st', sp, bp - 3);
      SameAt(st, st', sp, bp - 2);
      SameAt(st, st', sp, bp - 1);
      SlicePrefix(st, st', sp, 0, bp - 3);
      WellFormedPrefix(st, st', bp - 3, st[bp - 1].prev, n);
    }
  }

  lemma SlicePrefix(st: seq<Elem>, st': seq<Elem>, sp: nat, i: nat, j: nat)
    requires sp <= |st| && sp <= |st'| && st'[..sp] == st[..sp] && i <= j <= sp
    ensures st'[i..j] == st[i..j] && st'[..j] == st[..j]
  {
    assert st'[i..j] == st'[..sp][i..j] && st[i..j] == st[..sp][i..j];
    assert st'[..j] == st'[..sp][..j] && st[..j] == st[..sp][..j];
  }

  lemma SameAt(st: seq<Elem>, st': seq<Elem>, sp: nat, k: nat)
    requires sp <= |st| && sp <= |st'| && st'[..sp] == st[..sp] && k < sp
    ensures st'[k] == st[k]
  {
    assert st'[k] == st'[..sp][k] && st[k] == st[..sp][k];
  }

  lemma {:induction false} FramesPrefix(st: seq<Elem>, st': seq<Elem>, sp: nat, bp: nat, caps: seq<int>)
    requires WellFormed(st, sp, bp, |caps|) && sp <= |st'| && st'[..sp] == st[..sp]
    ensures WellFormed(st', sp, bp, |caps|) && Frames(st', sp, bp, caps) == Frames(st, sp, bp, caps)
    decreases bp
  {
    WellFormedPrefix(st, st', sp, bp, |caps|);
    SlicePrefix(st, st', sp, bp, sp);
    if bp != 0 {
      SameAt(st, st', sp, bp - 3);
      SameAt(st, st', sp, bp - 2);
      SameAt(st, st', sp, bp - 1);
      SlicePrefix(st, st', sp, 0, bp - 3);
      FramesPrefix(st, st', bp - 3, st[bp - 1].prev, Undo(st[bp..sp], caps));
    }
  }

  /** Frames depend on the log above `bp` only through what it undoes to. */
  lemma FramesSameUndo(st: seq<Elem>, sp: nat, st': seq<Elem>, sp': nat, bp: nat, caps: seq<int>, caps': seq<int>)
    requires WellFormed(st, sp, bp, |caps|) && |caps'| == |caps|
    requires bp <= sp' <= |st'| && st'[..bp] == st[..bp] && Pairs(st'[bp..sp'], |caps|)
    requires Undo(st'[bp..sp'], caps') == Undo(st[bp..sp], caps)
    ensures WellFormed(st', sp', bp, |caps|) && Frames(st', sp', bp, caps') == Frames(st, sp, bp, caps)
  {
    hide *;
    if bp == 0 {
      NoFramesBelow(st, sp, caps);
      NoFramesHere(st', sp', caps');
    } else {
      PopRestores(st, sp, bp, caps);
      BpBelow(st, sp, bp, |caps|);
      SameAt(st, st', bp, bp - 3);
      SameAt(st, st', bp, bp - 2);
      SameAt(st, st', bp, bp - 1);
      SlicePrefix(st, st', bp, 0, bp - 3);
      FramesRebuild(st, st', sp', bp, Undo(st[bp..sp], caps), caps');
    }
  }

  lemma FramesRebuild(st: seq<Elem>, st': seq<Elem>, sp: nat, bp: nat, saved: seq<int>, caps: seq<int>)
    requires 3 <= bp <= |st| && bp <= sp <= |st'| && Pairs(st'[bp..sp], |caps|) && saved == Undo(st'[bp..sp], caps)
    requires st[bp - 3].Word? && st[bp - 2].Word? && st[bp - 2].v >= 0 && st[bp - 1].Link? && st[bp - 1].prev <= bp - 3
    requires st'[bp - 3] == st[bp - 3] && st'[bp - 2] == st[bp - 2] && st'[bp - 1] == st[bp - 1] && st'[..bp - 3] == st[..bp - 3]
    requires |saved| == |caps| && WellFormed(st, bp - 3, st[bp - 1].prev, |caps|)
    ensures WellFormed(st', sp, bp, |caps|)
    ensures Frames(st', sp, bp, caps) ==
      Frames(st, bp - 3, st[bp - 1].prev, saved) + [Frame(st[bp - 1].kind, st[bp - 3].v, st[bp - 2].v, saved)]
  {
    hide *;
    FramesPrefix(st, st', bp - 3, st[bp - 1].prev, saved);
    FramesBuild(st', sp, bp, caps);
  }

  lemma NoFramesBelow(st: seq<Elem>, sp: nat, caps: seq<int>)
    requires WellFormed(st, sp, 0, |caps|)
    ensures Frames(st, sp, 0, caps) == []
  {
  }

  lemma NoFramesHere(st: seq<Elem>, sp: nat, caps: seq<int>)
    requires sp <= |st| && Pairs(st[0..sp], |caps|)
    ensures WellFormed(st, sp, 0, |caps|) && Frames(st, sp, 0, caps) == []
  {
  }

  lemma FramesBuild(st: seq<Elem>, sp: nat, bp: nat, caps: seq<int>)
    requires 3 <= bp <= sp <= |st| && Pairs(st[bp..sp], |caps|)
    requires st[bp - 3].Word? && st[bp - 2].Word? && st[bp - 2].v >= 0 && st[bp - 1].Link? && st[bp - 1].prev <= bp - 3
    requires WellFormed(st, bp - 3, st[bp - 1].prev, |caps|)
    ensures var saved := Undo(st[bp..sp], caps);
      && WellFormed(st, sp, bp, |caps|)
      && Frames(st, sp, bp, caps) == Frames(st, bp - 3, st[bp - 1].prev, saved) + [Frame(st[bp - 1].kind, st[bp - 3].v, st[bp - 2].v, saved)]
  {
    hide Undo, Pairs;
  }

  /** SAVE_CAPTURE: logging the old value makes a write invisible to every saved state. */
  lemma SaveKeepsFrames(st: seq<Elem>, st': seq<Elem>, sp: nat, bp: nat, caps: seq<int>, idx: nat, value: int)
    requires WellFormed(st, sp, bp, |caps|) && idx < |caps|
    requires |st'| >= sp + 2 && st'[..sp] == st[..sp] && st'[sp] == Word(idx) && st'[sp + 1] == Word(caps[idx])
    ensures WellFormed(st', sp + 2, bp, |caps|) && Frames(st', sp + 2, bp, caps[idx := value]) == Frames(st, sp, bp, caps)
  {
    hide WellFormed, Frames;
    BpBelow(st, sp, bp, |caps|);
    var ps, last := st[bp..sp], [Word(idx), Word(caps[idx])];
    SlicePrefix(st, st', sp, bp, sp);
    SlicePrefix(st, st', sp, 0, bp);
    assert st'[bp..sp + 2] == ps + last;
    assert caps[idx := value][idx := caps[idx]] == caps;
    UndoLast(idx, caps, value);
    UndoConcat(ps, last, caps[idx := value]);
    FramesSameUndo(st, sp, st', sp + 2, bp, caps, caps[idx := value]);
  }

  lemma UndoLast(idx: nat, caps: seq<int>, value: int)
    requires idx < |caps|
    ensures Pairs([Word(idx), Word(caps[idx])], |caps|)
    ensures Undo([Word(idx), Word(caps[idx])], caps[idx := value]) == caps
  {
    var last := [Word(idx), Word(caps[idx])];
    assert last[..0] == [];
    assert caps[idx := value][idx := caps[idx]] == caps;
  }

  lemma BpBelow(st: seq<Elem>, sp: nat, bp: nat, n: nat)
    requires WellFormed(st, sp, bp, n)
    ensures bp <= sp <= |st| && Pairs(st[bp..sp], n)
  {
  }

  /** SAVE_CAPTURE_CHECK: a slot saved since the last choice point needs no second entry. */
  lemma SkipKeepsFrames(st: seq<Elem>, sp: nat, bp: nat, caps: seq<int>, idx: nat, value: int)
    requires WellFormed(st, sp, bp, |caps|) && idx < |caps| && Logged(st[bp..sp], idx)
    ensures Frames(st, sp, bp, caps[idx := value]) == Frames(st, sp, bp, caps)
  {
    hide WellFormed, Frames;
    BpBelow(st, sp, bp, |caps|);
    UndoIgnoresLogged(st[bp..sp], caps, idx, value);
    FramesSameUndo(st, sp, st, sp, bp, caps, caps[idx := value]);
  }

  /** A new choice point saves the current capture array as it is. */
  lemma PushAddsFrame(st: seq<Elem>, st': seq<Elem>, sp: nat, bp: nat, caps: seq<int>, kind: Kind, pc: int, pos: nat)
    requires WellFormed(st, sp, bp, |caps|)
    requires |st'| >= sp + 3 && st'[..sp] == st[..sp]
    requires st'[sp] == Word(pc) && st'[sp + 1] == Word(pos) && st'[sp + 2] == Link(bp, kind)
    ensures WellFormed(st', sp + 3, sp + 3, |caps|)
    ensures Frames(st', sp + 3, sp + 3, caps) == Frames(st, sp, bp, caps) + [Frame(kind, pc, pos, caps)]
  {
    BpBelow(st, sp, bp, |caps|);
    FramesPrefix(st, st', sp, bp, caps);
    assert st'[sp + 3..sp + 3] == [];
  }

  /** Undoing the log and dropping the header restores the newest saved state. */
  lemma PopRestores(st: seq<Elem>, sp: nat, bp: nat, caps: seq<int>)
    requires WellFormed(st, sp, bp, |caps|) && bp != 0
    ensures 3 <= bp <= sp <= |st| && st[bp - 3].Word? && st[bp - 2].Word? && st[bp - 2].v >= 0
    ensures st[bp - 1].Link? && st[bp - 1].prev <= bp - 3 && Pairs(st[bp..sp], |caps|)
    ensures var saved := Undo(st[bp..sp], caps);
      var prev := st[bp - 1].prev;
      && WellFormed(st, bp - 3, prev, |caps|)
      && Frames(st, sp, bp, caps) == Frames(st, bp - 3, prev, saved) + [Frame(st[bp - 1].kind, st[bp - 3].v, st[bp - 2].v, saved)]
  {
  }

  // ----- successful lookahead -----

  /** Stack and base pointer once everything down to the topmost lookahead is popped. */
  function LookaheadBase(st: seq<Elem>, sp: nat, bp: nat, n: nat): (r: (nat, nat))
    requires WellFormed(st, sp, bp, n)
    ensures r.0 <= sp
    decreases bp
  {
    if bp == 0 then (sp, 0)
    else if st[bp - 1].kind == LookK then (bp - 3, st[bp - 1].prev)
    else LookaheadBase(st, bp - 3, st[bp - 1].prev, n)
  }

  /** All undo pairs above that lookahead, oldest first. */
  function Collected(st: seq<Elem>, sp: nat, bp: nat, n: nat): (r: seq<Elem>)
    requires WellFormed(st, sp, bp, n)
    ensures Pairs(r, n)
    decreases bp
  {
    if bp == 0 || st[bp - 1].kind == LookK then st[bp..sp]
    else
      PairsConcat(Collected(st, bp - 3, st[bp - 1].prev, n), st[bp..sp], n);
      Collected(st, bp - 3, st[bp - 1].prev, n) + st[bp..sp]
  }

  lemma {:induction false} TopmostConcat(kind: Kind, fs: seq<Frame>, f: Frame)
    ensures Topmost(kind, fs + [f]) == if f.kind == kind then |fs| else Topmost(kind, fs)
  {
    assert (fs + [f])[..|fs|] == fs;
  }

  lemma LookaheadUnfold(st: seq<Elem>, sp: nat, bp: nat, n: nat)
    requires WellFormed(st, sp, bp, n) && bp != 0
    ensures st[bp - 1].kind == LookK ==> LookaheadBase(st, sp, bp, n) == (bp - 3, st[bp - 1].prev) && Collected(st, sp, bp, n) == st[bp..sp]
    ensures st[bp - 1].kind != LookK ==>
      && LookaheadBase(st, sp, bp, n) == LookaheadBase(st, bp - 3, st[bp - 1].prev, n)
      && Collected(st, sp, bp, n) == Collected(st, bp - 3, st[bp - 1].prev, n) + st[bp..sp]
    ensures bp <= sp
  {
  }

  /** What a successful lookahead must leave behind. */
  predicate Kept(st: seq<Elem>, sp: nat, caps: seq<int>, sp0: nat, bp0: nat, saved: seq<int>, fs: seq<Frame>, k: int) {
    && |saved| == |caps| && WellFormed(st, sp0, bp0, |caps|) && 0 <= k < |fs|
    && Frames(st, sp0, bp0, saved) == fs[..k]
    && sp0 + 3 <= sp <= |st| && st[sp0].Word? && st[sp0 + 1].Word?
    && fs[k].pc == st[sp0].v && fs[k].pos == st[sp0 + 1].v
  }

  lemma KeptParts(st: seq<Elem>, sp: nat, caps: seq<int>, sp0: nat, bp0: nat, saved: seq<int>, fs: seq<Frame>, k: int)
    requires Kept(st, sp, caps, sp0, bp0, saved, fs, k)
    ensures 0 <= k < |fs| && sp0 + 3 <= sp <= |st| && st[sp0].Word? && st[sp0 + 1].Word?
    ensures fs[k].pc == st[sp0].v && fs[k].pos == st[sp0 + 1].v
  {
    hide WellFormed, Frames;
  }

  lemma KeptHere(st: seq<Elem>, sp: nat, bp: nat, caps: seq<int>)
    requires WellFormed(st, sp, bp, |caps|) && bp != 0 && st[bp - 1].kind == LookK
    ensures bp >= 3 && Kept(st, sp, caps, bp - 3, st[bp - 1].prev, Undo(st[bp..sp], caps), Frames(st, sp, bp, caps), |Frames(st, sp, bp, caps)| - 1)
  {
    hide Undo;
    PopRestores(st, sp, bp, caps);
  }

  lemma KeptBelow(st: seq<Elem>, sp: nat, sp1: nat, caps: seq<int>, caps1: seq<int>, sp0: nat, bp0: nat, saved: seq<int>, fs: seq<Frame>, f: Frame, k: int)
    requires Kept(st, sp1, caps1, sp0, bp0, saved, fs, k) && sp1 <= sp <= |st| && |caps1| == |caps|
    ensures Kept(st, sp, caps, sp0, bp0, saved, fs + [f], k)
  {
    hide WellFormed, Frames;
    assert (fs + [f])[..k] == fs[..k];
  }

  lemma EmptyTopmost(st: seq<Elem>, sp: nat, caps: seq<int>)
    requires WellFormed(st, sp, 0, |caps|)
    ensures Topmost(LookK, Frames(st, sp, 0, caps)) == -1
  {
  }

  /** Sliding the collected pairs down onto the log of the choice point below the lookahead gives
    * exactly the saved states that were below it, with the current captures kept. */
  lemma {:induction false} CompactionKeepsFrames(st: seq<Elem>, sp: nat, bp: nat, caps: seq<int>)
    requires WellFormed(st, sp, bp, |caps|) && sp <= |st| && Topmost(LookK, Frames(st, sp, bp, caps)) >= 0
    ensures var (sp0, bp0) := LookaheadBase(st, sp, bp, |caps|);
      Kept(st, sp, caps, sp0, bp0, Undo(Collected(st, sp, bp, |caps|), caps), Frames(st, sp, bp, caps), Topmost(LookK, Frames(st, sp, bp, caps)))
    decreases bp
  {
    hide *;
    if bp == 0 { EmptyTopmost(st, sp, caps); }
    PopRestores(st, sp, bp, caps);
    LookaheadUnfold(st, sp, bp, |caps|);
    var prev, saved := st[bp - 1].prev, Undo(st[bp..sp], caps);
    var below := Frames(st, bp - 3, prev, saved);
    var f := Frame(st[bp - 1].kind, st[bp - 3].v, st[bp - 2].v, saved);
    TopmostConcat(LookK, below, f);
    if f.kind == LookK {
      KeptHere(st, sp, bp, caps);
    } else {
      CompactionKeepsFrames(st, bp - 3, prev, saved);
      var (sp0, bp0) := LookaheadBase(st, bp - 3, prev, |caps|);
      var inner := Collected(st, bp - 3, prev, |caps|);
      KeptBelow(st, sp, bp - 3, caps, saved, sp0, bp0, Undo(inner, saved), below, f, Topmost(LookK, below));
      BpBelow(st, sp, bp, |caps|);
      UndoConcat(inner, st[bp..sp], caps);
    }
  }

  /** The stack after the slide. */
  lemma Compacted(st: seq<Elem>, sp: nat, bp: nat, st': seq<Elem>, ps: seq<Elem>, caps: seq<int>)
    requires WellFormed(st, sp, bp, |caps|) && Pairs(ps, |caps|)
    requires sp + |ps| <= |st'| && st'[..sp + |ps|] == st[..sp] + ps
    ensures WellFormed(st', sp + |ps|, bp, |caps|)
    ensures Frames(st', sp + |ps|, bp, caps) == Frames(st, sp, bp, Undo(ps, caps))
  {
    hide WellFormed, Frames, Undo;
    BpBelow(st, sp, bp, |caps|);
    var all := st[..sp] + ps;
    assert st'[bp..sp + |ps|] == all[bp..] == st[bp..sp] + ps;
    assert st'[..bp] == all[..bp] == st[..bp];
    UndoConcat(st[bp..sp], ps, caps);
    FramesSameUndo(st, sp, st', sp + |ps|, bp, Undo(ps, caps), caps);
  }
}
