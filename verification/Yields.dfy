/** "Running from here produces these outcomes, in this order, and then backtracks to what was
  * there before": the relation between machine runs and lists of outcomes. */
module Yields {
  import opened Wrappers
  import opened RegexSyntax
  import opened Bytecode
  import opened SlotMatcher
  import opened SnapshotVm

  /** The machine at `pc` with outcome `y`, registers `regs` and choice points `st`. */
  function At(pc: int, y: Out, regs: seq<int>, st: seq<Frame>): Cfg {
    Run(pc, y.pos, y.slots + regs, st)
  }

  /** Registers below `d` are the same. */
  predicate SameBelow(a: seq<int>, b: seq<int>, d: nat) {
    |a| == |b| && d <= |a| && a[..d] == b[..d]
  }

  /** `st` is `base` with ordinary choice points on top. */
  predicate Extends(base: seq<Frame>, st: seq<Frame>) {
    |base| <= |st| && st[..|base|] == base && forall k :: |base| <= k < |st| ==> st[k].kind == SplitK
  }

  /** The run from `c` gets to `end` with outcome `y`, leaving choice points `st`. */
  ghost predicate Lands(p: Prog, c: Cfg, y: Out, end: int, base: seq<Frame>, regs: seq<int>, d: nat, st: seq<Frame>, regs': seq<int>) {
    && Extends(base, st) && SameBelow(regs, regs', d)
    && Reaches(p, c, At(end, y, regs', st))
  }

  /** The run from `c` delivers the outcomes `ys` at `end` one after the other, each time it is
    * asked to backtrack, and finally backtracks into `base`. Registers below `d` are kept. */
  ghost predicate Delivers(p: Prog, c: Cfg, ys: seq<Out>, end: int, base: seq<Frame>, regs: seq<int>, d: nat)
    decreases |ys|
  {
    if ys == [] then Reaches(p, c, FailTo(base))
    else exists st, regs' ::
      Lands(p, c, ys[0], end, base, regs, d, st, regs') && Delivers(p, FailTo(st), ys[1..], end, base, regs, d)
  }

  lemma ExtendsTrans(a: seq<Frame>, b: seq<Frame>, c: seq<Frame>)
    requires Extends(a, b) && Extends(b, c)
    ensures Extends(a, c)
  {
    assert c[..|a|] == c[..|b|][..|a|];
    forall k | |a| <= k < |c| ensures c[k].kind == SplitK {
      if k < |b| { assert c[k] == c[..|b|][k]; }
    }
  }

  lemma SameBelowTrans(a: seq<int>, b: seq<int>, c: seq<int>, d: nat, d': nat)
    requires SameBelow(a, b, d) && SameBelow(b, c, d') && d <= d'
    ensures SameBelow(a, c, d)
  {
    assert c[..d] == c[..d'][..d] && b[..d] == b[..d'][..d];
  }

  lemma SameBelowAt(a: seq<int>, b: seq<int>, d: nat, k: nat)
    requires SameBelow(a, b, d) && k < d
    ensures a[k] == b[k]
  {
    assert a[k] == a[..d][k] && b[k] == b[..d][k];
  }

  lemma SameBelowUpdate(a: seq<int>, d: nat, k: nat, v: int)
    requires d <= k < |a|
    ensures SameBelow(a, a[k := v], d)
  {
  }

  /** An outcome at once, with nothing left to try. */
  lemma DeliverOne(p: Prog, c: Cfg, y: Out, end: int, base: seq<Frame>, regs: seq<int>, regs': seq<int>, d: nat)
    requires Reaches(p, c, At(end, y, regs', base)) && SameBelow(regs, regs', d)
    ensures Delivers(p, c, [y], end, base, regs, d)
  {
    ReachesSelf(p, FailTo(base));
    var ys := [y];
    assert ys[1..] == [];
    assert Delivers(p, FailTo(base), ys[1..], end, base, regs, d);
    assert Lands(p, c, ys[0], end, base, regs, d, base, regs');
  }

  lemma DeliverNone(p: Prog, c: Cfg, end: int, base: seq<Frame>, regs: seq<int>, d: nat)
    requires Reaches(p, c, FailTo(base))
    ensures Delivers(p, c, [], end, base, regs, d)
  {
  }

  lemma DeliverAfter(p: Prog, c: Cfg, c': Cfg, ys: seq<Out>, end: int, base: seq<Frame>, regs: seq<int>, d: nat)
    requires Reaches(p, c, c') && Delivers(p, c', ys, end, base, regs, d)
    ensures Delivers(p, c, ys, end, base, regs, d)
  {
    hide Reaches;
    if ys == [] {
      ReachesTrans(p, c, c', FailTo(base));
    } else {
      var st, regs' :| Lands(p, c', ys[0], end, base, regs, d, st, regs') && Delivers(p, FailTo(st), ys[1..], end, base, regs, d);
      ReachesTrans(p, c, c', At(end, ys[0], regs', st));
      assert Lands(p, c, ys[0], end, base, regs, d, st, regs');
    }
  }

  /** Fewer registers promised; the register file it is compared with may differ above `d`. */
  lemma {:induction false} DeliverWeaken(p: Prog, c: Cfg, ys: seq<Out>, end: int, base: seq<Frame>, regs: seq<int>, d: nat, regs0: seq<int>, d0: nat)
    requires Delivers(p, c, ys, end, base, regs, d) && d0 <= d && SameBelow(regs0, regs, d0)
    ensures Delivers(p, c, ys, end, base, regs0, d0)
    decreases |ys|
  {
    hide Reaches;
    if ys != [] {
      var st, regs' :| Lands(p, c, ys[0], end, base, regs, d, st, regs') && Delivers(p, FailTo(st), ys[1..], end, base, regs, d);
      SameBelowTrans(regs0, regs, regs', d0, d);
      assert Lands(p, c, ys[0], end, base, regs0, d0, st, regs');
      DeliverWeaken(p, FailTo(st), ys[1..], end, base, regs, d, regs0, d0);
    }
  }

  /** Outcomes delivered above `st`, then those that backtracking below it delivers. */
  lemma {:induction false} DeliverAppend(p: Prog, c: Cfg, ys: seq<Out>, zs: seq<Out>, end: int, base: seq<Frame>, st: seq<Frame>, regs: seq<int>, d: nat)
    requires Extends(base, st) && Delivers(p, c, ys, end, st, regs, d)
    requires Delivers(p, FailTo(st), zs, end, base, regs, d)
    ensures Delivers(p, c, ys + zs, end, base, regs, d)
    decreases |ys|
  {
    hide Reaches, FailTo;
    if ys == [] {
      assert ys + zs == zs;
      DeliverAfter(p, c, FailTo(st), zs, end, base, regs, d);
    } else {
      var top, regs' :| Lands(p, c, ys[0], end, st, regs, d, top, regs') && Delivers(p, FailTo(top), ys[1..], end, st, regs, d);
      ExtendsTrans(base, st, top);
      DeliverAppend(p, FailTo(top), ys[1..], zs, end, base, st, regs, d);
      var all := ys + zs;
      assert all[0] == ys[0] && all[1..] == ys[1..] + zs;
      assert Lands(p, c, all[0], end, base, regs, d, top, regs');
    }
  }

  lemma FailToExtended(base: seq<Frame>, f: Frame)
    ensures FailTo(base + [f]) == if f.kind == LookK then FailTo(base) else Run(f.pc, f.pos, f.slots, base)
  {
    assert (base + [f])[..|base|] == base;
  }

  /** Backtracking into a fresh choice point restores the state it was made in. */
  lemma FailToFrame(base: seq<Frame>, kind: Kind, pc: int, y: Out, regs: seq<int>)
    requires kind != LookK
    ensures FailTo(base + [Frame(kind, pc, y.pos, y.slots + regs)]) == At(pc, y, regs, base)
  {
    hide FailTo;
    FailToExtended(base, Frame(kind, pc, y.pos, y.slots + regs));
  }
}
