/** cr_regexp_canonicalize: a set of characters becomes the set of their canonical forms. */
module CaseClosure {
  import opened CharSets
  import opened CaseTables
  import opened RqSort

  // ----- the mask of characters that folding can change -----

  predicate AtMost(p: seq<nat>, limit: nat) {
    forall i :: 0 <= i < |p| ==> p[i] <= limit
  }

  /** An interval added above all the others. */
  lemma AddedInterval(p: seq<nat>, lo: nat, hi: nat)
    requires Boundaries(p) && AtMost(p, lo) && lo <= hi
    ensures Boundaries(p + [lo, hi]) && AtMost(p + [lo, hi], hi)
    ensures forall c: nat :: In(p + [lo, hi], c) == (In(p, c) || lo <= c < hi)
  {
    forall c: nat ensures In(p + [lo, hi], c) == (In(p, c) || lo <= c < hi) {
      PairMore(p, lo, hi, c);
      if c >= lo { CountAll(p, c); }
    }
  }

  /** p stands for the characters of q and those of the run that satisfy its mask. */
  ghost predicate Adds(q: seq<nat>, p: seq<nat>, r: Run, unicode: bool) {
    && Boundaries(p) && AtMost(p, r.code + r.len)
    && forall c: nat :: In(p, c) == (In(q, c) || Masked(r, unicode, c))
  }

  /** The characters of a run that alternate, up to offset i. */
  ghost predicate AddsEvery(q: seq<nat>, p: seq<nat>, base: nat, i: nat) {
    && Boundaries(p) && AtMost(p, base + i)
    && forall c: nat :: In(p, c) == (In(q, c) || (base <= c < base + i && (c - base) % 2 == 0))
  }

  lemma EveryStart(q: seq<nat>, base: nat)
    requires Boundaries(q) && AtMost(q, base)
    ensures AddsEvery(q, q, base, 0)
  {
  }

  lemma EveryStep(q: seq<nat>, p: seq<nat>, base: nat, i: nat)
    requires AddsEvery(q, p, base, i) && i % 2 == 0
    ensures AddsEvery(q, p + [base + i, base + i + 1], base, i + 2)
  {
    hide In, Boundaries;
    AddedInterval(p, base + i, base + i + 1);
    var u := p + [base + i, base + i + 1];
    forall c: nat ensures In(u, c) == (In(q, c) || (base <= c < base + i + 2 && (c - base) % 2 == 0)) {
      assert In(u, c) == (In(p, c) || base + i <= c < base + i + 1);
      assert In(p, c) == (In(q, c) || (base <= c < base + i && (c - base) % 2 == 0));
    }
  }

  lemma EveryEnd(q: seq<nat>, p: seq<nat>, r: Run, unicode: bool, base: nat)
    requires AddsEvery(q, p, base, r.len) && r.kind == RUN_UL && r.len % 2 == 0 && r.len > 0
    requires base == r.code + (if unicode then 0 else 1) && AtMost(p, base + r.len - 1)
    ensures Adds(q, p, r, unicode)
  {
    hide In, Boundaries;
    forall c: nat ensures In(p, c) == (In(q, c) || Masked(r, unicode, c)) {
      assert In(p, c) == (In(q, c) || (base <= c < base + r.len && (c - base) % 2 == 0));
    }
  }

  /** unicode_case1 for one run. */
  method AddRun(cr: CharRange, r: Run, unicode: bool)
    requires Boundaries(cr.points) && AtMost(cr.points, r.code)
    requires KindInMask(r.kind, unicode) && r.len >= 1 && (r.kind == RUN_UL ==> r.len % 2 == 0) && (r.kind == RUN_LSU ==> r.len == 3)
    modifies cr
    ensures Adds(old(cr.points), cr.points, r, unicode)
  {
    hide In, Boundaries, AddsEvery, Adds, KindInMask;
    ghost var q := cr.points;
    if r.kind == RUN_UL {
      var code := r.code + (if unicode then 0 else 1);
      EveryStart(q, code);
      var i := 0;
      while i < r.len
        invariant i % 2 == 0 && 0 <= i <= r.len && AddsEvery(q, cr.points, code, i)
        invariant i > 0 ==> AtMost(cr.points, code + i - 1)
      {
        ghost var p := cr.points;
        EveryStep(q, p, code, i);
        EveryBound(q, p, code, i);
        cr.AddInterval(code + i, code + i + 1);
        i := i + 2;
      }
      EveryEnd(q, cr.points, r, unicode, code);
    } else if r.kind == RUN_LSU {
      if unicode {
        AddedInterval(cr.points, r.code, r.code + 1);
        cr.AddInterval(r.code, r.code + 1);
      } else {
        AddedNothing(cr.points, r.code);
      }
      ghost var p := cr.points;
      AddedInterval(p, r.code + 1, r.code + 2);
      cr.AddInterval(r.code + 1, r.code + 2);
      ghost var p1 := cr.points;
      if !unicode {
        AddedInterval(p1, r.code + 2, r.code + 3);
        cr.AddInterval(r.code + 2, r.code + 3);
      }
      ThreeCharacters(q, p, p1, cr.points, r, unicode);
    } else {
      AddedInterval(q, r.code, r.code + r.len);
      cr.AddInterval(r.code, r.code + r.len);
      WholeRun(q, cr.points, r, unicode);
    }
  }

  lemma EveryBound(q: seq<nat>, p: seq<nat>, base: nat, i: nat)
    requires AddsEvery(q, p, base, i)
    ensures AtMost(p + [base + i, base + i + 1], base + i + 1)
  {
    hide In, Boundaries;
  }

  lemma AddedNothing(p: seq<nat>, limit: nat)
    requires AtMost(p, limit)
    ensures AtMost(p, limit + 1)
  {
  }

  lemma WholeRun(q: seq<nat>, p: seq<nat>, r: Run, unicode: bool)
    requires Boundaries(p) && AtMost(p, r.code + r.len) && KindInMask(r.kind, unicode) && r.kind != RUN_UL && r.kind != RUN_LSU
    requires forall c: nat :: In(p, c) == (In(q, c) || r.code <= c < r.code + r.len)
    ensures Adds(q, p, r, unicode)
  {
    hide In, Boundaries;
  }

  lemma ThreeCharacters(q: seq<nat>, p: seq<nat>, p1: seq<nat>, p2: seq<nat>, r: Run, unicode: bool)
    requires r.kind == RUN_LSU && r.len == 3 && KindInMask(r.kind, unicode) && Boundaries(p2) && AtMost(p2, r.code + 3)
    requires if unicode then forall c: nat :: In(p, c) == (In(q, c) || r.code <= c < r.code + 1) else p == q
    requires forall c: nat :: In(p1, c) == (In(p, c) || r.code + 1 <= c < r.code + 2)
    requires if unicode then p2 == p1 else forall c: nat :: In(p2, c) == (In(p1, c) || r.code + 2 <= c < r.code + 3)
    ensures Adds(q, p2, r, unicode)
  {
    hide In, Boundaries, KindInMask;
    forall c: nat ensures In(p2, c) == (In(q, c) || Masked(r, unicode, c)) {
      assert In(p1, c) == (In(p, c) || r.code + 1 <= c < r.code + 2);
      if unicode {
        assert In(p, c) == (In(q, c) || r.code <= c < r.code + 1);
      } else {
        assert In(p2, c) == (In(p1, c) || r.code + 2 <= c < r.code + 3);
      }
    }
  }

  /** The mask of the first runs. */
  ghost predicate MaskUpTo(t: Tables, unicode: bool, n: nat, p: seq<nat>) {
    && n <= |t.runs| && Boundaries(p) && AtMost(p, 0x2_0000)
    && (n < |t.runs| ==> AtMost(p, t.runs[n].code))
    && forall c: nat :: In(p, c) <==> exists i :: 0 <= i < n && Masked(t.runs[i], unicode, c)
  }

  lemma MaskStart(t: Tables, unicode: bool)
    ensures MaskUpTo(t, unicode, 0, [])
  {
  }

  lemma MaskSkip(t: Tables, unicode: bool, n: nat, p: seq<nat>)
    requires ValidTables(t) && MaskUpTo(t, unicode, n, p) && n < |t.runs| && !KindInMask(t.runs[n].kind, unicode)
    ensures MaskUpTo(t, unicode, n + 1, p)
  {
    hide In, Boundaries, KindInMask, AsciiAgrees, RunValid;
    forall c: nat ensures In(p, c) <==> exists i :: 0 <= i < n + 1 && Masked(t.runs[i], unicode, c) {
      assert !Masked(t.runs[n], unicode, c);
    }
  }

  lemma MaskStep(t: Tables, unicode: bool, n: nat, p: seq<nat>, p': seq<nat>)
    requires ValidTables(t) && MaskUpTo(t, unicode, n, p) && n < |t.runs| && Adds(p, p', t.runs[n], unicode)
    ensures MaskUpTo(t, unicode, n + 1, p')
  {
    hide In, Boundaries, Masked, AsciiAgrees;
    assert RunValid(t, t.runs[n]);
    forall c: nat ensures In(p', c) <==> exists i :: 0 <= i < n + 1 && Masked(t.runs[i], unicode, c) {
      assert In(p', c) == (In(p, c) || Masked(t.runs[n], unicode, c));
    }
  }

  /** unicode_case1 */
  method UnicodeCase1(t: Tables, unicode: bool) returns (cr: CharRange)
    requires ValidTables(t)
    ensures fresh(cr) && Boundaries(cr.points) && AtMost(cr.points, 0x2_0000)
    ensures forall c: nat :: In(cr.points, c) <==> InMask(t, unicode, c)
  {
    hide In, Boundaries, MaskUpTo, ValidTables, KindInMask, Adds;
    cr := new CharRange();
    var idx := 0;
    MaskStart(t, unicode);
    while idx < |t.runs|
      invariant 0 <= idx <= |t.runs| && MaskUpTo(t, unicode, idx, cr.points)
    {
      var r := t.runs[idx];
      RunFacts(t, unicode, idx, cr.points);
      ghost var p := cr.points;
      if KindInMask(r.kind, unicode) {
        AddRun(cr, r, unicode);
        MaskStep(t, unicode, idx, p, cr.points);
      } else {
        MaskSkip(t, unicode, idx, p);
      }
      idx := idx + 1;
    }
    MaskEnd(t, unicode, cr.points);
  }

  lemma RunFacts(t: Tables, unicode: bool, n: nat, p: seq<nat>)
    requires ValidTables(t) && n < |t.runs| && MaskUpTo(t, unicode, n, p)
    ensures Boundaries(p) && AtMost(p, t.runs[n].code) && RunValid(t, t.runs[n])
  {
    hide In, AsciiAgrees, RunValid;
  }

  lemma MaskEnd(t: Tables, unicode: bool, p: seq<nat>)
    requires MaskUpTo(t, unicode, |t.runs|, p)
    ensures Boundaries(p) && AtMost(p, 0x2_0000) && forall c: nat :: In(p, c) <==> InMask(t, unicode, c)
  {
    hide In, Boundaries, Masked;
  }

  // ----- sorting intervals and joining those that overlap -----

  /** Is c in one of the intervals lo .. hi-1 (counted in pairs of points)? */
  predicate Covered(p: seq<nat>, lo: nat, hi: nat, c: nat) {
    exists k :: lo <= k < hi && 2 * k + 1 < |p| && Within(p, k, c)
  }

  predicate Within(p: seq<nat>, k: nat, c: nat)
    requires 2 * k + 1 < |p|
  {
    p[2 * k] <= c < p[2 * k + 1]
  }

  /** Pairs of bounds, none empty, in any order. */
  predicate Pairs(p: seq<nat>) {
    |p| % 2 == 0 && forall k :: 0 <= k < |p| / 2 ==> p[2 * k] < p[2 * k + 1]
  }

  predicate ByStart(p: seq<nat>) {
    forall k, l :: 0 <= k < l < |p| / 2 ==> p[2 * k] <= p[2 * l]
  }

  /** point_cmp, on the first bound. */
  function PointCmp(x: (nat, nat), y: (nat, nat)): int {
    if x.0 < y.0 then -1 else if x.0 > y.0 then 1 else 0
  }

  lemma PointOrder()
    ensures TotalPreorder(PointCmp)
  {
  }

  function PairsOf(p: seq<nat>): seq<(nat, nat)> {
    seq(|p| / 2, k requires 0 <= k < |p| / 2 => (p[2 * k], p[2 * k + 1]))
  }

  function Flat(s: seq<(nat, nat)>): seq<nat> {
    seq(2 * |s|, i requires 0 <= i < 2 * |s| => if i % 2 == 0 then s[i / 2].0 else s[i / 2].1)
  }

  lemma FlatAt(s: seq<(nat, nat)>, k: nat)
    requires k < |s|
    ensures |Flat(s)| == 2 * |s| && Flat(s)[2 * k] == s[k].0 && Flat(s)[2 * k + 1] == s[k].1
  {
  }

  lemma PairsAt(p: seq<nat>, k: nat)
    requires k < |p| / 2
    ensures |PairsOf(p)| == |p| / 2 && PairsOf(p)[k] == (p[2 * k], p[2 * k + 1])
  {
  }

  lemma SortedPairs(p: seq<nat>, s: seq<(nat, nat)>)
    requires Pairs(p) && Perm(PairsOf(p), s, 0, |p| / 2) && SortedRange(PointCmp, s, 0, |p| / 2)
    ensures |Flat(s)| == |p| && Pairs(Flat(s)) && ByStart(Flat(s))
    ensures forall c: nat :: Covered(Flat(s), 0, |p| / 2, c) == Covered(p, 0, |p| / 2, c)
  {
    hide Perm, PairsOf, Flat, Covered;
    var n, f, q := |p| / 2, Flat(s), PairsOf(p);
    SamePairCount(p, s);
    forall k | 0 <= k < n ensures f[2 * k] < f[2 * k + 1] {
      var l := PermFrom(q, s, 0, n, k);
      FlatAt(s, k);
      PairsAt(p, l);
    }
    forall k, l | 0 <= k < l < n ensures f[2 * k] <= f[2 * l] {
      FlatAt(s, k);
      FlatAt(s, l);
      assert PointCmp(s[k], s[l]) <= 0;
    }
    forall c: nat ensures Covered(f, 0, n, c) == Covered(p, 0, n, c) {
      CoveredPairs(p, s, c);
    }
  }

  lemma SamePairCount(p: seq<nat>, s: seq<(nat, nat)>)
    requires |p| % 2 == 0 && Perm(PairsOf(p), s, 0, |p| / 2)
    ensures |s| == |p| / 2 && |Flat(s)| == |p|
  {
  }

  lemma CoveredPairs(p: seq<nat>, s: seq<(nat, nat)>, c: nat)
    requires |p| % 2 == 0 && Perm(PairsOf(p), s, 0, |p| / 2)
    ensures Covered(Flat(s), 0, |p| / 2, c) == Covered(p, 0, |p| / 2, c)
  {
    hide Perm, PairsOf, Flat;
    var n, f, q := |p| / 2, Flat(s), PairsOf(p);
    SamePairCount(p, s);
    if Covered(f, 0, n, c) {
      var k :| 0 <= k < n && 2 * k + 1 < |f| && Within(f, k, c);
      var l := PermFrom(q, s, 0, n, k);
      FlatAt(s, k);
      PairsAt(p, l);
      assert Within(p, l, c);
    }
    if Covered(p, 0, n, c) {
      var k :| 0 <= k < n && 2 * k + 1 < |p| && Within(p, k, c);
      PermBack(q, s, n);
      var l := PermFrom(s, q, 0, n, k);
      FlatAt(s, l);
      PairsAt(p, k);
      assert Within(f, l, c);
    }
  }

  lemma PermBack<T>(s: seq<T>, t: seq<T>, n: nat)
    requires Perm(s, t, 0, n)
    ensures Perm(t, s, 0, n)
  {
  }

  /** The intervals lo .. hi-1 join to [start, end). */
  ghost predicate JoinsTo(p: seq<nat>, lo: nat, hi: nat, start: nat, end: nat) {
    && lo < hi <= |p| / 2 && start == p[2 * lo] < end
    && forall c: nat :: Covered(p, lo, hi, c) == (start <= c < end)
  }

  lemma JoinOne(p: seq<nat>, lo: nat)
    requires Pairs(p) && lo < |p| / 2
    ensures JoinsTo(p, lo, lo + 1, p[2 * lo], p[2 * lo + 1])
  {
    var hi := lo + 1;
    forall c: nat ensures Covered(p, lo, hi, c) == (p[2 * lo] <= c < p[2 * lo + 1]) {
      if p[2 * lo] <= c < p[2 * lo + 1] { assert Within(p, lo, c); }
    }
  }

  lemma CoveredNext(p: seq<nat>, lo: nat, hi: nat, c: nat)
    requires lo <= hi && 2 * hi + 1 < |p|
    ensures Covered(p, lo, hi + 1, c) == (Covered(p, lo, hi, c) || Within(p, hi, c))
  {
    if Covered(p, lo, hi, c) {
      var k :| lo <= k < hi && 2 * k + 1 < |p| && Within(p, k, c);
    }
  }

  lemma JoinMore(p: seq<nat>, lo: nat, hi: nat, start: nat, end: nat)
    requires Pairs(p) && ByStart(p) && JoinsTo(p, lo, hi, start, end) && hi < |p| / 2 && p[2 * hi] <= end
    ensures JoinsTo(p, lo, hi + 1, start, if p[2 * hi + 1] <= end then end else p[2 * hi + 1])
  {
    var end' := if p[2 * hi + 1] <= end then end else p[2 * hi + 1];
    assert p[2 * lo] <= p[2 * hi] < p[2 * hi + 1];
    var next := hi + 1;
    forall c: nat ensures Covered(p, lo, next, c) == (start <= c < end') {
      CoveredNext(p, lo, hi, c);
      assert Covered(p, lo, hi, c) == (start <= c < end);
    }
  }

  /** The first n intervals in canonical form. */
  ghost predicate JoinedSoFar(p: seq<nat>, n: nat, out: seq<nat>) {
    && n <= |p| / 2 && Canonical(out) && (forall c: nat :: In(out, c) == Covered(p, 0, n, c))
    && (n < |p| / 2 ==> forall x :: 0 <= x < |out| ==> out[x] < p[2 * n])
    && (forall x :: 0 <= x < |out| ==> out[x] in p)
  }

  lemma MergeNone(p: seq<nat>)
    ensures JoinedSoFar(p, 0, [])
  {
  }

  lemma MergeGroup(p: seq<nat>, lo: nat, hi: nat, start: nat, end: nat, out: seq<nat>)
    requires Pairs(p) && ByStart(p) && JoinedSoFar(p, lo, out) && JoinsTo(p, lo, hi, start, end) && end in p
    requires hi < |p| / 2 ==> p[2 * hi] > end
    ensures JoinedSoFar(p, hi, out + [start, end])
  {
    var r := out + [start, end];
    assert forall x :: 0 <= x < |out| ==> out[x] < start;
    forall c: nat ensures In(r, c) == Covered(p, 0, hi, c) {
      CoveredSplit(p, lo, hi, c);
      assert In(out, c) == Covered(p, 0, lo, c);
      assert Covered(p, lo, hi, c) == (start <= c < end);
      PairMore(out, start, end, c);
      if c >= start { CountAll(out, c); }
    }
  }

  lemma CoveredSplit(p: seq<nat>, lo: nat, hi: nat, c: nat)
    requires lo <= hi
    ensures Covered(p, 0, hi, c) == (Covered(p, 0, lo, c) || Covered(p, lo, hi, c))
  {
    if Covered(p, 0, lo, c) {
      var k :| 0 <= k < lo && 2 * k + 1 < |p| && Within(p, k, c);
    }
    if Covered(p, lo, hi, c) {
      var k :| lo <= k < hi && 2 * k + 1 < |p| && Within(p, k, c);
    }
  }

  lemma MergeDone(p: seq<nat>, out: seq<nat>)
    requires JoinedSoFar(p, |p| / 2, out)
    ensures Canonical(out) && (forall c: nat :: In(out, c) == Covered(p, 0, |p| / 2, c)) && forall x :: 0 <= x < |out| ==> out[x] in p
  {
  }

  /** cr_sort_and_remove_overlap */
  method SortAndRemoveOverlap(cr: CharRange)
    requires Pairs(cr.points)
    modifies cr
    ensures Canonical(cr.points)
    ensures forall c: nat :: In(cr.points, c) == Covered(old(cr.points), 0, |old(cr.points)| / 2, c)
  {
    hide *;
    ghost var p := cr.points;
    SortByStart(cr);
    RemoveOverlap(cr);
  }

  /** rqsort on the points taken as pairs. */
  method SortByStart(cr: CharRange)
    requires Pairs(cr.points)
    modifies cr
    ensures |cr.points| == |old(cr.points)| && Pairs(cr.points) && ByStart(cr.points)
    ensures forall c: nat :: Covered(cr.points, 0, |cr.points| / 2, c) == Covered(old(cr.points), 0, |cr.points| / 2, c)
  {
    hide Perm, SortedRange, TotalPreorder, Pairs, ByStart, Covered, Flat;
    ghost var p := cr.points;
    var pairs := new (nat, nat)[|cr.points| / 2](k requires 0 <= k < |cr.points| / 2 reads cr => (cr.points[2 * k], cr.points[2 * k + 1]));
    assert pairs[..] == PairsOf(p);
    PointOrder();
    var sorter := new Sorter(PointCmp, pairs);
    sorter.RqSort();
    SortedPairs(p, pairs[..]);
    cr.points := Flat(pairs[..]);
  }

  /** Join intervals that overlap or touch, in place. */
  method RemoveOverlap(cr: CharRange)
    requires Pairs(cr.points) && ByStart(cr.points)
    modifies cr
    ensures Canonical(cr.points)
    ensures forall c: nat :: In(cr.points, c) == Covered(old(cr.points), 0, |old(cr.points)| / 2, c)
  {
    hide Pairs, ByStart, Covered, JoinedSoFar, JoinsTo, Canonical, In;
    ghost var p := cr.points;
    EvenLength(p);
    var i, j := 0, 0;
    MergeNone(p);
    assert p[..0] == [];
    while i < |cr.points|
      invariant 0 <= j <= i <= |cr.points| == |p| && i % 2 == 0 && j % 2 == 0
      invariant cr.points[i..] == p[i..] && JoinedSoFar(p, i / 2, cr.points[..j])
    {
      ghost var out, was := cr.points[..j], cr.points;
      var start, end, next := JoinGroup(cr.points, i, p);
      MergeGroup(p, i / 2, next / 2, start, end, out);
      cr.points := cr.points[j := start];
      cr.points := cr.points[j + 1 := end];
      Rewritten(was, cr.points, p, i, j, next, start, end);
      i := next;
      j := j + 2;
    }
    MergeDone(p, cr.points[..j]);
    cr.points := cr.points[..j];
  }

  lemma EvenLength(p: seq<nat>)
    requires Pairs(p)
    ensures |p| % 2 == 0
  {
  }

  lemma Rewritten(was: seq<nat>, now: seq<nat>, p: seq<nat>, i: nat, j: nat, next: nat, start: nat, end: nat)
    requires j <= i && i + 2 <= next <= |was| == |p| && was[i..] == p[i..] && j + 1 < |was| && now == was[j := start][j + 1 := end]
    ensures now[..j + 2] == was[..j] + [start, end] && now[next..] == p[next..]
  {
    assert was[next..] == was[i..][next - i..] && p[next..] == p[i..][next - i..];
  }

  /** The group of intervals that join with the one at i. */
  method JoinGroup(points: seq<nat>, i0: nat, ghost p: seq<nat>) returns (start: nat, end: nat, i: nat)
    requires Pairs(p) && ByStart(p) && i0 < |points| == |p| && |p| % 2 == 0 && i0 % 2 == 0 && points[i0..] == p[i0..]
    ensures i0 + 2 <= i <= |p| && i % 2 == 0 && JoinsTo(p, i0 / 2, i / 2, start, end) && end in p
    ensures i < |p| ==> p[2 * (i / 2)] > end
  {
    hide Pairs, ByStart, Covered, JoinsTo;
    i := i0;
    TailSame(points, p, i0, i);
    TailSame(points, p, i0, i + 1);
    start, end := points[i], points[i + 1];
    JoinOne(p, i / 2);
    i := i + 2;
    while i < |points|
      invariant i0 + 2 <= i <= |p| && i % 2 == 0 && JoinsTo(p, i0 / 2, i / 2, start, end) && end in p
    {
      TailSame(points, p, i0, i);
      TailSame(points, p, i0, i + 1);
      var start1, end1 := points[i], points[i + 1];
      if start1 > end { break; }
      JoinMore(p, i0 / 2, i / 2, start, end);
      if end1 > end { end := end1; }
      i := i + 2;
    }
  }

  // ----- the image of a set -----

  /** x is the canonical form of a member of p below n. */
  ghost predicate ImageBelow(t: Tables, unicode: bool, p: seq<nat>, n: nat, x: nat)
    requires forall i :: 0 <= i < |t.runs| ==> DataValid(t, t.runs[i])
  {
    exists c: nat :: c < n && In(p, c) && Canonicalize(t, unicode, c) == x
  }

  /** The intervals collected so far, and the one being extended. */
  predicate Collected(r: seq<nat>, dStart: nat, dEnd: nat, x: nat) {
    Covered(r, 0, |r| / 2, x) || (dStart != UINT32_MAX && dStart <= x < dEnd)
  }

  /** They hold the canonical forms of the members below n. */
  ghost predicate Imaged(t: Tables, unicode: bool, p: seq<nat>, n: nat, r: seq<nat>, dStart: nat, dEnd: nat)
    requires forall i :: 0 <= i < |t.runs| ==> DataValid(t, t.runs[i])
  {
    && Pairs(r) && (dStart != UINT32_MAX ==> dStart < dEnd)
    && forall x: nat :: Collected(r, dStart, dEnd, x) <==> ImageBelow(t, unicode, p, n, x)
  }

  lemma ImageStart(t: Tables, unicode: bool, p: seq<nat>)
    requires forall i :: 0 <= i < |t.runs| ==> DataValid(t, t.runs[i])
    ensures Imaged(t, unicode, p, 0, [], UINT32_MAX, UINT32_MAX)
  {
  }

  /** Characters that are not members change nothing. */
  lemma ImageSkip(t: Tables, unicode: bool, p: seq<nat>, n: nat, n': nat, r: seq<nat>, dStart: nat, dEnd: nat)
    requires forall i :: 0 <= i < |t.runs| ==> DataValid(t, t.runs[i])
    requires Imaged(t, unicode, p, n, r, dStart, dEnd) && n <= n' && forall c :: n <= c < n' ==> !In(p, c)
    ensures Imaged(t, unicode, p, n', r, dStart, dEnd)
  {
    hide In, DataValid, Canonicalize, Pairs, Collected;
    forall x: nat ensures Collected(r, dStart, dEnd, x) <==> ImageBelow(t, unicode, p, n', x) {
      assert Collected(r, dStart, dEnd, x) <==> ImageBelow(t, unicode, p, n, x);
      if ImageBelow(t, unicode, p, n, x) {
        var c: nat :| c < n && In(p, c) && Canonicalize(t, unicode, c) == x;
      }
      if ImageBelow(t, unicode, p, n', x) {
        var c: nat :| c < n' && In(p, c) && Canonicalize(t, unicode, c) == x;
        assert c < n;
      }
    }
  }

  /** What one more canonical form d does to the collection. */
  predicate Takes(r: seq<nat>, dStart: nat, dEnd: nat, d: nat, r': seq<nat>, dStart': nat, dEnd': nat) {
    if dStart == UINT32_MAX then r' == r && dStart' == d && dEnd' == d + 1
    else if dEnd == d then r' == r && dStart' == dStart && dEnd' == dEnd + 1
    else r' == r + [dStart, dEnd] && dStart' == d && dEnd' == d + 1
  }

  lemma TakesOne(r: seq<nat>, dStart: nat, dEnd: nat, d: nat, r': seq<nat>, dStart': nat, dEnd': nat)
    requires Pairs(r) && (dStart != UINT32_MAX ==> dStart < dEnd) && d < UINT32_MAX && Takes(r, dStart, dEnd, d, r', dStart', dEnd')
    ensures Pairs(r') && dStart' != UINT32_MAX && dStart' < dEnd'
    ensures forall x: nat :: Collected(r', dStart', dEnd', x) == (Collected(r, dStart, dEnd, x) || x == d)
  {
    if r' != r { PairsMore(r, dStart, dEnd); }
    forall x: nat ensures Collected(r', dStart', dEnd', x) == (Collected(r, dStart, dEnd, x) || x == d) {
      if r' != r { CoveredMore(r, dStart, dEnd, x); }
    }
  }

  lemma PairsMore(r: seq<nat>, u: nat, v: nat)
    requires Pairs(r) && u < v
    ensures Pairs(r + [u, v])
  {
    var s := r + [u, v];
    forall k | 0 <= k < |s| / 2 ensures s[2 * k] < s[2 * k + 1] {
      if 2 * k < |r| { assert s[2 * k] == r[2 * k] && s[2 * k + 1] == r[2 * k + 1]; }
    }
  }

  lemma CoveredMore(r: seq<nat>, u: nat, v: nat, x: nat)
    requires |r| % 2 == 0
    ensures Covered(r + [u, v], 0, |r + [u, v]| / 2, x) == (Covered(r, 0, |r| / 2, x) || u <= x < v)
  {
    var s, n := r + [u, v], |r| / 2;
    if Covered(s, 0, |s| / 2, x) {
      var k :| 0 <= k < |s| / 2 && 2 * k + 1 < |s| && Within(s, k, x);
      if k < n { assert Within(r, k, x); }
    }
    if Covered(r, 0, n, x) {
      var k :| 0 <= k < n && 2 * k + 1 < |r| && Within(r, k, x);
      assert Within(s, k, x);
    }
    if u <= x < v { assert Within(s, n, x); }
  }

  lemma ImageStep(t: Tables, unicode: bool, p: seq<nat>, c: nat, r: seq<nat>, dStart: nat, dEnd: nat, d: nat, r': seq<nat>, dStart': nat, dEnd': nat)
    requires forall i :: 0 <= i < |t.runs| ==> DataValid(t, t.runs[i])
    requires Imaged(t, unicode, p, c, r, dStart, dEnd) && In(p, c) && d == Canonicalize(t, unicode, c) < UINT32_MAX
    requires Takes(r, dStart, dEnd, d, r', dStart', dEnd')
    ensures Imaged(t, unicode, p, c + 1, r', dStart', dEnd')
  {
    hide In, DataValid, Canonicalize, Pairs, Collected, Takes;
    TakesOne(r, dStart, dEnd, d, r', dStart', dEnd');
    var next := c + 1;
    forall x: nat ensures Collected(r', dStart', dEnd', x) <==> ImageBelow(t, unicode, p, next, x) {
      assert Collected(r', dStart', dEnd', x) == (Collected(r, dStart, dEnd, x) || x == d);
      assert Collected(r, dStart, dEnd, x) <==> ImageBelow(t, unicode, p, c, x);
      if ImageBelow(t, unicode, p, c, x) {
        var b: nat :| b < c && In(p, b) && Canonicalize(t, unicode, b) == x;
      }
      if ImageBelow(t, unicode, p, next, x) {
        var b: nat :| b < next && In(p, b) && Canonicalize(t, unicode, b) == x;
        if b < c { assert ImageBelow(t, unicode, p, c, x); }
      }
    }
  }

  // ----- walking the table and the set together -----

  /** All runs before idx end before c. */
  predicate PastRuns(t: Tables, idx: nat, c: nat) {
    idx < |t.runs| && forall k :: 0 <= k < idx ==> t.runs[k].code + t.runs[k].len <= c
  }

  lemma NotBehind(t: Tables, idx: nat, c: nat, k: nat)
    requires PastRuns(t, idx, c) && k < |t.runs| && Contains(t.runs[k], c)
    ensures idx <= k
  {
  }

  /** The run of a masked character is never behind the index. */
  method AdvanceTo(t: Tables, unicode: bool, c: nat, idx0: nat) returns (idx: nat)
    requires ValidTables(t) && PastRuns(t, idx0, c) && InMask(t, unicode, c)
    ensures idx < |t.runs| && PastRuns(t, idx, c) && Contains(t.runs[idx], c)
  {
    hide AsciiAgrees, RunValid;
    ghost var k :| 0 <= k < |t.runs| && Masked(t.runs[k], unicode, c);
    idx := idx0;
    NotBehind(t, idx, c, k);
    while !Contains(t.runs[idx], c)
      invariant idx <= k && PastRuns(t, idx, c)
      decreases |t.runs| - idx
    {
      assert t.runs[idx].code + t.runs[idx].len <= t.runs[k].code;
      idx := idx + 1;
    }
  }

  /** Canonical forms of the members of a set inside the mask, as unsorted intervals. */
  method CollectImage(t: Tables, unicode: bool, p: seq<nat>) returns (result: CharRange)
    requires ValidTables(t) && |t.runs| > 0 && Canonical(p)
    requires forall c: nat :: In(p, c) ==> InMask(t, unicode, c)
    ensures (forall i :: 0 <= i < |t.runs| ==> DataValid(t, t.runs[i])) && fresh(result) && Pairs(result.points)
    ensures forall x: nat :: Covered(result.points, 0, |result.points| / 2, x) <==> exists c: nat :: In(p, c) && Canonicalize(t, unicode, c) == x
  {
    hide ValidTables, DataValid, In, Canonical, InMask, PastRuns, Imaged, Canonicalize, FoldEntry, Takes, Covered, Pairs, Contains;
    AllDataValid(t);
    EvenCanonical(p);
    result := new CharRange();
    var dStart: nat, dEnd: nat := UINT32_MAX, UINT32_MAX;
    var idx: nat, i: nat := 0, 0;
    ghost var cur: nat := 0;
    ImageStart(t, unicode, p);
    NoRuns(t);
    while i < |p|
      invariant i % 2 == 0 && i <= |p| && cur == (if i == 0 then 0 else p[i - 1]) && PastRuns(t, idx, cur)
      invariant fresh(result) && Imaged(t, unicode, p, cur, result.points, dStart, dEnd)
    {
      var start, end := p[i], p[i + 1];
      GapBefore(p, i);
      ImageSkip(t, unicode, p, cur, start, result.points, dStart, dEnd);
      StillPast(t, idx, cur, start);
      var c := start;
      while c < end
        invariant start <= c <= end && idx < |t.runs| && PastRuns(t, idx, c)
        invariant fresh(result) && Imaged(t, unicode, p, c, result.points, dStart, dEnd)
      {
        InsideInterval(p, i, c);
        assert InMask(t, unicode, c);
        idx := AdvanceTo(t, unicode, c, idx);
        EntryIsCanonical(t, unicode, c, idx);
        RunAt(t, idx);
        FoldBound(t, c, t.runs[idx], unicode);
        var d := FoldEntry(t, c, t.runs[idx], unicode);
        ghost var r, s0, e0 := result.points, dStart, dEnd;
        if dStart == UINT32_MAX {
          dStart, dEnd := d, d + 1;
        } else if dEnd == d {
          dEnd := dEnd + 1;
        } else {
          result.AddInterval(dStart, dEnd);
          dStart, dEnd := d, d + 1;
        }
        TakesIs(r, s0, e0, d, result.points, dStart, dEnd);
        ImageStep(t, unicode, p, c, r, s0, e0, d, result.points, dStart, dEnd);
        StillPast(t, idx, c, c + 1);
        c := c + 1;
      }
      cur := end;
      i := i + 2;
    }
    ghost var r := result.points;
    if dStart != UINT32_MAX { result.AddInterval(dStart, dEnd); }
    CollectEnd(t, unicode, p, cur, r, dStart, dEnd, result.points);
  }

  lemma EvenCanonical(p: seq<nat>)
    requires Canonical(p)
    ensures |p| % 2 == 0 && forall i :: 0 <= i && i + 1 < |p| ==> p[i] < p[i + 1]
  {
  }

  lemma NoRuns(t: Tables)
    requires |t.runs| > 0
    ensures PastRuns(t, 0, 0)
  {
  }

  lemma StillPast(t: Tables, idx: nat, c: nat, c': nat)
    requires PastRuns(t, idx, c) && c <= c'
    ensures PastRuns(t, idx, c') && idx < |t.runs|
  {
  }

  lemma RunAt(t: Tables, i: nat)
    requires ValidTables(t) && i < |t.runs|
    ensures RunValid(t, t.runs[i])
  {
    hide RunValid, AsciiAgrees;
  }

  lemma TakesIs(r: seq<nat>, dStart: nat, dEnd: nat, d: nat, r': seq<nat>, dStart': nat, dEnd': nat)
    requires dStart == UINT32_MAX ==> r' == r && dStart' == d && dEnd' == d + 1
    requires dStart != UINT32_MAX && dEnd == d ==> r' == r && dStart' == dStart && dEnd' == dEnd + 1
    requires dStart != UINT32_MAX && dEnd != d ==> r' == r + [dStart, dEnd] && dStart' == d && dEnd' == d + 1
    ensures Takes(r, dStart, dEnd, d, r', dStart', dEnd')
  {
  }

  lemma GapBefore(p: seq<nat>, i: nat)
    requires Canonical(p) && i < |p| && i % 2 == 0
    ensures (i > 0 ==> p[i - 1] <= p[i]) && forall c :: (if i == 0 then 0 else p[i - 1]) <= c < p[i] ==> !In(p, c)
  {
    forall c | (if i == 0 then 0 else p[i - 1]) <= c < p[i] ensures !In(p, c) {
      CountSorted(p, c, i);
    }
  }

  lemma InsideInterval(p: seq<nat>, i: nat, c: nat)
    requires Canonical(p) && i + 1 < |p| && i % 2 == 0 && p[i] <= c < p[i + 1]
    ensures In(p, c)
  {
    CountSorted(p, c, i + 1);
  }

  lemma CollectEnd(t: Tables, unicode: bool, p: seq<nat>, n: nat, r: seq<nat>, dStart: nat, dEnd: nat, r': seq<nat>)
    requires forall i :: 0 <= i < |t.runs| ==> DataValid(t, t.runs[i])
    requires Canonical(p) && n == (if p == [] then 0 else p[|p| - 1]) && Imaged(t, unicode, p, n, r, dStart, dEnd)
    requires r' == if dStart != UINT32_MAX then r + [dStart, dEnd] else r
    ensures Pairs(r') && forall x: nat :: Covered(r', 0, |r'| / 2, x) <==> exists c: nat :: In(p, c) && Canonicalize(t, unicode, c) == x
  {
    hide DataValid, Canonicalize, Covered, Pairs;
    PairsAre(r);
    if dStart != UINT32_MAX { PairsMore(r, dStart, dEnd); }
    forall x: nat ensures Covered(r', 0, |r'| / 2, x) <==> exists c: nat :: In(p, c) && Canonicalize(t, unicode, c) == x {
      assert Collected(r, dStart, dEnd, x) <==> ImageBelow(t, unicode, p, n, x);
      if dStart != UINT32_MAX { CoveredMore(r, dStart, dEnd, x); }
      if c: nat :| In(p, c) && Canonicalize(t, unicode, c) == x {
        NoneAbove(p, c);
        assert ImageBelow(t, unicode, p, n, x);
      }
    }
  }

  lemma PairsAre(r: seq<nat>)
    requires Pairs(r)
    ensures |r| % 2 == 0
  {
  }

  lemma NoneAbove(p: seq<nat>, c: nat)
    requires Canonical(p) && In(p, c)
    ensures p != [] && c < p[|p| - 1]
  {
    if p == [] || c >= p[|p| - 1] { CountAll(p, c); }
  }

  /** cr_regexp_canonicalize: exactly the image of the set under lre_canonicalize. */
  method CrRegexpCanonicalize(cr: CharRange, t: Tables, unicode: bool)
    requires ValidTables(t) && |t.runs| > 0 && Boundaries(cr.points) && AtMost(cr.points, UINT32_MAX)
    modifies cr
    ensures (forall i :: 0 <= i < |t.runs| ==> DataValid(t, t.runs[i])) && Canonical(cr.points)
    ensures forall d: nat :: In(cr.points, d) <==> exists c: nat :: In(old(cr.points), c) && Canonicalize(t, unicode, c) == d
  {
    hide In, Boundaries, Canonical, ValidTables, DataValid, Canonicalize, InMask, Covered, Pairs, AtMost;
    AllDataValid(t);
    ghost var p := cr.points;
    var mask := UnicodeCase1(t, unicode);
    ghost var m := mask.points;
    var inter := new CharRange();
    var sub := new CharRange();
    inter.CrOp(mask.points, cr.points, Inter);
    MaskBounded(mask.points);
    mask.CrInvert();
    CanonicalIsBoundaries(mask.points);
    sub.CrOp(mask.points, cr.points, Inter);
    InterInMask(t, unicode, m, p, inter.points);
    var result := CollectImage(t, unicode, inter.points);
    ghost var r := result.points;
    SortAndRemoveOverlap(result);
    cr.points := [];
    CanonicalIsBoundaries(result.points);
    CanonicalIsBoundaries(sub.points);
    cr.CrOp(result.points, sub.points, Union);
    forall d: nat ensures In(cr.points, d) <==> exists c: nat :: In(p, c) && Canonicalize(t, unicode, c) == d {
      ImageOf(t, unicode, p, m, mask.points, inter.points, sub.points, r, result.points, cr.points, d);
    }
  }

  lemma MaskBounded(p: seq<nat>)
    requires AtMost(p, 0x2_0000)
    ensures forall i :: 0 <= i < |p| ==> p[i] <= UINT32_MAX
  {
  }

  lemma CanonicalIsBoundaries(p: seq<nat>)
    requires Canonical(p)
    ensures Boundaries(p)
  {
  }

  lemma InterInMask(t: Tables, unicode: bool, m: seq<nat>, p: seq<nat>, inter: seq<nat>)
    requires forall c: nat :: In(m, c) <==> InMask(t, unicode, c)
    requires forall c: nat :: In(inter, c) == Apply(Inter, In(m, c), In(p, c))
    ensures forall c: nat :: In(inter, c) ==> InMask(t, unicode, c)
  {
    hide In, InMask;
  }

  /** Members in the mask give the collected part, the others stand for themselves. */
  lemma ImageOf(t: Tables, unicode: bool, p: seq<nat>, m: seq<nat>, out: seq<nat>, inter: seq<nat>, sub: seq<nat>, r: seq<nat>, res: seq<nat>, all: seq<nat>, d: nat)
    requires ValidTables(t) && (forall i :: 0 <= i < |t.runs| ==> DataValid(t, t.runs[i])) && Boundaries(p) && AtMost(p, UINT32_MAX)
    requires forall c: nat :: In(m, c) <==> InMask(t, unicode, c)
    requires forall c: nat :: In(out, c) == (c < UINT32_MAX && !In(m, c))
    requires forall c: nat :: In(inter, c) == Apply(Inter, In(m, c), In(p, c))
    requires forall c: nat :: In(sub, c) == Apply(Inter, In(out, c), In(p, c))
    requires forall x: nat :: Covered(r, 0, |r| / 2, x) <==> exists c: nat :: In(inter, c) && Canonicalize(t, unicode, c) == x
    requires forall c: nat :: In(res, c) == Covered(r, 0, |r| / 2, c)
    requires forall c: nat :: In(all, c) == Apply(Union, In(res, c), In(sub, c))
    ensures In(all, d) <==> exists c: nat :: In(p, c) && Canonicalize(t, unicode, c) == d
  {
    hide In, InMask, ValidTables, DataValid, Canonicalize, Covered, Boundaries, AtMost;
    assert In(res, d) == Covered(r, 0, |r| / 2, d);
    if In(all, d) {
      if In(res, d) {
        var c: nat :| In(inter, c) && Canonicalize(t, unicode, c) == d;
        assert In(p, c);
      } else {
        assert In(sub, d);
        OutsideMaskFixed(t, unicode, d);
        assert In(p, d) && Canonicalize(t, unicode, d) == d;
      }
    }
    if c: nat :| In(p, c) && Canonicalize(t, unicode, c) == d {
      if In(m, c) {
        assert In(inter, c);
        assert Covered(r, 0, |r| / 2, d);
      } else {
        OutsideMaskFixed(t, unicode, c);
        InRange(p, c);
        assert In(out, c) && In(sub, c) && c == d;
      }
      assert In(all, d);
    }
  }

  lemma InRange(p: seq<nat>, c: nat)
    requires Boundaries(p) && AtMost(p, UINT32_MAX) && In(p, c)
    ensures c < UINT32_MAX
  {
    if c >= UINT32_MAX { CountAll(p, c); }
  }
}
