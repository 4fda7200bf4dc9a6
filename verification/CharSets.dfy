/** Sets of code points as sorted boundary points: a point switches membership on or off. */
module CharSets {

  const UINT32_MAX: nat := 0xffff_ffff

  /** Number of points not above c. */
  function Count(p: seq<nat>, c: nat): nat {
    if p == [] then 0 else Count(p[..|p| - 1], c) + (if p[|p| - 1] <= c then 1 else 0)
  }

  /** Membership: an odd number of boundaries has been passed. */
  predicate In(p: seq<nat>, c: nat) { Count(p, c) % 2 == 1 }

  ghost predicate SameSet(p: seq<nat>, q: seq<nat>) {
    forall c: nat :: In(p, c) == In(q, c)
  }

  predicate Nondecreasing(p: seq<nat>) {
    forall i, j :: 0 <= i < j < |p| ==> p[i] <= p[j]
  }

  predicate Increasing(p: seq<nat>) {
    forall i, j :: 0 <= i < j < |p| ==> p[i] < p[j]
  }

  predicate Boundaries(p: seq<nat>) { Nondecreasing(p) && |p| % 2 == 0 }

  /** No empty and no adjacent intervals. */
  predicate Canonical(p: seq<nat>) { Increasing(p) && |p| % 2 == 0 }

  lemma {:induction false} CountConcat(a: seq<nat>, b: seq<nat>, c: nat)
    ensures Count(a + b, c) == Count(a, c) + Count(b, c)
    decreases |b|
  {
    if b == [] {
      assert a + b == a;
    } else {
      assert (a + b)[..|a + b| - 1] == a + b[..|b| - 1];
      CountConcat(a, b[..|b| - 1], c);
    }
  }

  lemma CountOne(v: nat, c: nat)
    ensures Count([v], c) == if v <= c then 1 else 0
  {
    assert [v][..0] == [];
  }

  lemma CountSnoc(p: seq<nat>, v: nat, c: nat)
    ensures Count(p + [v], c) == Count(p, c) + (if v <= c then 1 else 0)
  {
    CountConcat(p, [v], c);
    CountOne(v, c);
  }

  lemma {:induction false} CountAll(p: seq<nat>, c: nat)
    requires forall i :: 0 <= i < |p| ==> p[i] <= c
    ensures Count(p, c) == |p|
  {
    if p != [] { CountAll(p[..|p| - 1], c); }
  }

  lemma {:induction false} CountNone(p: seq<nat>, c: nat)
    requires forall i :: 0 <= i < |p| ==> p[i] > c
    ensures Count(p, c) == 0
  {
    if p != [] { CountNone(p[..|p| - 1], c); }
  }

  /** In a sorted list the points not above c come first. */
  lemma CountSorted(p: seq<nat>, c: nat, k: nat)
    requires k <= |p| && (forall i :: 0 <= i < k ==> p[i] <= c) && (forall i :: k <= i < |p| ==> p[i] > c)
    ensures Count(p, c) == k
  {
    assert p == p[..k] + p[k..];
    CountConcat(p[..k], p[k..], c);
    CountAll(p[..k], c);
    CountNone(p[k..], c);
  }

  /** In a canonical list membership means lying in one of the intervals. */
  lemma InIntervals(p: seq<nat>, c: nat)
    requires Boundaries(p)
    ensures In(p, c) <==> exists k :: 0 <= k < |p| / 2 && p[2 * k] <= c < p[2 * k + 1]
  {
    var n := Split(p, c);
    CountSorted(p, c, n);
    if In(p, c) {
      var k := n / 2;
      assert n == 2 * k + 1 && p[2 * k] <= c < p[2 * k + 1];
    }
    if k :| 0 <= k < |p| / 2 && p[2 * k] <= c < p[2 * k + 1] {
      assert n == 2 * k + 1;
    }
  }

  /** Where the points above c begin. */
  function Split(p: seq<nat>, c: nat): (n: nat)
    requires Nondecreasing(p)
    ensures n <= |p| && (forall i :: 0 <= i < n ==> p[i] <= c) && (forall i :: n <= i < |p| ==> p[i] > c)
  {
    if p == [] then 0
    else if p[|p| - 1] <= c then |p|
    else
      var q := p[..|p| - 1];
      assert forall i :: 0 <= i < |q| ==> q[i] == p[i];
      Split(q, c)
  }

  /** A canonical list is determined by the set it stands for. */
  lemma {:induction false} CanonicalUnique(p: seq<nat>, q: seq<nat>)
    requires Increasing(p) && Increasing(q) && forall c: nat :: In(p, c) == In(q, c)
    ensures p == q
    decreases |p| + |q|
  {
    if p == [] && q == [] {
    } else if p == [] || (q != [] && q[|q| - 1] > p[|p| - 1]) {
      LastPoint(q, p);
    } else if q == [] || p[|p| - 1] > q[|q| - 1] {
      LastPoint(p, q);
    } else {
      var v, a, b := p[|p| - 1], p[..|p| - 1], q[..|q| - 1];
      assert p == a + [v] && q == b + [v];
      forall c: nat ensures In(a, c) == In(b, c) {
        CountSnoc(a, v, c);
        CountSnoc(b, v, c);
        assert In(p, c) == In(q, c);
      }
      CanonicalUnique(a, b);
    }
  }

  /** The last point of p, above all of q, shows in the set. */
  lemma LastPoint(p: seq<nat>, q: seq<nat>)
    requires Increasing(p) && p != [] && forall i :: 0 <= i < |q| ==> q[i] < p[|p| - 1]
    ensures exists c: nat :: In(p, c) != In(q, c)
  {
    var v := p[|p| - 1];
    CountAll(p, v);
    CountAll(q, v);
    if v > 0 {
      CountSorted(p, v - 1, |p| - 1);
      CountAll(q, v - 1);
      assert In(p, v) != In(p, v - 1);
      assert In(q, v) == In(q, v - 1);
      assert In(p, v) != In(q, v) || In(p, v - 1) != In(q, v - 1);
    } else {
      FirstBelowLast(p);
      assert q == [];
      assert In(p, v) && !In(q, v);
    }
  }

  lemma FirstBelowLast(p: seq<nat>)
    requires Increasing(p)
    ensures |p| > 1 ==> p[0] < p[|p| - 1]
  {
  }

  // ----- cr_op -----

  datatype Op = Union | Inter | Xor | Sub

  function Apply(op: Op, a: bool, b: bool): bool {
    match op
    case Union => a || b
    case Inter => a && b
    case Xor => a != b
    case Sub => a && !b
  }

  lemma OpMeans(op: Op)
    ensures forall a, b :: Apply(op, a, b) <==> match op case Union => a || b case Inter => a && b case Xor => (a && !b) || (!a && b) case Sub => a && !b
  {
  }

  /** The points merged so far: everything read is not above what is left, and the result stands for
    * the operation on what has been read. */
  ghost predicate Merged(op: Op, a: seq<nat>, ai: nat, b: seq<nat>, bi: nat, r: seq<nat>) {
    && ai <= |a| && bi <= |b| && Nondecreasing(r)
    && (|r| % 2 == 1) == Apply(op, ai % 2 == 1, bi % 2 == 1)
    && (forall i, j :: 0 <= i < |r| && ai <= j < |a| ==> r[i] <= a[j])
    && (forall i, j :: 0 <= i < |r| && bi <= j < |b| ==> r[i] <= b[j])
    && (forall i, j :: 0 <= i < ai && bi <= j < |b| ==> a[i] <= b[j])
    && (forall i, j :: 0 <= i < bi && ai <= j < |a| ==> b[i] <= a[j])
    && (forall c: nat :: In(r, c) == Apply(op, In(a[..ai], c), In(b[..bi], c)))
  }

  /** A step takes the least point v from a, from b, or from both, and keeps it if membership in the
    * result changes. */
  ghost predicate TakesPoint(op: Op, a: seq<nat>, ai: nat, b: seq<nat>, bi: nat, r: seq<nat>, ai': nat, bi': nat, v: nat, r': seq<nat>) {
    && ai <= ai' <= |a| && bi <= bi' <= |b| && ai' <= ai + 1 && bi' <= bi + 1
    && (ai' == ai + 1 ==> a[ai] == v) && (bi' == bi + 1 ==> b[bi] == v) && ai' + bi' > ai + bi
    && (ai < |a| ==> v <= a[ai]) && (bi < |b| ==> v <= b[bi])
    && r' == if Apply(op, ai' % 2 == 1, bi' % 2 == 1) != (|r| % 2 == 1) then r + [v] else r
  }

  lemma MergeStep(op: Op, a: seq<nat>, ai: nat, b: seq<nat>, bi: nat, r: seq<nat>, ai': nat, bi': nat, v: nat, r': seq<nat>)
    requires Nondecreasing(a) && Nondecreasing(b) && Merged(op, a, ai, b, bi, r)
    requires TakesPoint(op, a, ai, b, bi, r, ai', bi', v, r')
    ensures Merged(op, a, ai', b, bi', r')
  {
    hide In, Apply;
    BelowV(a, ai, b, bi, r, ai', bi', v);
    forall c: nat ensures In(r', c) == Apply(op, In(a[..ai'], c), In(b[..bi'], c)) {
      MergePoint(op, a, ai, b, bi, r, ai', bi', v, r', c);
    }
  }

  lemma MergePoint(op: Op, a: seq<nat>, ai: nat, b: seq<nat>, bi: nat, r: seq<nat>, ai': nat, bi': nat, v: nat, r': seq<nat>, c: nat)
    requires TakesPoint(op, a, ai, b, bi, r, ai', bi', v, r')
    requires forall i :: 0 <= i < |r| ==> r[i] <= v
    requires forall i :: 0 <= i < ai' ==> a[..ai'][i] <= v
    requires forall i :: 0 <= i < bi' ==> b[..bi'][i] <= v
    requires In(r, c) == Apply(op, In(a[..ai], c), In(b[..bi], c))
    ensures In(r', c) == Apply(op, In(a[..ai'], c), In(b[..bi'], c))
  {
    hide In;
    if c < v {
      Later(r, r', v, c);
      Later(a[..ai], a[..ai'], v, c);
      Later(b[..bi], b[..bi'], v, c);
    } else {
      Passed(r', c);
      Passed(a[..ai'], c);
      Passed(b[..bi'], c);
    }
  }

  /** Everything read so far is at most v. */
  lemma BelowV(a: seq<nat>, ai: nat, b: seq<nat>, bi: nat, r: seq<nat>, ai': nat, bi': nat, v: nat)
    requires Nondecreasing(a) && Nondecreasing(b) && ai <= ai' <= |a| && bi <= bi' <= |b| && ai' <= ai + 1 && bi' <= bi + 1
    requires (ai' == ai + 1 ==> a[ai] == v) && (bi' == bi + 1 ==> b[bi] == v) && ai' + bi' > ai + bi
    requires forall i, j :: 0 <= i < |r| && ai <= j < |a| ==> r[i] <= a[j]
    requires forall i, j :: 0 <= i < |r| && bi <= j < |b| ==> r[i] <= b[j]
    requires forall i, j :: 0 <= i < ai && bi <= j < |b| ==> a[i] <= b[j]
    requires forall i, j :: 0 <= i < bi && ai <= j < |a| ==> b[i] <= a[j]
    ensures forall i :: 0 <= i < |r| ==> r[i] <= v
    ensures forall i :: 0 <= i < ai' ==> a[..ai'][i] <= v
    ensures forall i :: 0 <= i < bi' ==> b[..bi'][i] <= v
  {
  }

  lemma Later(p: seq<nat>, q: seq<nat>, v: nat, c: nat)
    requires c < v && (q == p || (|q| == |p| + 1 && q[..|p|] == p && q[|p|] == v))
    ensures In(q, c) == In(p, c)
  {
    if q != p {
      assert q == p + [v];
      CountSnoc(p, v, c);
    }
  }

  lemma Passed(p: seq<nat>, c: nat)
    requires forall i :: 0 <= i < |p| ==> p[i] <= c
    ensures In(p, c) == (|p| % 2 == 1)
  {
    CountAll(p, c);
  }

  class CharRange {
    var points: seq<nat>

    constructor ()
      ensures points == []
    {
      points := [];
    }

    method AddPoint(v: nat)
      modifies this
      ensures points == old(points) + [v]
    {
      points := points + [v];
    }

    method AddInterval(low: nat, high: nat)
      modifies this
      ensures points == old(points) + [low, high]
    {
      AddPoint(low);
      AddPoint(high);
    }

    /** cr_op: merge two boundary lists; a point is kept when membership changes. */
    method CrOp(a: seq<nat>, b: seq<nat>, op: Op)
      requires Boundaries(a) && Boundaries(b) && points == []
      modifies this
      ensures Canonical(points)
      ensures forall c: nat :: In(points, c) == Apply(op, In(a, c), In(b, c))
      ensures op == Union ==> forall c: nat :: In(points, c) <==> In(a, c) || In(b, c)
      ensures op == Inter ==> forall c: nat :: In(points, c) <==> In(a, c) && In(b, c)
      ensures op == Xor ==> forall c: nat :: In(points, c) <==> (In(a, c) && !In(b, c)) || (!In(a, c) && In(b, c))
      ensures op == Sub ==> forall c: nat :: In(points, c) <==> In(a, c) && !In(b, c)
    {
      hide In, Apply, Merged;
      var ai, bi := 0, 0;
      MergeStart(op, a, b);
      while ai < |a| || bi < |b|
        invariant Merged(op, a, ai, b, bi, points) && 0 <= ai <= |a| && 0 <= bi <= |b|
        decreases |a| - ai + |b| - bi
      {
        ghost var ai0, bi0, r0 := ai, bi, points;
        var v;
        if ai < |a| && bi < |b| && a[ai] == b[bi] {
          v := a[ai];
          ai, bi := ai + 1, bi + 1;
        } else if bi >= |b| || (ai < |a| && a[ai] < b[bi]) {
          v := a[ai];
          ai := ai + 1;
        } else {
          v := b[bi];
          bi := bi + 1;
        }
        var isIn := Apply(op, ai % 2 == 1, bi % 2 == 1);
        if isIn != (|points| % 2 == 1) { AddPoint(v); }
        MergeStep(op, a, ai0, b, bi0, r0, ai, bi, v, points);
      }
      MergeEnd(op, a, b, points);
      ghost var merged := points;
      CrCompress();
      forall c: nat ensures In(points, c) == Apply(op, In(a, c), In(b, c)) {
        assert In(merged, c) == Apply(op, In(a, c), In(b, c));
      }
      OpMeans(op);
    }

    /** cr_compress: drop empty intervals and join adjacent ones, in place. */
    method CrCompress()
      requires Boundaries(points)
      modifies this
      ensures Canonical(points) && forall c: nat :: In(points, c) == In(old(points), c)
      ensures forall x :: 0 <= x < |points| ==> points[x] in old(points)
    {
      hide In, SameSet, Compressed, Joined, Nondecreasing, Canonical;
      ghost var p := points;
      var len := |points|;
      var i, k := 0, 0;
      CompressStart(p);
      while i + 1 < len
        invariant 0 <= k <= i <= len == |points| == |p| && k % 2 == 0 && i % 2 == 0
        invariant points[i..] == p[i..] && Compressed(p, i, points[..k])
      {
        TailSame(points, p, i, i);
        TailSame(points, p, i, i + 1);
        if points[i] == points[i + 1] {
          CompressSkip(p, i, points[..k]);
          TailMore(points, p, i);
          i := i + 2;
        } else {
          OrderAt(p, i);
          var j := JoinedUpTo(p, i);
          ghost var out, was := points[..k], points;
          CompressAdd(p, i, j, out);
          points := points[k := points[i]];
          points := points[k + 1 := points[j + 1]];
          CopiedPair(was, points, p, k, i, j, out);
          k := k + 2;
          i := j + 2;
        }
      }
      CompressEnd(p, i, points[..k]);
      points := points[..k];
      CompressSame(points, p);
    }

    /** The last of the intervals from i on that touch each other. */
    method JoinedUpTo(ghost p: seq<nat>, i: nat) returns (j: nat)
      requires Boundaries(p) && i + 1 < |p| == |points| && points[i..] == p[i..] && i % 2 == 0 && p[i] < p[i + 1]
      ensures i <= j && j % 2 == 0 && j + 1 < |p| && points[j + 1] == p[j + 1] && Joined(p, i, j)
      ensures j + 3 < |p| ==> p[j + 1] != p[j + 2]
    {
      hide Joined, Nondecreasing;
      j := i;
      JoinStart(p, i);
      TailSame(points, p, i, i + 1);
      while j + 3 < |points| && points[j + 1] == points[j + 2]
        invariant i <= j && j % 2 == 0 && j + 1 < |p| && points[j + 1] == p[j + 1] && Joined(p, i, j)
      {
        TailSame(points, p, i, j + 2);
        TailSame(points, p, i, j + 3);
        JoinStep(p, i, j);
        j := j + 2;
      }
      if j + 3 < |points| { TailSame(points, p, i, j + 2); }
    }

    /** cr_invert: complement in [0, 2^32 - 1). */
    method CrInvert()
      requires Boundaries(points) && forall i :: 0 <= i < |points| ==> points[i] <= UINT32_MAX
      modifies this
      ensures Canonical(points) && forall i :: 0 <= i < |points| ==> points[i] <= UINT32_MAX
      ensures forall c: nat :: In(points, c) == (c < 0xffff_ffff && !In(old(points), c))
    {
      hide In;
      ghost var p := points;
      points := [0] + points + [UINT32_MAX];
      ghost var q := points;
      CrCompress();
      forall c: nat ensures In(points, c) == (c < UINT32_MAX && !In(p, c)) {
        Complement(p, c);
        assert In(points, c) == In(q, c);
      }
    }
  }

  lemma OrderAt(p: seq<nat>, i: nat)
    requires Nondecreasing(p) && i + 1 < |p|
    ensures p[i] <= p[i + 1]
  {
  }

  lemma CopiedPair(was: seq<nat>, now: seq<nat>, p: seq<nat>, k: nat, i: nat, j: nat, out: seq<nat>)
    requires k <= i <= j && j + 1 < |was| == |p| && was[i..] == p[i..] && out == was[..k] && was[i] == p[i] && was[j + 1] == p[j + 1]
    requires now == was[k := was[i]][k + 1 := was[k := was[i]][j + 1]]
    ensures now[..k + 2] == out + [p[i], p[j + 1]] && now[j + 2..] == p[j + 2..]
  {
    assert was[j + 2..] == was[i..][j + 2 - i..] && p[j + 2..] == p[i..][j + 2 - i..];
  }

  lemma TailMore(s: seq<nat>, p: seq<nat>, i: nat)
    requires |s| == |p| && i + 2 <= |p| && s[i..] == p[i..]
    ensures s[i + 2..] == p[i + 2..]
  {
    assert s[i + 2..] == s[i..][2..] && p[i + 2..] == p[i..][2..];
  }

  lemma TailSame(a: seq<nat>, b: seq<nat>, i: nat, j: nat)
    requires i <= j < |a| == |b| && a[i..] == b[i..]
    ensures a[j] == b[j]
  {
    assert a[j] == a[i..][j - i] && b[j] == b[i..][j - i];
  }

  lemma Complement(p: seq<nat>, c: nat)
    requires Boundaries(p) && forall i :: 0 <= i < |p| ==> p[i] <= UINT32_MAX
    ensures In([0] + p + [UINT32_MAX], c) == (c < UINT32_MAX && !In(p, c))
  {
    CountConcat([0], p, c);
    CountOne(0, c);
    CountSnoc([0] + p, UINT32_MAX, c);
    if c >= UINT32_MAX { CountAll(p, c); }
  }

  lemma MergeStart(op: Op, a: seq<nat>, b: seq<nat>)
    ensures Merged(op, a, 0, b, 0, [])
  {
    assert a[..0] == [] && b[..0] == [];
  }

  lemma MergeEnd(op: Op, a: seq<nat>, b: seq<nat>, r: seq<nat>)
    requires Boundaries(a) && Boundaries(b) && Merged(op, a, |a|, b, |b|, r)
    ensures Boundaries(r) && forall c: nat :: In(r, c) == Apply(op, In(a, c), In(b, c))
  {
    hide In;
    assert a[..|a|] == a && b[..|b|] == b;
  }

  // ----- compression -----

  /** The first i points in their canonical form. */
  ghost predicate Compressed(p: seq<nat>, i: nat, out: seq<nat>) {
    && i <= |p| && Canonical(out) && SameSet(out, p[..i])
    && (forall x, y :: 0 <= x < |out| && i <= y < |p| ==> out[x] < p[y])
    && (forall x :: 0 <= x < |out| ==> out[x] in p)
  }

  lemma CompressStart(p: seq<nat>)
    ensures Compressed(p, 0, [])
  {
    assert p[..0] == [];
  }

  lemma CompressSame(out: seq<nat>, p: seq<nat>)
    requires SameSet(out, p)
    ensures forall c: nat :: In(out, c) == In(p, c)
  {
    hide In;
  }

  /** Two more points. */
  lemma TwoMore(p: seq<nat>, i: nat, c: nat)
    requires i + 1 < |p|
    ensures Count(p[..i + 2], c) == Count(p[..i], c) + (if p[i] <= c then 1 else 0) + (if p[i + 1] <= c then 1 else 0)
  {
    hide Count;
    assert p[..i + 2] == p[..i] + [p[i]] + [p[i + 1]];
    CountSnoc(p[..i] + [p[i]], p[i + 1], c);
    CountSnoc(p[..i], p[i], c);
  }

  lemma PairMore(q: seq<nat>, u: nat, v: nat, c: nat)
    ensures Count(q + [u, v], c) == Count(q, c) + (if u <= c then 1 else 0) + (if v <= c then 1 else 0)
  {
    hide Count;
    assert q + [u, v] == q + [u] + [v];
    CountSnoc(q + [u], v, c);
    CountSnoc(q, u, c);
  }

  lemma CompressSkip(p: seq<nat>, i: nat, out: seq<nat>)
    requires Compressed(p, i, out) && i + 1 < |p| && p[i] == p[i + 1]
    ensures Compressed(p, i + 2, out)
  {
    forall c: nat ensures In(out, c) == In(p[..i + 2], c) {
      assert In(out, c) == In(p[..i], c);
      TwoMore(p, i, c);
    }
  }

  /** Intervals i .. j touch: they are as good as one. */
  ghost predicate Joined(p: seq<nat>, i: nat, j: nat) {
    i <= j && j + 1 < |p| && SameSet(p[..j + 2], p[..i] + [p[i], p[j + 1]])
  }

  lemma JoinStart(p: seq<nat>, i: nat)
    requires i + 1 < |p|
    ensures Joined(p, i, i)
  {
    assert p[..i + 2] == p[..i] + [p[i], p[i + 1]];
  }

  lemma JoinStep(p: seq<nat>, i: nat, j: nat)
    requires Joined(p, i, j) && j + 3 < |p| && p[j + 1] == p[j + 2]
    ensures Joined(p, i, j + 2)
  {
    hide Count;
    var x, y := p[..j + 4], p[..i] + [p[i], p[j + 3]];
    forall c: nat ensures In(x, c) == In(y, c) {
      assert In(p[..j + 2], c) == In(p[..i] + [p[i], p[j + 1]], c);
      TwoMore(p, j + 2, c);
      PairMore(p[..i], p[i], p[j + 1], c);
      PairMore(p[..i], p[i], p[j + 3], c);
    }
  }

  lemma CompressAdd(p: seq<nat>, i: nat, j: nat, out: seq<nat>)
    requires Nondecreasing(p) && Compressed(p, i, out) && Joined(p, i, j) && p[i] < p[i + 1]
    requires j + 3 < |p| ==> p[j + 1] != p[j + 2]
    requires |p| % 2 == 0 && j % 2 == 0
    ensures Compressed(p, j + 2, out + [p[i], p[j + 1]])
  {
    hide In;
    var r := out + [p[i], p[j + 1]];
    forall c: nat ensures In(r, c) == In(p[..j + 2], c) {
      assert In(out, c) == In(p[..i], c) && In(p[..j + 2], c) == In(p[..i] + [p[i], p[j + 1]], c);
      SameTail(out, p[..i], p[i], p[j + 1], c);
    }
    assert p[i + 1] <= p[j + 1];
    forall x, y | 0 <= x < |r| && j + 2 <= y < |p| ensures r[x] < p[y] {
      assert p[j + 2] <= p[y];
    }
  }

  lemma SameTail(a: seq<nat>, b: seq<nat>, u: nat, v: nat, c: nat)
    requires In(a, c) == In(b, c)
    ensures In(a + [u, v], c) == In(b + [u, v], c)
  {
    CountConcat(a, [u, v], c);
    CountConcat(b, [u, v], c);
  }

  lemma CompressEnd(p: seq<nat>, i: nat, out: seq<nat>)
    requires Compressed(p, i, out) && i + 1 >= |p| && i % 2 == 0 && |p| % 2 == 0
    ensures Canonical(out) && SameSet(out, p) && forall x :: 0 <= x < |out| ==> out[x] in p
  {
    hide In;
    assert p[..i] == p;
  }

  // ----- laws -----

  /** Complementing twice gives a canonical set back. */
  lemma InvertInvolution(p: seq<nat>, q: seq<nat>, r: seq<nat>)
    requires Canonical(p) && Canonical(q) && Canonical(r) && forall i :: 0 <= i < |p| ==> p[i] <= UINT32_MAX
    requires forall c: nat :: In(q, c) == (c < UINT32_MAX && !In(p, c))
    requires forall c: nat :: In(r, c) == (c < UINT32_MAX && !In(q, c))
    ensures r == p
  {
    hide In;
    forall c: nat ensures In(r, c) == In(p, c) {
      if c >= UINT32_MAX { OutsideRange(p, c); }
      assert In(q, c) == (c < UINT32_MAX && !In(p, c));
    }
    CanonicalUnique(p, r);
  }

  lemma OutsideRange(p: seq<nat>, c: nat)
    requires |p| % 2 == 0 && c >= UINT32_MAX && forall i :: 0 <= i < |p| ==> p[i] <= UINT32_MAX
    ensures !In(p, c)
  {
    CountAll(p, c);
  }
}
