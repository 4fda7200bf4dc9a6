/** Character classes: the encoded ranges and the machine's binary search accept exactly the
  * members of the set. */
module ClassMatch {
  import opened Wrappers
  import opened RegexSyntax
  import opened Bytecode
  import opened Emit
  import opened SnapshotVm

  predicate InPairs(rs: seq<(nat, nat)>, lo: int, hi: int, c: nat) {
    exists k :: 0 <= k < |rs| && lo <= k <= hi && rs[k].0 <= c <= rs[k].1
  }

  predicate SortedPairs(rs: seq<(nat, nat)>) {
    && (forall k :: 0 <= k < |rs| ==> rs[k].0 <= rs[k].1)
    && (forall j, k :: 0 <= j < k < |rs| ==> rs[j].1 < rs[k].0)
  }

  lemma {:induction false} SearchBetweenCorrect(rs: seq<(nat, nat)>, lo: int, hi: int, c: nat)
    requires 0 <= lo && hi < |rs| && SortedPairs(rs)
    ensures SearchBetween(rs, lo, hi, c) <==> InPairs(rs, lo, hi, c)
    decreases hi - lo + 1
  {
    if lo <= hi {
      var mid := (lo + hi) / 2;
      if c < rs[mid].0 {
        SearchBetweenCorrect(rs, lo, mid - 1, c);
        assert forall k :: mid < k < |rs| ==> rs[mid].1 < rs[k].0;
      } else if c > rs[mid].1 {
        SearchBetweenCorrect(rs, mid + 1, hi, c);
        assert forall k :: 0 <= k < mid ==> rs[k].1 < rs[mid].0;
      }
    }
  }

  /** For a sorted range list the guarded binary search is membership. */
  lemma RangeSearchCorrect(rs: seq<(nat, nat)>, c: nat)
    requires SortedPairs(rs)
    ensures RangeSearch(true, rs, c) <==> InPairs(rs, 0, |rs| - 1, c)
  {
    if rs != [] {
      var last := |rs| - 1;
      if c < rs[0].0 {
        forall k | 0 < k < |rs| ensures c < rs[k].0 { assert rs[0].1 < rs[k].0; }
      } else if c > rs[last].1 {
        forall k | 0 <= k < last ensures rs[k].1 < c { assert rs[k].1 < rs[last].0; }
      } else {
        SearchBetweenCorrect(rs, 0, last, c);
      }
    }
  }

  lemma PairsSorted(p: seq<nat>)
    requires CanonicalPoints(p)
    ensures SortedPairs(RangePairs(p))
  {
    var rs := RangePairs(p);
    forall k | 0 <= k < |rs| ensures rs[k].0 <= rs[k].1 {
      assert p[2 * k] < p[2 * k + 1];
    }
    forall j, k | 0 <= j < k < |rs| ensures rs[j].1 < rs[k].0 {
      assert p[2 * j + 1] < p[2 * k];
    }
  }

  lemma PairsOfPoints(p: seq<nat>, c: nat)
    requires CanonicalPoints(p)
    ensures SortedPairs(RangePairs(p))
    ensures InPairs(RangePairs(p), 0, |p| / 2 - 1, c) <==> InPoints(p, c)
  {
    PairsSorted(p);
    var rs := RangePairs(p);
    hide CanonicalPoints, SortedPairs;
    if InPoints(p, c) {
      var k :| 0 <= k < |p| / 2 && p[2 * k] <= c < p[2 * k + 1];
      assert rs[k].0 <= c <= rs[k].1;
    }
    if InPairs(rs, 0, |p| / 2 - 1, c) {
      var k :| 0 <= k < |rs| && rs[k].0 <= c <= rs[k].1;
      assert p[2 * k] <= c < p[2 * k + 1];
    }
  }

  lemma Cap16Sorted(p: seq<nat>)
    requires CanonicalPoints(p) && p != [] && FitsRange16(p)
    ensures SortedPairs(Cap16(RangePairs(p)))
    ensures forall k :: 0 <= k < |p| / 2 - 1 ==> Cap16(RangePairs(p))[k] == RangePairs(p)[k]
    ensures p[|p| - 1] != UINT32_MAX ==> Cap16(RangePairs(p)) == RangePairs(p) && RangePairs(p)[|p| / 2 - 1].1 < 0xffff
  {
    var rs := RangePairs(p);
    var cs := Cap16(rs);
    var last := |rs| - 1;
    PairsOfPoints(p, 0);
    forall k | 0 <= k < last ensures rs[k].1 < 0xffff && cs[k] == rs[k] {
      assert rs[k].1 < rs[last].0;
    }
    assert rs[last].0 <= 0xffff by { assert p[2 * last] < p[2 * last + 1]; }
    if p[|p| - 1] != UINT32_MAX { assert cs[last] == rs[last]; }
  }

  lemma Cap16Below(p: seq<nat>, c: nat)
    requires CanonicalPoints(p) && p != [] && FitsRange16(p) && c < 0xffff
    ensures InPairs(Cap16(RangePairs(p)), 0, |p| / 2 - 1, c) <==> InPoints(p, c)
  {
    var rs := RangePairs(p);
    var cs := Cap16(rs);
    PairsOfPoints(p, c);
    hide CanonicalPoints, FitsRange16, InPoints, SortedPairs;
    forall k | 0 <= k < |rs| ensures cs[k].0 <= c <= cs[k].1 <==> rs[k].0 <= c <= rs[k].1 {
    }
  }

  lemma Cap16Above(p: seq<nat>, c: nat)
    requires CanonicalPoints(p) && p != [] && FitsRange16(p) && 0xffff <= c < UINT32_MAX && p[|p| - 1] == UINT32_MAX
    ensures RangeSearch(false, Cap16(RangePairs(p)), c) && InPoints(p, c)
  {
    var last := |p| / 2 - 1;
    var cs := Cap16(RangePairs(p));
    Cap16Sorted(p);
    assert p[2 * last] <= c < p[2 * last + 1];
    assert cs[last].1 == 0xffff && cs[last].0 <= c;
    assert cs[0].0 <= cs[last].0;
  }

  /** In the 16-bit form 0xffff ends the last range only, and only when it is unbounded. */
  lemma Range16Correct(p: seq<nat>, c: nat)
    requires CanonicalPoints(p) && p != [] && FitsRange16(p) && c < UINT32_MAX
    ensures RangeSearch(false, Cap16(RangePairs(p)), c) <==> InPoints(p, c)
  {
    if p[|p| - 1] == UINT32_MAX && c >= 0xffff {
      Cap16Above(p, c);
    } else {
      Cap16Sorted(p);
      RangeSearchCorrect(Cap16(RangePairs(p)), c);
      if c < 0xffff { Cap16Below(p, c); } else { PairsOfPoints(p, c); }
      hide SearchBetween, InPoints, FitsRange16, SortedPairs, InPairs, CanonicalPoints;
    }
  }

  /** The instruction emitted for a class accepts exactly the members of the class. */
  lemma EmitClassCorrect(e: Env, p: seq<nat>, icase: bool, ch: nat)
    requires CanonicalPoints(p) && ch < UINT32_MAX && Canon(e, icase, ch) < UINT32_MAX
    ensures Consumes(EmitClass(p, icase))
    ensures InstrAccepts(e, EmitClass(p, icase), ch) <==> InPoints(p, Canon(e, icase, ch))
  {
    var c := Canon(e, icase, ch);
    if p != [] {
      if FitsRange16(p) {
        Range16Correct(p, c);
      } else {
        PairsOfPoints(p, c);
        RangeSearchCorrect(RangePairs(p), c);
      }
    }
  }

  lemma EmitTestCorrect(e: Env, t: CharTest, ch: nat)
    requires ValidTest(t) && ValidEnv(e) && ch <= CODE_POINT_MAX
    ensures Consumes(EmitTest(e, t))
    ensures InstrAccepts(e, EmitTest(e, t), ch) <==> TestAccepts(e, t, ch)
  {
    match t {
      case Class(p, icase) => EmitClassCorrect(e, p, icase, ch);
      case _ =>
    }
  }
}
