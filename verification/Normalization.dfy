/** Unicode normal forms: decomposition, canonical ordering in place, composition in place. */
module Normalization {

  type Class = x: nat | x < 256

  /** The tables: combining classes, composition pairs and decompositions (canonical or compatibility).
    * rank bounds how deep a decomposition is. */
  datatype UnicodeData = UnicodeData(
    classes: map<nat, Class>, pairs: map<(nat, nat), nat>, decompositions: map<(nat, bool), seq<nat>>, rank: map<nat, nat>)

  function UnicodeGetCc(d: UnicodeData, c: nat): Class { if c in d.classes then d.classes[c] else 0 }

  predicate Starter(d: UnicodeData, c: nat) { UnicodeGetCc(d, c) == 0 }

  // ----- canonical ordering -----

  /** No mark precedes one of a smaller class, starters apart. */
  predicate Ordered(d: UnicodeData, s: seq<nat>) {
    forall j :: 0 < j < |s| && !Starter(d, s[j]) ==> UnicodeGetCc(d, s[j - 1]) <= UnicodeGetCc(d, s[j])
  }

  /** The starters of s and its marks of class k, in their order. */
  function Keep(d: UnicodeData, s: seq<nat>, k: Class): seq<nat> {
    if s == [] then []
    else Keep(d, s[..|s| - 1], k) + (if UnicodeGetCc(d, s[|s| - 1]) in [0, k] then [s[|s| - 1]] else [])
  }

  /** Canonical reordering: marks of different classes between two starters may change places, nothing else. */
  ghost predicate Reordered(d: UnicodeData, a: seq<nat>, b: seq<nat>) {
    forall k: Class :: Keep(d, a, k) == Keep(d, b, k)
  }

  lemma {:induction false} KeepConcat(d: UnicodeData, a: seq<nat>, b: seq<nat>, k: Class)
    ensures Keep(d, a + b, k) == Keep(d, a, k) + Keep(d, b, k)
    decreases |b|
  {
    if b == [] {
      assert a + b == a;
    } else {
      assert (a + b)[..|a + b| - 1] == a + b[..|b| - 1];
      KeepConcat(d, a, b[..|b| - 1], k);
    }
  }

  lemma KeepOne(d: UnicodeData, c: nat, k: Class)
    ensures Keep(d, [c], k) == if UnicodeGetCc(d, c) in [0, k] then [c] else []
  {
    assert [c][..0] == [];
  }

  /** The kept characters after the first one. */
  lemma KeepHead(d: UnicodeData, s: seq<nat>, k: Class)
    requires s != []
    ensures Keep(d, s, k) == (if UnicodeGetCc(d, s[0]) in [0, k] then [s[0]] else []) + Keep(d, s[1..], k)
    ensures UnicodeGetCc(d, s[0]) in [0, k] ==> Keep(d, s, k) != [] && Keep(d, s, k)[0] == s[0] && Keep(d, s, k)[1..] == Keep(d, s[1..], k)
    ensures UnicodeGetCc(d, s[0]) !in [0, k] ==> Keep(d, s, k) == Keep(d, s[1..], k)
  {
    hide Keep;
    assert s == [s[0]] + s[1..];
    KeepConcat(d, [s[0]], s[1..], k);
    KeepOne(d, s[0], k);
  }

  lemma OrderedTail(d: UnicodeData, s: seq<nat>)
    requires s != [] && Ordered(d, s)
    ensures Ordered(d, s[1..]) && (|s| > 1 && !Starter(d, s[1]) ==> UnicodeGetCc(d, s[0]) <= UnicodeGetCc(d, s[1]))
  {
  }

  /** An ordered text that begins with class j has no mark of a smaller class before its first starter. */
  lemma {:induction false} NoSmallerFirst(d: UnicodeData, s: seq<nat>, i: Class)
    requires s != [] && Ordered(d, s) && 0 < i < UnicodeGetCc(d, s[0]) && Keep(d, s, i) != []
    ensures Starter(d, Keep(d, s, i)[0])
    decreases |s|
  {
    hide Ordered, Keep;
    KeepHead(d, s, i);
    OrderedTail(d, s);
    if |s| == 1 {
      NothingKept(d, s[1..], i);
    } else {
      KeepHead(d, s[1..], i);
      if !Starter(d, s[1]) { NoSmallerFirst(d, s[1..], i); }
    }
  }

  lemma NothingKept(d: UnicodeData, s: seq<nat>, k: Class)
    requires s == []
    ensures Keep(d, s, k) == []
  {
  }

  /** The first characters of two ordered reorderings agree. */
  lemma SameFirst(d: UnicodeData, a: seq<nat>, b: seq<nat>)
    requires a != [] && b != [] && Ordered(d, a) && Ordered(d, b) && Reordered(d, a, b)
    ensures a[0] == b[0]
  {
    hide Ordered, Keep;
    var i, j := UnicodeGetCc(d, a[0]), UnicodeGetCc(d, b[0]);
    KeepHead(d, a, i);
    KeepHead(d, b, i);
    KeepHead(d, a, j);
    KeepHead(d, b, j);
    assert Keep(d, a, i) == Keep(d, b, i) && Keep(d, a, j) == Keep(d, b, j);
    if 0 < i < j { NoSmallerFirst(d, b, i); }
    if 0 < j < i { NoSmallerFirst(d, a, j); }
  }

  /** Canonical ordering is unique: a text has one ordered reordering. */
  lemma {:induction false} OrderedUnique(d: UnicodeData, a: seq<nat>, b: seq<nat>)
    requires Ordered(d, a) && Ordered(d, b) && Reordered(d, a, b)
    ensures a == b
    decreases |a|
  {
    hide Ordered, Keep;
    if a == [] || b == [] {
      BothEmpty(d, a, b);
    } else {
      SameFirst(d, a, b);
      forall k: Class ensures Keep(d, a[1..], k) == Keep(d, b[1..], k) {
        assert Keep(d, a, k) == Keep(d, b, k);
        KeepHead(d, a, k);
        KeepHead(d, b, k);
      }
      OrderedTail(d, a);
      OrderedTail(d, b);
      OrderedUnique(d, a[1..], b[1..]);
      assert a == [a[0]] + a[1..] && b == [b[0]] + b[1..];
    }
  }

  lemma BothEmpty(d: UnicodeData, a: seq<nat>, b: seq<nat>)
    requires Reordered(d, a, b) && (a == [] || b == [])
    ensures a == [] && b == []
  {
    Kept(d, a, b);
    Kept(d, b, a);
  }

  lemma Kept(d: UnicodeData, a: seq<nat>, b: seq<nat>)
    ensures a == [] && (Reordered(d, a, b) || Reordered(d, b, a)) ==> b == []
  {
    if a == [] && b != [] {
      var k := UnicodeGetCc(d, b[0]);
      KeepHead(d, b, k);
      assert Keep(d, b, k) != Keep(d, a, k);
    }
  }

  lemma ReorderedTrans(d: UnicodeData, a: seq<nat>, b: seq<nat>, c: seq<nat>)
    requires Reordered(d, a, b) && Reordered(d, b, c)
    ensures Reordered(d, a, c)
  {
    hide Keep;
    forall k: Class ensures Keep(d, a, k) == Keep(d, c, k) {
      assert Keep(d, a, k) == Keep(d, b, k);
    }
  }

  /** A mark may pass marks of other classes. */
  lemma PassMarks(d: UnicodeData, before: seq<nat>, mid: seq<nat>, c: nat, after: seq<nat>)
    requires !Starter(d, c) && forall i :: 0 <= i < |mid| ==> !Starter(d, mid[i]) && UnicodeGetCc(d, mid[i]) != UnicodeGetCc(d, c)
    ensures Reordered(d, before + mid + [c] + after, before + [c] + mid + after)
  {
    hide Keep;
    forall k: Class ensures Keep(d, before + mid + [c] + after, k) == Keep(d, before + [c] + mid + after, k) {
      KeepConcat(d, before + mid + [c], after, k);
      KeepConcat(d, before + mid, [c], k);
      KeepConcat(d, before, mid, k);
      KeepConcat(d, before + [c] + mid, after, k);
      KeepConcat(d, before + [c], mid, k);
      KeepConcat(d, before, [c], k);
      KeepOne(d, c, k);
      if k == UnicodeGetCc(d, c) { KeepNone(d, mid, k); }
    }
  }

  lemma {:induction false} KeepNone(d: UnicodeData, s: seq<nat>, k: Class)
    requires forall i :: 0 <= i < |s| ==> UnicodeGetCc(d, s[i]) !in [0, k]
    ensures Keep(d, s, k) == []
  {
    if s != [] { KeepNone(d, s[..|s| - 1], k); }
  }

  lemma ReorderedSym(d: UnicodeData, a: seq<nat>, b: seq<nat>)
    requires Reordered(d, a, b)
    ensures Reordered(d, b, a)
  {
    hide Keep;
    forall k: Class ensures Keep(d, b, k) == Keep(d, a, k) {
      assert Keep(d, a, k) == Keep(d, b, k);
    }
  }

  /** Insertion before the marks of greater class. */
  function InsertMark(d: UnicodeData, s: seq<nat>, c: nat): seq<nat> {
    if s == [] || Starter(d, c) || UnicodeGetCc(d, s[|s| - 1]) <= UnicodeGetCc(d, c) then s + [c]
    else InsertMark(d, s[..|s| - 1], c) + [s[|s| - 1]]
  }

  /** Canonical ordering of a text. */
  function CanonicalOrder(d: UnicodeData, s: seq<nat>): seq<nat> {
    if s == [] then [] else InsertMark(d, CanonicalOrder(d, s[..|s| - 1]), s[|s| - 1])
  }

  lemma {:induction false} InsertMarkOrders(d: UnicodeData, s: seq<nat>, c: nat)
    requires Ordered(d, s)
    ensures var r := InsertMark(d, s, c); |r| == |s| + 1 && Ordered(d, r) && r[|s|] in [c, if s == [] then c else s[|s| - 1]]
    ensures Reordered(d, s + [c], InsertMark(d, s, c))
  {
    if !(s == [] || Starter(d, c) || UnicodeGetCc(d, s[|s| - 1]) <= UnicodeGetCc(d, c)) {
      var p, m := s[..|s| - 1], s[|s| - 1];
      InsertMarkOrders(d, p, c);
      PassMarks(d, p, [m], c, []);
      assert s + [c] == p + [m] + [c] + [];
      ReorderedConcat(d, p + [c], InsertMark(d, p, c), [m], [m]);
      assert p + [c] + [m] == p + [c] + [m] + [];
      ReorderedTrans(d, s + [c], p + [c] + [m], InsertMark(d, s, c));
    }
  }

  lemma ReorderedConcat(d: UnicodeData, a: seq<nat>, b: seq<nat>, u: seq<nat>, v: seq<nat>)
    requires Reordered(d, a, b) && Reordered(d, u, v)
    ensures Reordered(d, a + u, b + v)
  {
    hide Keep;
    forall k: Class ensures Keep(d, a + u, k) == Keep(d, b + v, k) {
      KeepConcat(d, a, u, k);
      KeepConcat(d, b, v, k);
      assert Keep(d, a, k) == Keep(d, b, k) && Keep(d, u, k) == Keep(d, v, k);
    }
  }

  /** A text has an ordered reordering; by OrderedUnique it is the only one. */
  lemma {:induction false} CanonicalOrderIs(d: UnicodeData, s: seq<nat>)
    ensures Ordered(d, CanonicalOrder(d, s)) && Reordered(d, s, CanonicalOrder(d, s)) && |CanonicalOrder(d, s)| == |s|
  {
    hide Reordered, Ordered;
    if s == [] {
      EmptyOrder(d);
    } else {
      var p, c := s[..|s| - 1], s[|s| - 1];
      CanonicalOrderIs(d, p);
      InsertMarkOrders(d, CanonicalOrder(d, p), c);
      ReorderedSame(d, [c]);
      ReorderedConcat(d, p, CanonicalOrder(d, p), [c], [c]);
      assert s == p + [c];
      ReorderedTrans(d, s, CanonicalOrder(d, p) + [c], CanonicalOrder(d, s));
    }
  }

  lemma EmptyOrder(d: UnicodeData)
    ensures Ordered(d, []) && Reordered(d, [], [])
  {
  }

  lemma ReorderedSame(d: UnicodeData, s: seq<nat>)
    ensures Reordered(d, s, s)
  {
  }

  /** Reordered texts have one canonical order. */
  lemma SameOrder(d: UnicodeData, a: seq<nat>, b: seq<nat>)
    requires Reordered(d, a, b)
    ensures CanonicalOrder(d, a) == CanonicalOrder(d, b)
  {
    hide Reordered, Ordered;
    CanonicalOrderIs(d, a);
    CanonicalOrderIs(d, b);
    ReorderedSym(d, a, CanonicalOrder(d, a));
    ReorderedTrans(d, CanonicalOrder(d, a), a, b);
    ReorderedTrans(d, CanonicalOrder(d, a), b, CanonicalOrder(d, b));
    OrderedUnique(d, CanonicalOrder(d, a), CanonicalOrder(d, b));
  }

  lemma OrderIs(d: UnicodeData, s: seq<nat>, r: seq<nat>)
    requires Ordered(d, r) && Reordered(d, s, r)
    ensures r == CanonicalOrder(d, s)
  {
    hide Reordered, Ordered;
    CanonicalOrderIs(d, s);
    ReorderedSym(d, s, r);
    ReorderedTrans(d, r, s, CanonicalOrder(d, s));
    OrderedUnique(d, r, CanonicalOrder(d, s));
  }

  /** Exchanging neighbouring marks of different classes does not change the ordered text. */
  lemma ExchangeInvariant(d: UnicodeData, s: seq<nat>, i: nat)
    requires i + 1 < |s| && !Starter(d, s[i]) && !Starter(d, s[i + 1]) && UnicodeGetCc(d, s[i]) != UnicodeGetCc(d, s[i + 1])
    ensures CanonicalOrder(d, s) == CanonicalOrder(d, s[i := s[i + 1]][i + 1 := s[i]])
  {
    hide Ordered, Reordered;
    var s' := s[i := s[i + 1]][i + 1 := s[i]];
    PassMarks(d, s[..i], [s[i]], s[i + 1], s[i + 2..]);
    assert s == s[..i] + [s[i]] + [s[i + 1]] + s[i + 2..];
    assert s' == s[..i] + [s[i + 1]] + [s[i]] + s[i + 2..];
    SameOrder(d, s, s');
  }

  // ----- sort_cc -----

  /** Positions start to j hold marks in nondecreasing class order. */
  predicate MarkRun(d: UnicodeData, s: seq<nat>, start: nat, j: nat) {
    && start <= j <= |s| && (forall x :: start <= x < j ==> !Starter(d, s[x]))
    && forall x, y :: start <= x < y < j ==> UnicodeGetCc(d, s[x]) <= UnicodeGetCc(d, s[y])
  }

  /** The text is ordered below i, nothing from i on has moved, and starters stand where they were. */
  ghost predicate SortedTo(d: UnicodeData, was: seq<nat>, s: seq<nat>, i: nat) {
    && i <= |s| == |was| && Ordered(d, s[..i]) && Reordered(d, was, s) && s[i..] == was[i..]
    && forall x :: 0 <= x < |s| ==> Starter(d, was[x]) == Starter(d, s[x]) && (Starter(d, was[x]) ==> s[x] == was[x])
  }

  lemma SortStart(d: UnicodeData, s: seq<nat>)
    ensures SortedTo(d, s, s, 0)
  {
  }

  lemma SortStarter(d: UnicodeData, was: seq<nat>, s: seq<nat>, i: nat)
    requires SortedTo(d, was, s, i) && i < |s| && Starter(d, s[i])
    ensures SortedTo(d, was, s, i + 1)
  {
    hide Reordered;
    assert s[i + 1..] == s[i..][1..] && was[i + 1..] == was[i..][1..];
    assert forall x :: 0 <= x < i ==> s[..i + 1][x] == s[..i][x];
  }

  /** While the run that begins at start is sorted: its first j - start marks are in order. */
  ghost predicate Sorting(d: UnicodeData, was: seq<nat>, s: seq<nat>, start: nat, j: nat) {
    && MarkRun(d, s, start, j) && |s| == |was| && Ordered(d, s[..start]) && (start > 0 ==> Starter(d, s[start - 1]))
    && Reordered(d, was, s) && s[j..] == was[j..]
    && forall x :: 0 <= x < |s| ==> Starter(d, was[x]) == Starter(d, s[x]) && (Starter(d, was[x]) ==> s[x] == was[x])
  }

  lemma RunStart(d: UnicodeData, was: seq<nat>, s: seq<nat>, i: nat)
    requires SortedTo(d, was, s, i) && i < |s| && !Starter(d, s[i]) && (i > 0 ==> Starter(d, s[i - 1]))
    ensures Sorting(d, was, s, i, i + 1)
  {
    hide Reordered;
    assert s[i + 1..] == s[i..][1..] && was[i + 1..] == was[i..][1..];
  }

  lemma RunEnd(d: UnicodeData, was: seq<nat>, s: seq<nat>, start: nat, j: nat)
    requires Sorting(d, was, s, start, j) && start < j && (j < |s| ==> Starter(d, s[j]))
    ensures SortedTo(d, was, s, j)
    ensures j < |s| ==> SortedTo(d, was, s, j + 1)
  {
    hide Reordered;
    forall x | 0 < x < j && !Starter(d, s[x]) ensures UnicodeGetCc(d, s[x - 1]) <= UnicodeGetCc(d, s[x]) {
      if x < start { assert s[..start][x] == s[x] && s[..start][x - 1] == s[x - 1]; }
    }
    if j < |s| { SortStarter(d, was, s, j); }
  }

  /** The state with the hole at k + 1: the marks k + 1 to j - 1 stand one place further right. */
  predicate Shifted(s: seq<nat>, b: seq<nat>, k: int, j: nat) {
    -1 <= k < j < |s| == |b| && b == s[..k + 2] + s[k + 1..j] + s[j + 1..]
  }

  lemma ShiftStart(s: seq<nat>, j: nat)
    requires 0 < j < |s|
    ensures Shifted(s, s, j - 1, j)
  {
    assert s == s[..j + 1] + s[j..j] + s[j + 1..];
  }

  lemma ShiftStep(s: seq<nat>, b: seq<nat>, k: nat, j: nat)
    requires Shifted(s, b, k, j)
    ensures b[k] == s[k] && Shifted(s, b[k + 1 := b[k]], k - 1, j)
  {
    var b' := b[k + 1 := b[k]];
    assert s[k..j] == [s[k]] + s[k + 1..j];
    assert b' == s[..k + 1] + s[k..j] + s[j + 1..];
  }

  /** r is s with the character at j moved to k + 1. */
  predicate Moved(s: seq<nat>, r: seq<nat>, k: int, j: nat) {
    -1 <= k < j < |s| && r == s[..k + 1] + [s[j]] + s[k + 1..j] + s[j + 1..]
  }

  lemma MovedAt(s: seq<nat>, r: seq<nat>, k: int, j: nat)
    requires Moved(s, r, k, j)
    ensures -1 <= k < j < |s| == |r| && r[k + 1] == s[j] && r[j + 1..] == s[j + 1..]
    ensures forall x :: 0 <= x <= k ==> r[x] == s[x]
    ensures forall x :: k + 1 < x <= j ==> r[x] == s[x - 1]
    ensures forall x :: j < x < |s| ==> r[x] == s[x]
  {
  }

  /** Filling the hole with the mark taken from j. */
  lemma FillHole(s: seq<nat>, b: seq<nat>, k: int, j: nat)
    requires Shifted(s, b, k, j)
    ensures Moved(s, b[k + 1 := s[j]], k, j)
  {
  }

  lemma InsertRun(d: UnicodeData, s: seq<nat>, r: seq<nat>, start: nat, k: int, j: nat)
    requires MarkRun(d, s, start, j) && start - 1 <= k && Moved(s, r, k, j) && !Starter(d, s[j])
    requires forall x :: k < x < j ==> UnicodeGetCc(d, s[x]) > UnicodeGetCc(d, s[j])
    requires k >= start ==> UnicodeGetCc(d, s[k]) <= UnicodeGetCc(d, s[j])
    ensures MarkRun(d, r, start, j + 1)
  {
    hide UnicodeGetCc, Moved;
    MovedAt(s, r, k, j);
    forall x | start <= x < j + 1 ensures !Starter(d, r[x]) {
      if x > k + 1 { assert r[x] == s[x - 1]; }
    }
    forall x, y | start <= x < y < j + 1 ensures UnicodeGetCc(d, r[x]) <= UnicodeGetCc(d, r[y]) {
      if y <= k {
      } else if x <= k {
        assert UnicodeGetCc(d, s[x]) <= UnicodeGetCc(d, s[k]);
        assert y > k + 1 ==> r[y] == s[y - 1];
      } else {
        assert r[y] == s[y - 1];
        assert x > k + 1 ==> r[x] == s[x - 1];
      }
    }
  }

  lemma InsertReorders(d: UnicodeData, s: seq<nat>, r: seq<nat>, start: nat, k: int, j: nat)
    requires MarkRun(d, s, start, j) && start - 1 <= k && Moved(s, r, k, j) && !Starter(d, s[j])
    requires forall x :: k < x < j ==> UnicodeGetCc(d, s[x]) > UnicodeGetCc(d, s[j])
    ensures Reordered(d, s, r)
  {
    hide Reordered, UnicodeGetCc;
    PassMarks(d, s[..k + 1], s[k + 1..j], s[j], s[j + 1..]);
    assert s == s[..k + 1] + s[k + 1..j] + [s[j]] + s[j + 1..];
  }

  /** Only marks move. */
  lemma StartersStay(d: UnicodeData, was: seq<nat>, s: seq<nat>, r: seq<nat>, start: nat, k: int, j: nat)
    requires Sorting(d, was, s, start, j) && start - 1 <= k && Moved(s, r, k, j) && MarkRun(d, r, start, j + 1) && !Starter(d, s[j])
    ensures |r| == |was| && r[j + 1..] == was[j + 1..] && r[..start] == s[..start]
    ensures forall x :: 0 <= x < |r| ==> Starter(d, was[x]) == Starter(d, r[x]) && (Starter(d, was[x]) ==> r[x] == was[x])
  {
    hide Reordered, Ordered, UnicodeGetCc, Moved, Starter;
    MovedAt(s, r, k, j);
    assert s[j + 1..] == s[j..][1..] && was[j + 1..] == was[j..][1..];
  }

  /** Putting the mark taken from j into the hole moves it before the marks of greater class. */
  lemma InsertDone(d: UnicodeData, was: seq<nat>, s: seq<nat>, r: seq<nat>, start: nat, k: int, j: nat)
    requires Moved(s, r, k, j) && Sorting(d, was, s, start, j) && start <= k + 1 && !Starter(d, s[j])
    requires forall x :: k < x < j ==> UnicodeGetCc(d, s[x]) > UnicodeGetCc(d, s[j])
    requires k >= start ==> UnicodeGetCc(d, s[k]) <= UnicodeGetCc(d, s[j])
    ensures Sorting(d, was, r, start, j + 1)
  {
    hide Reordered, Ordered, UnicodeGetCc, MarkRun, Starter, Moved;
    InsertRun(d, s, r, start, k, j);
    InsertReorders(d, s, r, start, k, j);
    ReorderedTrans(d, was, s, r);
    StartersStay(d, was, s, r, start, k, j);
    MovedAt(s, r, k, j);
  }

  /** sort_cc: stable insertion sort of each run of marks. */
  method SortCc(d: UnicodeData, buf: array<nat>)
    modifies buf
    ensures buf[..] == CanonicalOrder(d, old(buf[..])) && Ordered(d, buf[..])
    ensures forall x :: 0 <= x < buf.Length && Starter(d, old(buf[x])) ==> buf[x] == old(buf[x])
  {
    hide Reordered, Ordered, SortedTo, Sorting;
    ghost var was := buf[..];
    var len := buf.Length;
    var i := 0;
    SortStart(d, was);
    while i < len
      invariant 0 <= i <= len + 1 && SortedTo(d, was, buf[..], if i < len then i else len)
      invariant 0 < i < len ==> Starter(d, buf[i - 1])
    {
      var cc := UnicodeGetCc(d, buf[i]);
      if cc != 0 {
        var start := i;
        RunStart(d, was, buf[..], i);
        i := SortRun(d, buf, was, start);
        RunEnd(d, was, buf[..], start, i);
      } else {
        SortStarter(d, was, buf[..], i);
      }
      i := i + 1;
    }
    SortedAll(d, was, buf[..]);
    OrderIs(d, was, buf[..]);
  }

  lemma SortedAll(d: UnicodeData, was: seq<nat>, s: seq<nat>)
    requires SortedTo(d, was, s, |s|)
    ensures |s| == |was| && Ordered(d, s) && Reordered(d, was, s)
    ensures forall x :: 0 <= x < |s| && Starter(d, was[x]) ==> s[x] == was[x]
  {
    assert s[..|s|] == s;
  }

  /** The inner loops: insert each mark of the run that begins at start; j is where the run ends. */
  method SortRun(d: UnicodeData, buf: array<nat>, ghost was: seq<nat>, start: nat) returns (j: nat)
    requires start < buf.Length && Sorting(d, was, buf[..], start, start + 1)
    modifies buf
    ensures start < j <= buf.Length && Sorting(d, was, buf[..], start, j) && (j < buf.Length ==> Starter(d, buf[j]))
  {
    hide Sorting, Moved;
    var len := buf.Length;
    j := start + 1;
    while j < len
      invariant start < j <= len && Sorting(d, was, buf[..], start, j)
    {
      var ch1 := buf[j];
      var cc1 := UnicodeGetCc(d, ch1);
      if cc1 == 0 { break; }
      var k: int := j - 1;
      ghost var s := buf[..];
      ShiftStart(s, j);
      while k >= start
        invariant start - 1 <= k < j && Shifted(s, buf[..], k, j)
        invariant forall x :: k < x < j ==> UnicodeGetCc(d, s[x]) > cc1
      {
        ghost var b := buf[..];
        ShiftStep(s, b, k, j);
        if UnicodeGetCc(d, buf[k]) <= cc1 { break; }
        buf[k + 1] := buf[k];
        assert buf[..] == b[k + 1 := b[k]];
        k := k - 1;
      }
      ghost var b := buf[..];
      buf[k + 1] := ch1;
      FillHole(s, b, k, j);
      assert buf[..] == b[k + 1 := ch1];
      InsertDone(d, was, s, buf[..], start, k, j);
      j := j + 1;
    }
  }

  // ----- composition -----

  function UnicodeComposePair(d: UnicodeData, c0: nat, c1: nat): nat {
    if (c0, c1) in d.pairs then d.pairs[(c0, c1)] else 0
  }

  /** compose_pair: Hangul by arithmetic, the others by table; 0 when there is no composite. */
  function ComposePair(d: UnicodeData, c0: nat, c1: nat): nat {
    if 0x1100 <= c0 < 0x1100 + 19 && 0x1161 <= c1 < 0x1161 + 21 then 0xac00 + (c0 - 0x1100) * 588 + (c1 - 0x1161) * 28
    else if 0xac00 <= c0 < 0xac00 + 11172 && (c0 - 0xac00) % 28 == 0 && 0x11a7 <= c1 < 0x11a7 + 28 then c0 + c1 - 0x11a7
    else UnicodeComposePair(d, c0, c1)
  }

  /** Composites of starters are starters. */
  ghost predicate StarterComposites(d: UnicodeData) {
    forall c0: nat, c1: nat :: Starter(d, c0) && ComposePair(d, c0, c1) != 0 ==> Starter(d, ComposePair(d, c0, c1))
  }

  /** Index of the last starter, or -1. */
  function LastStarter(d: UnicodeData, s: seq<nat>): (i: int)
    ensures -1 <= i < |s| && (i >= 0 ==> Starter(d, s[i])) && forall k :: i < k < |s| ==> !Starter(d, s[k])
  {
    if s == [] then -1 else if Starter(d, s[|s| - 1]) then |s| - 1 else LastStarter(d, s[..|s| - 1])
  }

  /** Blocking (D115): a character between i and c is a starter or of no smaller class than c. */
  predicate Blocked(d: UnicodeData, s: seq<nat>, i: nat, c: nat) {
    exists k :: i < k < |s| && (Starter(d, s[k]) || UnicodeGetCc(d, s[k]) >= UnicodeGetCc(d, c))
  }

  /** One step of the canonical composition algorithm (D117) on the text composed so far. */
  function ComposeNext(d: UnicodeData, s: seq<nat>, c: nat): seq<nat> {
    var i := LastStarter(d, s);
    if i >= 0 && !Blocked(d, s, i, c) && ComposePair(d, s[i], c) != 0 then s[i := ComposePair(d, s[i], c)] else s + [c]
  }

  function Composed(d: UnicodeData, s: seq<nat>): seq<nat> {
    if s == [] then [] else ComposeNext(d, Composed(d, s[..|s| - 1]), s[|s| - 1])
  }

  /** The text composed so far is ordered, also with respect to the next character. */
  predicate ReadyFor(d: UnicodeData, s: seq<nat>, c: nat) {
    s != [] && Ordered(d, s) && (Starter(d, c) || UnicodeGetCc(d, s[|s| - 1]) <= UnicodeGetCc(d, c))
  }

  /** In an ordered text the last character decides blocking. */
  lemma LastDecides(d: UnicodeData, s: seq<nat>, c: nat, i: nat)
    requires ReadyFor(d, s, c) && i == LastStarter(d, s)
    ensures Blocked(d, s, i, c) <==> i < |s| - 1 && UnicodeGetCc(d, s[|s| - 1]) >= UnicodeGetCc(d, c)
  {
    if k :| i < k < |s| && (Starter(d, s[k]) || UnicodeGetCc(d, s[k]) >= UnicodeGetCc(d, c)) {
      Rising(d, s, k, |s| - 1, i);
    }
  }

  lemma {:induction false} Rising(d: UnicodeData, s: seq<nat>, k: nat, n: nat, i: int)
    requires Ordered(d, s) && -1 <= i < k <= n < |s| && forall x :: i < x < |s| ==> !Starter(d, s[x])
    ensures UnicodeGetCc(d, s[k]) <= UnicodeGetCc(d, s[n])
    decreases n
  {
    if k < n {
      Rising(d, s, k, n - 1, i);
      assert !Starter(d, s[n]);
    }
  }

  /** A composition step keeps the order and prepares for the character after c. */
  lemma StillReady(d: UnicodeData, s: seq<nat>, c: nat)
    requires StarterComposites(d) && ReadyFor(d, s, c)
    ensures forall e: nat :: Starter(d, e) || UnicodeGetCc(d, c) <= UnicodeGetCc(d, e) ==> ReadyFor(d, ComposeNext(d, s, c), e)
  {
    var i := LastStarter(d, s);
    if i >= 0 && !Blocked(d, s, i, c) && ComposePair(d, s[i], c) != 0 {
      var p := ComposePair(d, s[i], c);
      assert Starter(d, p);
      LastDecides(d, s, c, i);
    }
  }

  /** The starter search: walks back over marks; only the first one met can block c. */
  method FindStarter(d: UnicodeData, buf: array<nat>, outLen: nat, c: nat) returns (pos: int)
    requires outLen <= buf.Length && ReadyFor(d, buf[..outLen], c)
    ensures var s := buf[..outLen]; var i := LastStarter(d, s); pos == if i >= 0 && !Blocked(d, s, i, c) then i else -1
  {
    hide Blocked, Ordered;
    ghost var s := buf[..outLen];
    ghost var i := LastStarter(d, s);
    if i >= 0 { LastDecides(d, s, c, i); }
    var lastCc: nat := UnicodeGetCc(d, c);
    pos := outLen - 1;
    while pos >= 0
      invariant i <= pos < outLen && buf[..outLen] == s
      invariant lastCc == if pos == outLen - 1 then UnicodeGetCc(d, c) else 256
      invariant pos < outLen - 1 ==> UnicodeGetCc(d, s[outLen - 1]) < UnicodeGetCc(d, c)
    {
      var cc := UnicodeGetCc(d, buf[pos]);
      if cc == 0 { break; }
      if cc >= lastCc { return -1; }
      lastCc := 256;
      pos := pos - 1;
    }
  }

  /** The composition loop of unicode_normalize: in place, it computes canonical composition. */
  method ComposeLoop(d: UnicodeData, buf: array<nat>) returns (outLen: nat)
    requires buf.Length > 0 && Ordered(d, buf[..]) && StarterComposites(d)
    modifies buf
    ensures outLen <= buf.Length && buf[..outLen] == Composed(d, old(buf[..])) && Ordered(d, buf[..outLen])
  {
    hide Ordered, StarterComposites, Composed, ReadyFor, ComposePair;
    ghost var was := buf[..];
    var bufLen := buf.Length;
    var i := 1;
    outLen := 1;
    ComposeStart(d, was);
    while i < bufLen
      invariant 0 < outLen <= i <= bufLen && buf[i..] == was[i..] && buf[..outLen] == Composed(d, was[..i])
      invariant forall e: nat :: Starter(d, e) || UnicodeGetCc(d, was[i - 1]) <= UnicodeGetCc(d, e) ==> ReadyFor(d, buf[..outLen], e)
    {
      ghost var b, s := buf[..], buf[..outLen];
      assert buf[i] == buf[i..][0] == was[i];
      NextReady(d, was, s, i);
      var starterPos := FindStarter(d, buf, outLen, buf[i]);
      StillReady(d, s, was[i]);
      ComposedStep(d, was, i);
      var p := 0;
      if starterPos >= 0 { p := ComposePair(d, buf[starterPos], buf[i]); }
      if starterPos >= 0 && p != 0 {
        buf[starterPos] := p;
        i := i + 1;
        assert buf[..outLen] == s[starterPos := p];
      } else {
        buf[outLen] := buf[i];
        outLen := outLen + 1;
        i := i + 1;
        assert buf[..outLen] == s + [was[i - 1]];
      }
      assert buf[i..] == b[i - 1..][1..] && was[i..] == was[i - 1..][1..];
    }
    assert was[..i] == was;
    ReadyOrdered(d, buf[..outLen]);
  }

  lemma ComposeStart(d: UnicodeData, s: seq<nat>)
    requires s != [] && Ordered(d, s)
    ensures s[..1] == Composed(d, s[..1])
    ensures forall e: nat :: Starter(d, e) || UnicodeGetCc(d, s[0]) <= UnicodeGetCc(d, e) ==> ReadyFor(d, s[..1], e)
  {
    assert s[..1][..0] == [] && s[..1] == [s[0]];
    assert Composed(d, s[..1][..0]) == [];
  }

  lemma NextReady(d: UnicodeData, was: seq<nat>, s: seq<nat>, i: nat)
    requires 0 < i < |was| && Ordered(d, was)
    requires forall e: nat :: Starter(d, e) || UnicodeGetCc(d, was[i - 1]) <= UnicodeGetCc(d, e) ==> ReadyFor(d, s, e)
    ensures ReadyFor(d, s, was[i])
  {
    hide ReadyFor;
    assert Starter(d, was[i]) || UnicodeGetCc(d, was[i - 1]) <= UnicodeGetCc(d, was[i]);
  }

  lemma ComposedStep(d: UnicodeData, s: seq<nat>, i: nat)
    requires i < |s|
    ensures Composed(d, s[..i + 1]) == ComposeNext(d, Composed(d, s[..i]), s[i])
  {
    assert s[..i + 1][..i] == s[..i];
  }

  lemma ReadyOrdered(d: UnicodeData, s: seq<nat>)
    requires exists e: nat :: ReadyFor(d, s, e)
    ensures Ordered(d, s)
  {
  }

  // ----- decomposition -----

  predicate Syllable(c: nat) { 0xac00 <= c < 0xd7a4 }

  /** Hangul decomposition: two or three jamo. */
  function Jamos(c: nat): seq<nat>
    requires Syllable(c)
  {
    var n := c - 0xac00;
    [0x1100 + n / 588, 0x1161 + (n % 588) / 28] + (if n % 28 != 0 then [0x11a7 + n % 28] else [])
  }

  predicate Jamo(c: nat) { 0x1100 <= c < 0x1113 || 0x1161 <= c < 0x1176 || 0x11a8 <= c < 0x11c3 }

  /** Empty when c has no decomposition of the kind. */
  function DecompChar(d: UnicodeData, c: nat, compat: bool): seq<nat> {
    if (c, compat) in d.decompositions then d.decompositions[(c, compat)] else []
  }

  function Rank(d: UnicodeData, c: nat): nat { if c in d.rank then d.rank[c] else 0 }

  /** Decompositions do not go in circles, and jamo have none. */
  ghost predicate WellFounded(d: UnicodeData) {
    && (forall c: nat, compat: bool, i: nat :: i < |DecompChar(d, c, compat)| ==> Rank(d, DecompChar(d, c, compat)[i]) < Rank(d, c))
    && forall c: nat, compat: bool :: Jamo(c) ==> DecompChar(d, c, compat) == []
  }

  function Depth(d: UnicodeData, s: seq<nat>): nat {
    if s == [] then 0
    else if Rank(d, s[|s| - 1]) + 1 > Depth(d, s[..|s| - 1]) then Rank(d, s[|s| - 1]) + 1
    else Depth(d, s[..|s| - 1])
  }

  lemma {:induction false} DepthBound(d: UnicodeData, s: seq<nat>, n: nat)
    requires forall i :: 0 <= i < |s| ==> Rank(d, s[i]) < n
    ensures Depth(d, s) <= n
  {
    if s != [] { DepthBound(d, s[..|s| - 1], n); }
  }

  lemma {:induction false} DepthAbove(d: UnicodeData, s: seq<nat>, i: nat)
    requires i < |s|
    ensures Rank(d, s[i]) < Depth(d, s)
  {
    if i < |s| - 1 { DepthAbove(d, s[..|s| - 1], i); }
  }

  /** Full decomposition of a text. */
  ghost function Decomposed(d: UnicodeData, s: seq<nat>, compat: bool): seq<nat>
    requires WellFounded(d)
    decreases Depth(d, s), |s|
  {
    if s == [] then []
    else
      var c := s[|s| - 1];
      var l := DecompChar(d, c, compat);
      DepthBound(d, l, Rank(d, c));
      Decomposed(d, s[..|s| - 1], compat) + (if Syllable(c) then Jamos(c) else if l == [] then [c] else Decomposed(d, l, compat))
  }

  /** to_nfd_rec: appends the full decomposition of src. */
  method ToNfdRec(d: UnicodeData, dbuf: seq<nat>, src: seq<nat>, compat: bool) returns (r: seq<nat>)
    requires WellFounded(d)
    ensures r == dbuf + Decomposed(d, src, compat)
    decreases Depth(d, src)
  {
    hide WellFounded, Decomposed;
    r := dbuf;
    NothingDecomposed(d, compat);
    for i := 0 to |src|
      invariant r == dbuf + Decomposed(d, src[..i], compat)
    {
      var c := src[i];
      OneMore(d, src, i, compat);
      if Syllable(c) {
        var n := c - 0xac00;
        r := r + [0x1100 + n / 588];
        r := r + [0x1161 + (n % 588) / 28];
        var v := n % 28;
        if v != 0 { r := r + [0x11a7 + v]; }
        JamosAre(c);
      } else {
        var l := DecompChar(d, c, compat);
        if l != [] {
          Shallower(d, c, compat);
          DepthAbove(d, src, i);
          r := ToNfdRec(d, r, l, compat);
        } else {
          r := r + [c];
        }
      }
    }
    assert src[..|src|] == src;
  }

  lemma JamosAre(c: nat)
    requires Syllable(c)
    ensures var n := c - 0xac00; Jamos(c) == [0x1100 + n / 588] + [0x1161 + (n % 588) / 28] + (if n % 28 != 0 then [0x11a7 + n % 28] else [])
  {
  }

  lemma NothingDecomposed(d: UnicodeData, compat: bool)
    requires WellFounded(d)
    ensures forall s: seq<nat> :: s == [] ==> Decomposed(d, s, compat) == []
  {
  }

  lemma Shallower(d: UnicodeData, c: nat, compat: bool)
    requires WellFounded(d)
    ensures Depth(d, DecompChar(d, c, compat)) <= Rank(d, c)
  {
    DepthBound(d, DecompChar(d, c, compat), Rank(d, c));
  }

  ghost function DecomposedChar(d: UnicodeData, c: nat, compat: bool): seq<nat>
    requires WellFounded(d)
  {
    if Syllable(c) then Jamos(c) else if DecompChar(d, c, compat) == [] then [c] else Decomposed(d, DecompChar(d, c, compat), compat)
  }

  lemma OneMore(d: UnicodeData, s: seq<nat>, i: nat, compat: bool)
    requires WellFounded(d) && i < |s|
    ensures Decomposed(d, s[..i + 1], compat) == Decomposed(d, s[..i], compat) + DecomposedChar(d, s[i], compat)
  {
    hide WellFounded;
    assert s[..i + 1][..i] == s[..i];
  }

  lemma {:induction false} DecomposedConcat(d: UnicodeData, a: seq<nat>, b: seq<nat>, compat: bool)
    requires WellFounded(d)
    ensures Decomposed(d, a + b, compat) == Decomposed(d, a, compat) + Decomposed(d, b, compat)
    decreases |b|
  {
    hide WellFounded, Decomposed;
    if b == [] {
      NothingDecomposed(d, compat);
      assert a + b == a;
    } else {
      var n, c := |b| - 1, b[|b| - 1];
      DecomposedConcat(d, a, b[..n], compat);
      OneMore(d, b, n, compat);
      OneMore(d, a + b, |a| + n, compat);
      assert (a + b)[..|a| + n] == a + b[..n] && b[..n + 1] == b && (a + b)[..|a| + n + 1] == a + b;
    }
  }

  lemma DecomposedOne(d: UnicodeData, c: nat, compat: bool)
    requires WellFounded(d)
    ensures Decomposed(d, [c], compat) == DecomposedChar(d, c, compat)
  {
    hide WellFounded, Decomposed;
    OneMore(d, [c], 0, compat);
    NothingDecomposed(d, compat);
    assert [c][..1] == [c];
  }

  // ----- fully decomposed texts -----

  predicate Atomic(d: UnicodeData, c: nat, compat: bool) { !Syllable(c) && DecompChar(d, c, compat) == [] }

  predicate AllAtomic(d: UnicodeData, s: seq<nat>, compat: bool) { forall i :: 0 <= i < |s| ==> Atomic(d, s[i], compat) }

  lemma {:induction false} DecomposedAtomic(d: UnicodeData, s: seq<nat>, compat: bool)
    requires WellFounded(d)
    ensures AllAtomic(d, Decomposed(d, s, compat), compat)
    decreases Depth(d, s), |s|
  {
    hide WellFounded;
    if s != [] {
      var c := s[|s| - 1];
      DecomposedAtomic(d, s[..|s| - 1], compat);
      if Syllable(c) {
        JamosAtomic(d, c, compat);
      } else if DecompChar(d, c, compat) != [] {
        Shallower(d, c, compat);
        DecomposedAtomic(d, DecompChar(d, c, compat), compat);
      }
    }
  }

  lemma JamosAtomic(d: UnicodeData, c: nat, compat: bool)
    requires WellFounded(d) && Syllable(c)
    ensures AllAtomic(d, Jamos(c), compat)
  {
  }

  lemma {:induction false} AtomicUnchanged(d: UnicodeData, s: seq<nat>, compat: bool)
    requires WellFounded(d) && AllAtomic(d, s, compat)
    ensures Decomposed(d, s, compat) == s
  {
    hide WellFounded, Decomposed;
    if s == [] {
      NothingDecomposed(d, compat);
    } else {
      var n := |s| - 1;
      AtomicUnchanged(d, s[..n], compat);
      OneMore(d, s, n, compat);
      assert s[..n + 1] == s && s == s[..n] + [s[n]];
    }
  }

  /** Reordering neither adds nor removes characters. */
  lemma ReorderedMember(d: UnicodeData, a: seq<nat>, b: seq<nat>, c: nat)
    requires Reordered(d, a, b) && c in b
    ensures c in a
  {
    hide Keep;
    var k := UnicodeGetCc(d, c);
    assert Keep(d, a, k) == Keep(d, b, k);
    KeepMember(d, a, k, c);
    KeepMember(d, b, k, c);
  }

  lemma {:induction false} KeepMember(d: UnicodeData, s: seq<nat>, k: Class, c: nat)
    requires k == UnicodeGetCc(d, c)
    ensures c in Keep(d, s, k) <==> c in s
  {
    if s != [] {
      KeepMember(d, s[..|s| - 1], k, c);
      assert s == s[..|s| - 1] + [s[|s| - 1]];
    }
  }

  lemma OrderAtomic(d: UnicodeData, s: seq<nat>, compat: bool)
    requires AllAtomic(d, s, compat)
    ensures AllAtomic(d, CanonicalOrder(d, s), compat)
  {
    hide Atomic, Reordered, Ordered;
    CanonicalOrderIs(d, s);
    var r := CanonicalOrder(d, s);
    forall i | 0 <= i < |r| ensures Atomic(d, r[i], compat) { ReorderedMember(d, s, r, r[i]); }
  }

  // ----- the normal forms -----

  /** Normal forms C, D, KC and KD are numbered 0 to 3. */
  type Form = n: nat | n < 4

  ghost function Marked(d: UnicodeData, s: seq<nat>, compat: bool): seq<nat>
    requires WellFounded(d)
  {
    CanonicalOrder(d, Decomposed(d, s, compat))
  }

  ghost function NormalForm(d: UnicodeData, s: seq<nat>, form: Form): seq<nat>
    requires WellFounded(d)
  {
    if form % 2 != 0 then Marked(d, s, form / 2 == 1) else Composed(d, Marked(d, s, form / 2 == 1))
  }

  predicate Latin1(s: seq<nat>) { forall i :: 0 <= i < |s| ==> s[i] < 0x100 }

  /** A Latin-1 character is a starter that stays itself or splits into a Latin-1 starter and a mark that
    * compose to it, and Latin-1 characters do not compose with each other. */
  ghost predicate Latin1Stable(d: UnicodeData) {
    && (forall c: nat :: c < 0x100 ==> Starter(d, c))
    && (forall a: nat, b: nat :: a < 0x100 && b < 0x100 ==> UnicodeComposePair(d, a, b) == 0)
    && (forall c: nat :: c < 0x100 ==> Splits(d, c, DecompChar(d, c, false)))
  }

  predicate Splits(d: UnicodeData, c: nat, l: seq<nat>) {
    l == []
    || (|l| == 2 && l[0] < 0x100 && DecompChar(d, l[0], false) == [] && DecompChar(d, l[1], false) == []
        && !Syllable(l[1]) && !Starter(d, l[1]) && UnicodeComposePair(d, l[0], l[1]) == c && !(0x1161 <= l[1] < 0x1176) && c != 0)
  }

  lemma Latin1Char(d: UnicodeData, c: nat)
    requires WellFounded(d) && Latin1Stable(d) && c < 0x100
    ensures (var l := DecomposedChar(d, c, false);
      l == [c] || (|l| == 2 && l[0] < 0x100 && !Starter(d, l[1]) && ComposePair(d, l[0], l[1]) == c && c != 0))
  {
    hide WellFounded, Decomposed;
    var l := DecompChar(d, c, false);
    assert Splits(d, c, l);
    if l != [] { AtomicUnchanged(d, l, false); }
  }

  /** Ordering and composing the decomposition of a Latin-1 text gives it back. */
  lemma {:induction false} Latin1Unaffected(d: UnicodeData, s: seq<nat>)
    requires WellFounded(d) && Latin1Stable(d) && Latin1(s)
    ensures Ordered(d, Decomposed(d, s, false)) && Composed(d, Decomposed(d, s, false)) == s
  {
    hide WellFounded, Decomposed, Latin1Stable, Composed;
    if s == [] {
      NothingDecomposed(d, false);
      NothingComposed(d);
    } else {
      var n := |s| - 1;
      var t, c := s[..n], s[n];
      Latin1Unaffected(d, t);
      OneMore(d, s, n, false);
      assert s[..n + 1] == s && s == t + [c];
      Latin1Char(d, c);
      Latin1Starts(d, s);
      var a, l := Decomposed(d, t, false), DecomposedChar(d, c, false);
      OneStarter(d, a, l);
      ComposedMore(d, a, l[0]);
      StarterAppended(d, t, l[0]);
      if |l| == 2 {
        ComposedMore(d, a + [l[0]], l[1]);
        assert a + [l[0]] + [l[1]] == a + l;
        MarkComposed(d, t, l[0], l[1]);
      } else {
        assert a + [l[0]] == a + l;
      }
    }
  }

  lemma NothingComposed(d: UnicodeData)
    ensures Composed(d, []) == []
  {
  }

  lemma Latin1Starts(d: UnicodeData, s: seq<nat>)
    requires Latin1Stable(d)
    ensures forall c: nat :: c < 0x100 ==> Starter(d, c)
    ensures forall a: nat, b: nat :: a < 0x100 && b < 0x100 ==> ComposePair(d, a, b) == 0
  {
  }

  lemma OneStarter(d: UnicodeData, a: seq<nat>, l: seq<nat>)
    requires Ordered(d, a) && 1 <= |l| <= 2 && Starter(d, l[0])
    ensures Ordered(d, a + l)
  {
  }

  lemma ComposedMore(d: UnicodeData, s: seq<nat>, c: nat)
    ensures Composed(d, s + [c]) == ComposeNext(d, Composed(d, s), c)
  {
    assert (s + [c])[..|s|] == s;
  }

  lemma StarterAppended(d: UnicodeData, t: seq<nat>, c: nat)
    requires Latin1(t) && c < 0x100 && forall a: nat, b: nat :: a < 0x100 && b < 0x100 ==> ComposePair(d, a, b) == 0
    ensures ComposeNext(d, t, c) == t + [c]
  {
    hide ComposePair;
    var i := LastStarter(d, t);
    if i >= 0 { assert ComposePair(d, t[i], c) == 0; }
  }

  lemma MarkComposed(d: UnicodeData, t: seq<nat>, a: nat, m: nat)
    requires Starter(d, a) && ComposePair(d, a, m) != 0
    ensures ComposeNext(d, t + [a], m) == t + [ComposePair(d, a, m)]
  {
    hide ComposePair;
    var s := t + [a];
    assert LastStarter(d, s) == |t|;
    assert s[|t| := ComposePair(d, a, m)] == t + [ComposePair(d, a, m)];
  }

  /** The loop that looks for a character beyond Latin-1. */
  method IsLatin1(src: seq<nat>) returns (r: bool)
    ensures r <==> Latin1(src)
  {
    for i := 0 to |src|
      invariant Latin1(src[..i])
    {
      if src[i] >= 0x100 { return false; }
    }
    assert src[..|src|] == src;
    r := true;
  }

  /** unicode_normalize: Latin-1 text is its own form C; other text is decomposed, ordered and, for the
    * composed forms, composed in place. */
  method UnicodeNormalize(d: UnicodeData, src: seq<nat>, form: Form) returns (dst: seq<nat>)
    requires WellFounded(d) && StarterComposites(d) && Latin1Stable(d)
    ensures dst == NormalForm(d, src, form) && Ordered(d, dst)
  {
    hide *;
    var isCompat := form / 2 == 1;
    if form == 0 {
      var latin1 := IsLatin1(src);
      if latin1 {
        Latin1Form(d, src);
        return src;
      }
    }
    var text := ToNfdRec(d, [], src, isCompat);
    FormSteps(d, src, form, text);
    var buf := new nat[|text|](i requires 0 <= i < |text| => text[i]);
    assert buf[..] == text;
    SortCc(d, buf);
    if |text| <= 1 || form % 2 != 0 { return buf[..]; }
    var outLen := ComposeLoop(d, buf);
    dst := buf[..outLen];
  }

  lemma Latin1Form(d: UnicodeData, s: seq<nat>)
    requires WellFounded(d) && Latin1Stable(d) && Latin1(s)
    ensures NormalForm(d, s, 0) == s && Ordered(d, s)
  {
    hide WellFounded, Decomposed, Composed, CanonicalOrder;
    Latin1Unaffected(d, s);
    OrderedFixed(d, Decomposed(d, s, false));
  }

  lemma FormSteps(d: UnicodeData, src: seq<nat>, form: Form, text: seq<nat>)
    requires WellFounded(d) && text == [] + Decomposed(d, src, form / 2 == 1)
    ensures NormalForm(d, src, form) == if form % 2 != 0 || |text| <= 1 then CanonicalOrder(d, text) else Composed(d, CanonicalOrder(d, text))
  {
    hide WellFounded, Decomposed, Composed, CanonicalOrder;
    assert text == Decomposed(d, src, form / 2 == 1);
    CanonicalOrderIs(d, text);
    if |text| <= 1 { ShortComposed(d, CanonicalOrder(d, text)); }
  }

  lemma OrderedFixed(d: UnicodeData, s: seq<nat>)
    requires Ordered(d, s)
    ensures CanonicalOrder(d, s) == s
  {
    ReorderedSame(d, s);
    OrderIs(d, s, s);
  }

  lemma ShortComposed(d: UnicodeData, s: seq<nat>)
    requires |s| <= 1
    ensures Composed(d, s) == s
  {
    if |s| == 1 { assert Composed(d, s[..0]) == [] && s == [s[0]]; }
  }

  // ----- what normalization promises -----

  /** Forms D and KD are idempotent. */
  lemma DecomposedFormIdempotent(d: UnicodeData, s: seq<nat>, form: Form)
    requires WellFounded(d) && form % 2 == 1
    ensures NormalForm(d, NormalForm(d, s, form), form) == NormalForm(d, s, form)
  {
    hide WellFounded, Decomposed, CanonicalOrder, Ordered;
    var compat := form / 2 == 1;
    var t := Decomposed(d, s, compat);
    DecomposedAtomic(d, s, compat);
    OrderAtomic(d, t, compat);
    AtomicUnchanged(d, CanonicalOrder(d, t), compat);
    CanonicalOrderIs(d, t);
    OrderedFixed(d, CanonicalOrder(d, t));
  }

  /** Texts whose decompositions differ by canonical reordering have the same normal forms. */
  lemma EquivalentSameForm(d: UnicodeData, a: seq<nat>, b: seq<nat>, form: Form)
    requires WellFounded(d) && Reordered(d, Decomposed(d, a, form / 2 == 1), Decomposed(d, b, form / 2 == 1))
    ensures NormalForm(d, a, form) == NormalForm(d, b, form)
  {
    hide WellFounded, Decomposed, Reordered;
    SameOrder(d, Decomposed(d, a, form / 2 == 1), Decomposed(d, b, form / 2 == 1));
  }

  // ----- Hangul, and what composition may lose -----

  predicate IsLv(c: nat) { Syllable(c) && (c - 0xac00) % 28 == 0 }

  /** Composing the jamo of a syllable gives the syllable back. */
  lemma JamosCompose(d: UnicodeData, c: nat)
    requires Syllable(c)
    ensures (var j := Jamos(c); var lv := ComposePair(d, j[0], j[1]);
      if |j| == 2 then lv == c else IsLv(lv) && ComposePair(d, lv, j[2]) == c)
  {
    var n := c - 0xac00;
    assert n == n / 588 * 588 + n % 588 && n % 588 == (n % 588) / 28 * 28 + n % 588 % 28;
    assert n % 588 % 28 == n % 28;
  }

  /** Hangul composition as section 3.12 of the Unicode Standard states it: trailing consonants begin
    * after U+11A7. */
  function StandardPair(d: UnicodeData, c0: nat, c1: nat): nat {
    if 0x1100 <= c0 < 0x1113 && 0x1161 <= c1 < 0x1176 then 0xac00 + ((c0 - 0x1100) * 21 + (c1 - 0x1161)) * 28
    else if IsLv(c0) && 0x11a7 < c1 < 0x11c3 then c0 + (c1 - 0x11a7)
    else UnicodeComposePair(d, c0, c1)
  }

  /** compose_pair departs from the standard exactly where it swallows U+11A7 after a syllable LV. */
  lemma PairDeparts(d: UnicodeData, c0: nat, c1: nat)
    requires IsLv(c0) ==> UnicodeComposePair(d, c0, 0x11a7) == 0
    ensures ComposePair(d, c0, c1) == StandardPair(d, c0, c1) <==> !(IsLv(c0) && c1 == 0x11a7)
    ensures IsLv(c0) && c1 == 0x11a7 ==> ComposePair(d, c0, c1) == c0
  {
  }

  /** Composites of the table decompose to their pairs. */
  ghost predicate PairsDecompose(d: UnicodeData, compat: bool) {
    forall a: nat, b: nat :: UnicodeComposePair(d, a, b) != 0 ==> var p := UnicodeComposePair(d, a, b);
      !Syllable(p) && DecompChar(d, p, compat) == [a, b]
  }

  /** The step on c composes with the last starter. */
  predicate Composes(d: UnicodeData, s: seq<nat>, c: nat) {
    var i := LastStarter(d, s); i >= 0 && !Blocked(d, s, i, c) && ComposePair(d, s[i], c) != 0
  }

  /** The step on c takes the branch that drops U+11A7. */
  predicate Drops(d: UnicodeData, s: seq<nat>, c: nat) {
    Composes(d, s, c) && c == 0x11a7 && IsLv(s[LastStarter(d, s)])
  }

  function DropCount(d: UnicodeData, s: seq<nat>): nat {
    if s == [] then 0
    else DropCount(d, s[..|s| - 1]) + (if Drops(d, Composed(d, s[..|s| - 1]), s[|s| - 1]) then 1 else 0)
  }

  /** A composite decomposes to the decompositions of its parts, unless U+11A7 was swallowed. */
  lemma CompositeParts(d: UnicodeData, a: nat, b: nat, compat: bool)
    requires WellFounded(d) && PairsDecompose(d, compat) && ComposePair(d, a, b) != 0 && Atomic(d, b, compat)
    ensures Decomposed(d, [ComposePair(d, a, b)], compat)
      == Decomposed(d, [a], compat) + (if IsLv(a) && b == 0x11a7 then [] else [b])
  {
    hide WellFounded, Decomposed;
    var p := ComposePair(d, a, b);
    DecomposedOne(d, p, compat);
    DecomposedOne(d, a, compat);
    DecomposedOne(d, b, compat);
    if 0x1100 <= a < 0x1113 && 0x1161 <= b < 0x1176 {
      LvParts(a, b);
      LeadAtomic(d, a, compat);
    } else if IsLv(a) && 0x11a7 <= b < 0x11c3 {
      LvtParts(a, b);
    } else {
      assert p == UnicodeComposePair(d, a, b);
      DecomposedConcat(d, [a], [b], compat);
      assert [a, b] == [a] + [b];
    }
  }

  lemma LeadAtomic(d: UnicodeData, c: nat, compat: bool)
    requires WellFounded(d) && 0x1100 <= c < 0x1113
    ensures DecomposedChar(d, c, compat) == [c]
  {
  }

  lemma LvParts(a: nat, b: nat)
    requires 0x1100 <= a < 0x1113 && 0x1161 <= b < 0x1176
    ensures var p := 0xac00 + (a - 0x1100) * 588 + (b - 0x1161) * 28; Syllable(p) && Jamos(p) == [a, b]
  {
    var n := (a - 0x1100) * 588 + (b - 0x1161) * 28;
    assert n / 588 == a - 0x1100 && n % 588 == (b - 0x1161) * 28;
    assert n % 28 == 0;
  }

  lemma LvtParts(a: nat, b: nat)
    requires IsLv(a) && 0x11a7 <= b < 0x11c3
    ensures Syllable(a + b - 0x11a7) && Jamos(a + b - 0x11a7) == Jamos(a) + (if b == 0x11a7 then [] else [b])
  {
    var n, t := a - 0xac00, b - 0x11a7;
    var q := n / 28;
    assert n == q * 28 && (n + t) / 28 == q && (n + t) % 28 == t;
    assert n / 588 == q / 21 && (n + t) / 588 == q / 21;
    assert n % 588 / 28 == q % 21 && (n + t) % 588 / 28 == q % 21;
  }

  predicate MarksAtomic(d: UnicodeData, s: seq<nat>, compat: bool) {
    forall i :: 0 <= i < |s| && !Starter(d, s[i]) ==> Atomic(d, s[i], compat)
  }

  /** Replacing the starter at i: its decomposition and that of c stand around the marks after it. */
  lemma ReplaceStarter(d: UnicodeData, s: seq<nat>, i: nat, p: nat, c: nat, kept: seq<nat>, compat: bool)
    requires WellFounded(d) && i < |s| && MarksAtomic(d, s, compat) && !Blocked(d, s, i, c)
    requires Decomposed(d, [p], compat) == Decomposed(d, [s[i]], compat) + kept && kept in [[], [c]]
    ensures |Decomposed(d, s[i := p], compat)| == |Decomposed(d, s, compat)| + |kept|
    ensures Reordered(d, Decomposed(d, s, compat) + kept, Decomposed(d, s[i := p], compat))
  {
    hide WellFounded, Decomposed, Reordered, Atomic;
    var a, m := s[..i], s[i + 1..];
    forall k | 0 <= k < |m| ensures !Starter(d, m[k]) && UnicodeGetCc(d, m[k]) < UnicodeGetCc(d, c) {
      assert m[k] == s[i + 1 + k];
    }
    AtomicUnchanged(d, m, compat);
    ThreeParts(d, a, [s[i]], m, compat);
    ThreeParts(d, a, [p], m, compat);
    assert s == a + [s[i]] + m && s[i := p] == a + [p] + m;
    var left := Decomposed(d, a, compat) + Decomposed(d, [s[i]], compat);
    if kept == [] || m == [] {
      assert left + m + kept == Decomposed(d, s[i := p], compat);
      ReorderedSame(d, left + m + kept);
    } else {
      assert UnicodeGetCc(d, m[0]) < UnicodeGetCc(d, c);
      PassMarks(d, left, m, c, []);
      assert left + m + kept == left + m + [c] + [];
      assert Decomposed(d, s[i := p], compat) == left + [c] + m + [];
    }
  }

  lemma ThreeParts(d: UnicodeData, a: seq<nat>, b: seq<nat>, c: seq<nat>, compat: bool)
    requires WellFounded(d)
    ensures Decomposed(d, a + b + c, compat) == Decomposed(d, a, compat) + Decomposed(d, b, compat) + Decomposed(d, c, compat)
  {
    hide WellFounded, Decomposed;
    DecomposedConcat(d, a + b, c, compat);
    DecomposedConcat(d, a, b, compat);
  }

  /** One composition step loses U+11A7 or nothing. */
  lemma StepLoses(d: UnicodeData, s: seq<nat>, c: nat, compat: bool)
    requires WellFounded(d) && PairsDecompose(d, compat) && StarterComposites(d) && MarksAtomic(d, s, compat) && Atomic(d, c, compat)
    ensures var r := ComposeNext(d, s, c);
      MarksAtomic(d, r, compat) && |Decomposed(d, r, compat)| + (if Drops(d, s, c) then 1 else 0) == |Decomposed(d, s, compat)| + 1
    ensures !Drops(d, s, c) ==> Reordered(d, Decomposed(d, s, compat) + [c], Decomposed(d, ComposeNext(d, s, c), compat))
  {
    hide WellFounded, PairsDecompose, Decomposed, Reordered, Atomic, ComposePair, Blocked;
    if Composes(d, s, c) {
      var i := LastStarter(d, s);
      var p := ComposePair(d, s[i], c);
      assert Starter(d, p);
      CompositeParts(d, s[i], c, compat);
      ReplaceStarter(d, s, i, p, c, if IsLv(s[i]) && c == 0x11a7 then [] else [c], compat);
    } else {
      DecomposedConcat(d, s, [c], compat);
      AtomicUnchanged(d, [c], compat);
      ReorderedSame(d, Decomposed(d, s, compat) + [c]);
    }
  }

  /** Composing a decomposed text keeps it up to canonical reordering when nothing is dropped, and is
    * shorter by one character for every drop. */
  lemma {:induction false} ComposedLoses(d: UnicodeData, s: seq<nat>, compat: bool)
    requires WellFounded(d) && PairsDecompose(d, compat) && StarterComposites(d) && AllAtomic(d, s, compat)
    ensures MarksAtomic(d, Composed(d, s), compat) && |Decomposed(d, Composed(d, s), compat)| + DropCount(d, s) == |s|
    ensures DropCount(d, s) == 0 ==> Reordered(d, s, Decomposed(d, Composed(d, s), compat))
  {
    hide WellFounded, PairsDecompose, StarterComposites, Decomposed, Reordered, Atomic, Drops, ComposeNext, MarksAtomic;
    if s == [] {
      NoText(d, compat);
    } else {
      var n := |s| - 1;
      var t, c := Composed(d, s[..n]), s[n];
      ComposedLoses(d, s[..n], compat);
      StepLoses(d, t, c, compat);
      assert s == s[..n] + [c];
      if DropCount(d, s) == 0 {
        ReorderedSame(d, [c]);
        ReorderedConcat(d, s[..n], Decomposed(d, t, compat), [c], [c]);
        ReorderedTrans(d, s, Decomposed(d, t, compat) + [c], Decomposed(d, Composed(d, s), compat));
      }
    }
  }

  lemma NoText(d: UnicodeData, compat: bool)
    requires WellFounded(d)
    ensures Composed(d, []) == [] && DropCount(d, []) == 0 && MarksAtomic(d, [], compat)
    ensures Decomposed(d, [], compat) == [] && Reordered(d, [], [])
  {
  }

  // ----- where U+11A7 is dropped, and idempotence -----

  predicate LJamo(c: nat) { 0x1100 <= c < 0x1113 }

  predicate VJamo(c: nat) { 0x1161 <= c < 0x1176 }

  predicate JamoStarters(d: UnicodeData) {
    forall c :: 0x1100 <= c < 0x1176 && (LJamo(c) || VJamo(c)) ==> Starter(d, c)
  }

  predicate EndsInLv(s: seq<nat>) { s != [] && IsLv(s[|s| - 1]) }

  predicate EndsInL(s: seq<nat>) { s != [] && LJamo(s[|s| - 1]) }

  predicate EndsInPair(s: seq<nat>) { |s| >= 2 && LJamo(s[|s| - 2]) && VJamo(s[|s| - 1]) }

  /** The end of a composed text: a step either appends, or composes at the end, or leaves a mark there. */
  lemma StepEnd(d: UnicodeData, s: seq<nat>, c: nat, compat: bool)
    requires MarksAtomic(d, s, compat) && JamoStarters(d)
    ensures var r := ComposeNext(d, s, c); r != [] && var last := r[|r| - 1];
      || last == c
      || (!Starter(d, last) && Atomic(d, last, compat))
      || (s != [] && last == ComposePair(d, s[|s| - 1], c) && last != 0 && Starter(d, s[|s| - 1]) && Composes(d, s, c))
  {
    hide Atomic, ComposePair, Blocked;
  }

  /** Parts of a composite that is a leading jamo or a syllable LV. */
  lemma LvFrom(d: UnicodeData, a: nat, b: nat, compat: bool)
    requires WellFounded(d) && PairsDecompose(d, compat) && ComposePair(d, a, b) != 0
    ensures !LJamo(ComposePair(d, a, b))
    ensures IsLv(ComposePair(d, a, b)) ==> (LJamo(a) && VJamo(b)) || (IsLv(a) && b == 0x11a7)
  {
    var p := ComposePair(d, a, b);
    if LJamo(a) && VJamo(b) {
      LvParts(a, b);
    } else if IsLv(a) && 0x11a7 <= b < 0x11c3 {
      assert IsLv(p) ==> (p - 0xac00) % 28 == 0;
    } else {
      assert p == UnicodeComposePair(d, a, b) && DecompChar(d, p, compat) == [a, b];
      assert !Jamo(p);
    }
  }

  /** Composed texts end in a leading jamo, or without drops in a syllable LV, only when the text does in jamo. */
  lemma {:induction false} ComposedEnd(d: UnicodeData, s: seq<nat>, compat: bool)
    requires WellFounded(d) && PairsDecompose(d, compat) && StarterComposites(d) && JamoStarters(d) && AllAtomic(d, s, compat)
    ensures EndsInL(Composed(d, s)) ==> EndsInL(s)
    ensures DropCount(d, s) == 0 && EndsInLv(Composed(d, s)) ==> EndsInPair(s)
  {
    hide WellFounded, PairsDecompose, StarterComposites, Decomposed, Atomic, Drops, ComposeNext, ComposePair;
    if s != [] {
      var n := |s| - 1;
      var t, c := Composed(d, s[..n]), s[n];
      ComposedEnd(d, s[..n], compat);
      ComposedLoses(d, s[..n], compat);
      StepEnd(d, t, c, compat);
      AtomicPlain(d, c, compat);
      var r := ComposeNext(d, t, c);
      var last := r[|r| - 1];
      if last != c {
        if !Starter(d, last) && Atomic(d, last, compat) {
          AtomicPlain(d, last, compat);
        } else {
          LvFrom(d, t[|t| - 1], c, compat);
          DropsHere(d, t, c);
        }
      }
    }
  }

  lemma AtomicPlain(d: UnicodeData, c: nat, compat: bool)
    requires Atomic(d, c, compat)
    ensures !IsLv(c) && !Syllable(c)
  {
  }

  lemma DropsHere(d: UnicodeData, s: seq<nat>, c: nat)
    ensures s != [] && Composes(d, s, c) && Starter(d, s[|s| - 1]) && IsLv(s[|s| - 1]) && c == 0x11a7 ==> Drops(d, s, c)
  {
    hide ComposePair, Blocked, IsLv;
  }

  /** The text without the characters that composing it drops. */
  function Undropped(d: UnicodeData, s: seq<nat>): seq<nat> {
    if s == [] then []
    else Undropped(d, s[..|s| - 1]) + (if Drops(d, Composed(d, s[..|s| - 1]), s[|s| - 1]) then [] else [s[|s| - 1]])
  }

  lemma DropUnchanged(d: UnicodeData, s: seq<nat>, c: nat)
    requires Drops(d, s, c)
    ensures ComposeNext(d, s, c) == s && s != []
    ensures Starter(d, c) ==> EndsInLv(s)
  {
    var i := LastStarter(d, s);
    assert ComposePair(d, s[i], c) == s[i];
    assert s[i := s[i]] == s;
  }

  /** u composes like s, with nothing dropped, is atomic and ordered, and ends in no greater class. */
  predicate ComposesLike(d: UnicodeData, s: seq<nat>, u: seq<nat>, compat: bool) {
    && Composed(d, u) == Composed(d, s) && DropCount(d, u) == 0 && AllAtomic(d, u, compat) && Ordered(d, u)
    && (s == [] <==> u == []) && (s != [] ==> UnicodeGetCc(d, u[|u| - 1]) <= UnicodeGetCc(d, s[|s| - 1]))
  }

  lemma LikeDropped(d: UnicodeData, s: seq<nat>, u: seq<nat>, compat: bool)
    requires WellFounded(d) && PairsDecompose(d, compat) && StarterComposites(d) && JamoStarters(d)
    requires s != [] && ComposesLike(d, s[..|s| - 1], u, compat) && Drops(d, Composed(d, s[..|s| - 1]), s[|s| - 1]) && Ordered(d, s)
    ensures ComposesLike(d, s, u, compat)
  {
    hide WellFounded, PairsDecompose, StarterComposites, AllAtomic, Drops, ComposeNext, UnicodeGetCc, JamoStarters, Ordered, DropCount, EndsInLv, EndsInPair;
    var n := |s| - 1;
    var c := s[n];
    OrderedPrefix(d, s);
    DropUnchanged(d, Composed(d, s[..n]), c);
    ComposedNonEmpty(d, s[..n]);
    if Starter(d, c) {
      ComposedEnd(d, u, compat);
      PairClass(d, u, c);
    }
  }

  lemma ComposedNonEmpty(d: UnicodeData, s: seq<nat>)
    ensures s == [] ==> Composed(d, s) == []
  {
  }

  lemma LikeKept(d: UnicodeData, s: seq<nat>, u: seq<nat>, compat: bool)
    requires s != [] && ComposesLike(d, s[..|s| - 1], u, compat) && !Drops(d, Composed(d, s[..|s| - 1]), s[|s| - 1])
    requires Ordered(d, s) && Atomic(d, s[|s| - 1], compat)
    ensures ComposesLike(d, s, u + [s[|s| - 1]], compat)
  {
    hide Atomic, Drops, ComposeNext, UnicodeGetCc, Ordered;
    var n := |s| - 1;
    assert (u + [s[n]])[..|u|] == u;
    OrderedPrefix(d, s);
    OrderedMore(d, u, s[n]);
  }

  /** Without them it composes to the same text, with nothing dropped, and is still atomic and ordered. */
  lemma {:induction false} UndroppedSame(d: UnicodeData, s: seq<nat>, compat: bool)
    requires WellFounded(d) && PairsDecompose(d, compat) && StarterComposites(d) && JamoStarters(d) && AllAtomic(d, s, compat) && Ordered(d, s)
    ensures ComposesLike(d, s, Undropped(d, s), compat)
  {
    hide WellFounded, PairsDecompose, StarterComposites, Atomic, Drops, Composed, UnicodeGetCc, JamoStarters, Ordered, ComposesLike;
    if s == [] {
      NothingLike(d, compat);
    } else {
      var n := |s| - 1;
      OrderedPrefix(d, s);
      UndroppedSame(d, s[..n], compat);
      if Drops(d, Composed(d, s[..n]), s[n]) {
        assert Undropped(d, s) == Undropped(d, s[..n]);
        LikeDropped(d, s, Undropped(d, s[..n]), compat);
      } else {
        LikeKept(d, s, Undropped(d, s[..n]), compat);
      }
    }
  }

  lemma NothingLike(d: UnicodeData, compat: bool)
    ensures ComposesLike(d, [], [], compat)
  {
  }

  lemma OrderedPrefix(d: UnicodeData, s: seq<nat>)
    requires s != [] && Ordered(d, s)
    ensures Ordered(d, s[..|s| - 1])
    ensures |s| > 1 && !Starter(d, s[|s| - 1]) ==> UnicodeGetCc(d, s[|s| - 2]) <= UnicodeGetCc(d, s[|s| - 1])
  {
  }

  lemma OrderedMore(d: UnicodeData, s: seq<nat>, c: nat)
    requires Ordered(d, s) && (s != [] && !Starter(d, c) ==> UnicodeGetCc(d, s[|s| - 1]) <= UnicodeGetCc(d, c))
    ensures Ordered(d, s + [c])
  {
    hide UnicodeGetCc;
  }

  lemma PairClass(d: UnicodeData, s: seq<nat>, c: nat)
    requires EndsInPair(s) && JamoStarters(d)
    ensures UnicodeGetCc(d, s[|s| - 1]) <= UnicodeGetCc(d, c)
  {
    assert Starter(d, s[|s| - 1]);
  }

  /** Forms C and KC are idempotent, for every text. */
  lemma ComposedFormIdempotent(d: UnicodeData, s: seq<nat>, form: Form)
    requires WellFounded(d) && StarterComposites(d) && JamoStarters(d) && form % 2 == 0 && PairsDecompose(d, form / 2 == 1)
    ensures NormalForm(d, NormalForm(d, s, form), form) == NormalForm(d, s, form)
  {
    hide WellFounded, StarterComposites, PairsDecompose, JamoStarters, Decomposed, Reordered, Atomic, DropCount, Composed, CanonicalOrder, MarksAtomic, Ordered, Undropped;
    var compat := form / 2 == 1;
    var t := Decomposed(d, s, compat);
    var m := CanonicalOrder(d, t);
    DecomposedAtomic(d, s, compat);
    OrderAtomic(d, t, compat);
    CanonicalOrderIs(d, t);
    UndroppedSame(d, m, compat);
    var u := Undropped(d, m);
    ComposedLoses(d, u, compat);
    SameOrder(d, u, Decomposed(d, Composed(d, u), compat));
    OrderedFixed(d, u);
  }

  // ----- what composition may lose -----

  /** The jamo and U+11A7 are starters, and nothing composes with a leading jamo in second place. */
  ghost predicate HangulTables(d: UnicodeData) {
    JamoStarters(d) && Starter(d, 0x11a7) && forall a: nat, b: nat :: LJamo(b) ==> UnicodeComposePair(d, a, b) == 0
  }

  /** A leading and a vowel jamo stand right before a U+11A7. */
  predicate TripleAt(s: seq<nat>, k: nat) { k + 2 < |s| && LJamo(s[k]) && VJamo(s[k + 1]) && s[k + 2] == 0x11a7 }

  ghost predicate HasTriple(s: seq<nat>) { exists k: nat :: TripleAt(s, k) }

  lemma LeadAppended(d: UnicodeData, s: seq<nat>, c: nat)
    requires HangulTables(d) && LJamo(c)
    ensures ComposeNext(d, s, c) == s + [c]
  {
    hide Blocked, JamoStarters;
    var i := LastStarter(d, s);
    if i >= 0 { assert UnicodeComposePair(d, s[i], c) == 0; }
  }

  lemma VowelComposed(d: UnicodeData, s: seq<nat>, c: nat)
    requires JamoStarters(d) && EndsInL(s) && VJamo(c)
    ensures EndsInLv(ComposeNext(d, s, c))
  {
    var n := |s| - 1;
    assert LastStarter(d, s) == n;
    LvParts(s[n], c);
    LvIs(s[n], c);
  }

  lemma LvIs(a: nat, b: nat)
    requires LJamo(a) && VJamo(b)
    ensures IsLv(0xac00 + (a - 0x1100) * 588 + (b - 0x1161) * 28)
  {
  }

  /** After a leading and a vowel jamo the composed text ends in their syllable. */
  lemma PairComposed(d: UnicodeData, s: seq<nat>)
    requires HangulTables(d) && EndsInPair(s)
    ensures EndsInLv(Composed(d, s))
  {
    hide ComposeNext, HangulTables, Composed, EndsInLv;
    var n := |s| - 2;
    LeadAppended(d, Composed(d, s[..n]), s[n]);
    ComposedStep(d, s, n);
    ComposedStep(d, s, n + 1);
    assert s[..n + 2] == s;
    HangulStarters(d);
    VowelComposed(d, Composed(d, s[..n + 1]), s[n + 1]);
  }

  lemma HangulStarters(d: UnicodeData)
    requires HangulTables(d)
    ensures JamoStarters(d) && Starter(d, 0x11a7)
  {
  }

  lemma SyllableDrops(d: UnicodeData, s: seq<nat>)
    requires EndsInLv(s) && Starter(d, s[|s| - 1])
    ensures Drops(d, s, 0x11a7)
  {
    assert LastStarter(d, s) == |s| - 1;
  }

  lemma SyllableStarter(d: UnicodeData, s: seq<nat>, compat: bool)
    requires MarksAtomic(d, s, compat) && EndsInLv(s)
    ensures Starter(d, s[|s| - 1])
  {
  }

  lemma StarterDrop(d: UnicodeData, s: seq<nat>, c: nat)
    requires Drops(d, s, c) && Starter(d, 0x11a7)
    ensures EndsInLv(s) && c == 0x11a7
  {
    DropUnchanged(d, s, c);
  }

  lemma TripleMore(s: seq<nat>)
    requires s != []
    ensures HasTriple(s) <==> HasTriple(s[..|s| - 1]) || (s[|s| - 1] == 0x11a7 && EndsInPair(s[..|s| - 1]))
  {
    var p := s[..|s| - 1];
    if k: nat :| TripleAt(s, k) {
      if k + 2 < |p| { assert TripleAt(p, k); }
    }
    if k: nat :| TripleAt(p, k) { assert TripleAt(s, k); }
    if s[|s| - 1] == 0x11a7 && EndsInPair(p) {
      var k: nat := |s| - 3;
      assert TripleAt(s, k);
    }
  }

  /** Composing drops a character exactly where U+11A7 follows a leading and a vowel jamo. */
  lemma {:induction false} DropsAtTriples(d: UnicodeData, s: seq<nat>, compat: bool)
    requires WellFounded(d) && PairsDecompose(d, compat) && StarterComposites(d) && HangulTables(d) && AllAtomic(d, s, compat)
    ensures DropCount(d, s) > 0 <==> HasTriple(s)
  {
    hide WellFounded, PairsDecompose, StarterComposites, HangulTables, Atomic, Drops, Composed, HasTriple, EndsInPair, EndsInLv, MarksAtomic;
    if s == [] {
      NoTriple();
    } else {
      var n := |s| - 1;
      var p, c := s[..n], s[n];
      DropsAtTriples(d, p, compat);
      TripleMore(s);
      HangulStarters(d);
      ComposedEnd(d, p, compat);
      ComposedLoses(d, p, compat);
      if Drops(d, Composed(d, p), c) { StarterDrop(d, Composed(d, p), c); }
      if c == 0x11a7 && EndsInPair(p) {
        PairComposed(d, p);
        SyllableStarter(d, Composed(d, p), compat);
        SyllableDrops(d, Composed(d, p));
      }
    }
  }

  lemma NoTriple()
    ensures !HasTriple([])
  {
  }

  /** A composed form decomposes back to the decomposed form, exactly when the decomposed form has no U+11A7 right
    * after a leading and a vowel jamo. */
  lemma CompositionLossless(d: UnicodeData, s: seq<nat>, form: Form)
    requires WellFounded(d) && StarterComposites(d) && HangulTables(d) && form % 2 == 0 && PairsDecompose(d, form / 2 == 1)
    ensures NormalForm(d, NormalForm(d, s, form), form + 1) == NormalForm(d, s, form + 1) <==> !HasTriple(NormalForm(d, s, form + 1))
  {
    hide WellFounded, StarterComposites, HangulTables, PairsDecompose, Decomposed, Reordered, Atomic, DropCount, Composed, CanonicalOrder, MarksAtomic, Ordered, HasTriple;
    var compat := form / 2 == 1;
    assert (form + 1) / 2 == form / 2;
    var t := Decomposed(d, s, compat);
    var m := CanonicalOrder(d, t);
    DecomposedAtomic(d, s, compat);
    OrderAtomic(d, t, compat);
    ComposedLoses(d, m, compat);
    DropsAtTriples(d, m, compat);
    CanonicalOrderIs(d, t);
    CanonicalOrderIs(d, Decomposed(d, Composed(d, m), compat));
    if DropCount(d, m) == 0 {
      SameOrder(d, m, Decomposed(d, Composed(d, m), compat));
      OrderedFixed(d, m);
    }
  }

  lemma SwallowDecomposed(d: UnicodeData)
    requires WellFounded(d) && DecompChar(d, 0x11a7, false) == []
    ensures Decomposed(d, [0xac00, 0x11a7], false) == [0x1100, 0x1161, 0x11a7]
  {
    hide WellFounded, Decomposed;
    DecomposedConcat(d, [0xac00], [0x11a7], false);
    DecomposedOne(d, 0xac00, false);
    DecomposedOne(d, 0x11a7, false);
    assert [0xac00, 0x11a7] == [0xac00] + [0x11a7];
    assert Jamos(0xac00) == [0x1100, 0x1161];
    assert [0x1100, 0x1161] + [0x11a7] == [0x1100, 0x1161, 0x11a7];
  }

  lemma SwallowPairs(d: UnicodeData)
    ensures ComposePair(d, 0x1100, 0x1161) == 0xac00 && ComposePair(d, 0xac00, 0x11a7) == 0xac00
  {
  }

  lemma SwallowComposed(d: UnicodeData)
    requires Starter(d, 0x1100) && Starter(d, 0xac00)
    ensures Composed(d, [0x1100, 0x1161, 0x11a7]) == [0xac00]
  {
    hide *;
    SwallowPairs(d);
    ShortComposed(d, [0x1100]);
    ComposedMore(d, [0x1100], 0x1161);
    MarkComposed(d, [], 0x1100, 0x1161);
    assert [] + [0x1100] == [0x1100] && [] + [0xac00] == [0xac00] && [0x1100] + [0x1161] == [0x1100, 0x1161];
    ComposedMore(d, [0x1100, 0x1161], 0x11a7);
    assert [0x1100, 0x1161] + [0x11a7] == [0x1100, 0x1161, 0x11a7];
    MarkComposed(d, [], 0xac00, 0x11a7);
  }

  lemma StartersOrdered(d: UnicodeData, s: seq<nat>)
    requires forall i :: 0 <= i < |s| ==> Starter(d, s[i])
    ensures CanonicalOrder(d, s) == s
  {
    OrderedFixed(d, s);
  }

  /** The loss is real: form C of U+AC00 U+11A7 is U+AC00. */
  lemma SwallowsTrailingBase(d: UnicodeData)
    requires WellFounded(d) && DecompChar(d, 0x11a7, false) == []
    requires Starter(d, 0x1100) && Starter(d, 0x1161) && Starter(d, 0x11a7) && Starter(d, 0xac00)
    ensures NormalForm(d, [0xac00, 0x11a7], 0) == [0xac00] && NormalForm(d, [0xac00, 0x11a7], 1) == [0x1100, 0x1161, 0x11a7]
  {
    hide WellFounded, Decomposed, CanonicalOrder, Composed, UnicodeGetCc;
    SwallowDecomposed(d);
    StartersOrdered(d, [0x1100, 0x1161, 0x11a7]);
    SwallowComposed(d);
  }

  // ----- what a composed text is -----

  /** The next character composes with the last starter across the marks between them, when all of those are of smaller
    * classes and the two have a composite; the marks stay. */
  lemma ComposesAcross(d: UnicodeData, s: seq<nat>, c: nat, t: seq<nat>, a: nat, x: seq<nat>)
    requires Composed(d, s) == t + [a] + x && Starter(d, a) && ComposePair(d, a, c) != 0
    requires forall k :: 0 <= k < |x| ==> 0 < UnicodeGetCc(d, x[k]) < UnicodeGetCc(d, c)
    ensures Composed(d, s + [c]) == t + [ComposePair(d, a, c)] + x
  {
    hide ComposePair, UnicodeGetCc, Composed;
    var w := Composed(d, s);
    ComposedMore(d, s, c);
    assert w[|t|] == a && forall k :: |t| < k < |w| ==> w[k] == x[k - |t| - 1];
    assert LastStarter(d, w) == |t|;
    assert !Blocked(d, w, |t|, c);
    assert w[|t| := ComposePair(d, a, c)] == t + [ComposePair(d, a, c)] + x;
  }

  /** It is appended when there is no starter, when a mark of no smaller class stands between, or without a composite. */
  lemma AppendsOtherwise(d: UnicodeData, s: seq<nat>, c: nat, t: seq<nat>, x: seq<nat>)
    requires Composed(d, s) == t + x && forall k :: 0 <= k < |x| ==> 0 < UnicodeGetCc(d, x[k])
    requires t != [] ==> Starter(d, t[|t| - 1])
    requires t == [] || ComposePair(d, t[|t| - 1], c) == 0 || exists k :: 0 <= k < |x| && UnicodeGetCc(d, x[k]) >= UnicodeGetCc(d, c)
    ensures Composed(d, s + [c]) == t + x + [c]
  {
    hide ComposePair, UnicodeGetCc, Composed;
    var w := Composed(d, s);
    ComposedMore(d, s, c);
    StarterBefore(d, w, t, x);
    if k :| 0 <= k < |x| && UnicodeGetCc(d, x[k]) >= UnicodeGetCc(d, c) {
      var n := |t| + k;
      assert w[n] == x[k];
      assert t != [] ==> Blocked(d, w, LastStarter(d, w), c);
    }
  }

  lemma StarterBefore(d: UnicodeData, w: seq<nat>, t: seq<nat>, x: seq<nat>)
    requires w == t + x && (forall k :: 0 <= k < |x| ==> 0 < UnicodeGetCc(d, x[k]))
    requires t != [] ==> Starter(d, t[|t| - 1])
    ensures LastStarter(d, w) == |t| - 1 && (t != [] ==> w[|t| - 1] == t[|t| - 1])
  {
    hide UnicodeGetCc;
    assert forall k :: |t| <= k < |w| ==> w[k] == x[k - |t|];
    assert t != [] ==> w[|t| - 1] == t[|t| - 1];
  }

  /** The character at k is not blocked from the starter at i. */
  predicate Reaches(d: UnicodeData, w: seq<nat>, i: nat, k: nat) {
    i < k < |w| && Starter(d, w[i]) && forall j :: i < j < k ==> !Starter(d, w[j]) && UnicodeGetCc(d, w[j]) < UnicodeGetCc(d, w[k])
  }

  /** Nothing is left to compose. */
  ghost predicate FullyComposed(d: UnicodeData, w: seq<nat>) {
    forall i: nat, k: nat :: Reaches(d, w, i, k) ==> ComposePair(d, w[i], w[k]) == 0
  }

  /** Composites decompose in canonical order, and the second part of a pair does not decompose. */
  ghost predicate CanonicalPairs(d: UnicodeData, compat: bool)
    requires WellFounded(d)
  {
    forall a: nat, b: nat :: UnicodeComposePair(d, a, b) != 0 ==>
      Atomic(d, b, compat) && UnicodeComposePair(d, a, b) != 0x11a7 && Ordered(d, Decomposed(d, [UnicodeComposePair(d, a, b)], compat))
  }

  /** A composite is never the second part of a pair. */
  lemma NotSecond(d: UnicodeData, x: nat, a: nat, b: nat, compat: bool)
    requires WellFounded(d) && PairsDecompose(d, compat) && CanonicalPairs(d, compat) && ComposePair(d, a, b) != 0
    ensures ComposePair(d, x, ComposePair(d, a, b)) == 0
  {
    hide Decomposed;
    var p := ComposePair(d, a, b);
    if LJamo(a) && VJamo(b) {
      LvParts(a, b);
    } else if IsLv(a) && 0x11a7 <= b < 0x11c3 {
      LvtParts(a, b);
    } else {
      assert p == UnicodeComposePair(d, a, b) && DecompChar(d, p, compat) == [a, b];
      assert !Jamo(p);
    }
    assert !Atomic(d, p, compat);
    assert UnicodeComposePair(d, x, p) == 0;
  }

  lemma LastPair(d: UnicodeData, s: seq<nat>, c: nat, x: nat)
    requires Ordered(d, s + [c] + [x]) && !Starter(d, x)
    ensures UnicodeGetCc(d, c) <= UnicodeGetCc(d, x)
  {
    var t := s + [c] + [x];
    assert t[|s|] == c && t[|s| + 1] == x;
  }

  /** What composes with a composite of c is a mark of no smaller class. */
  lemma NextClass(d: UnicodeData, a: nat, c: nat, x: nat, compat: bool)
    requires WellFounded(d) && PairsDecompose(d, compat) && CanonicalPairs(d, compat) && HangulTables(d)
    requires ComposePair(d, a, c) != 0 && ComposePair(d, ComposePair(d, a, c), x) != 0 && !Starter(d, x)
    ensures UnicodeGetCc(d, c) <= UnicodeGetCc(d, x)
  {
    hide Decomposed, Ordered, UnicodeGetCc, JamoStarters;
    var p := ComposePair(d, a, c);
    HangulStarters(d);
    if VJamo(c) && LJamo(a) {
      VowelClass(d, c);
    } else if c == 0x11a7 {
      StarterClass(d, c);
    } else {
      SecondAtomic(d, a, c, compat);
      NotLv(d, a, c, compat);
      NotLead(d, a, c, compat);
      assert ComposePair(d, p, x) == UnicodeComposePair(d, p, x);
      CompositeParts(d, a, c, compat);
      CompositeParts(d, p, x, compat);
      LastPair(d, Decomposed(d, [a], compat), c, x);
    }
  }

  lemma StarterClass(d: UnicodeData, c: nat)
    requires Starter(d, c)
    ensures UnicodeGetCc(d, c) == 0
  {
  }

  lemma VowelClass(d: UnicodeData, c: nat)
    requires JamoStarters(d) && VJamo(c)
    ensures UnicodeGetCc(d, c) == 0
  {
    assert Starter(d, c);
  }

  lemma SecondAtomic(d: UnicodeData, a: nat, c: nat, compat: bool)
    requires WellFounded(d) && CanonicalPairs(d, compat) && ComposePair(d, a, c) != 0 && c != 0x11a7
    ensures Atomic(d, c, compat)
  {
    hide Decomposed;
    if (LJamo(a) && VJamo(c)) || (IsLv(a) && 0x11a7 < c < 0x11c3) { assert Jamo(c); } else { assert UnicodeComposePair(d, a, c) != 0; }
  }

  /** Only a leading and a vowel jamo, or a swallowed U+11A7, give a syllable LV. */
  lemma NotLv(d: UnicodeData, a: nat, c: nat, compat: bool)
    requires WellFounded(d) && PairsDecompose(d, compat) && ComposePair(d, a, c) != 0 && !(LJamo(a) && VJamo(c)) && c != 0x11a7
    ensures !IsLv(ComposePair(d, a, c))
  {
    LvFrom(d, a, c, compat);
  }

  lemma NotLead(d: UnicodeData, a: nat, c: nat, compat: bool)
    requires WellFounded(d) && PairsDecompose(d, compat) && ComposePair(d, a, c) != 0
    ensures !LJamo(ComposePair(d, a, c))
  {
    LvFrom(d, a, c, compat);
  }

  lemma AppendedComplete(d: UnicodeData, w: seq<nat>, c: nat)
    requires FullyComposed(d, w) && !Composes(d, w, c)
    ensures FullyComposed(d, w + [c])
  {
    hide *;
    hide Reaches;
    var r := w + [c];
    forall i: nat, k: nat | i < k < |r| && Reaches(d, r, i, k) ensures ComposePair(d, r[i], r[k]) == 0 {
      AppendedPair(d, w, c, i, k);
    }
    AllPairs(d, r);
  }

  lemma AllPairs(d: UnicodeData, w: seq<nat>)
    requires forall i: nat, k: nat :: i < k < |w| && Reaches(d, w, i, k) ==> ComposePair(d, w[i], w[k]) == 0
    ensures FullyComposed(d, w)
  {
    hide ComposePair, Starter, UnicodeGetCc;
  }

  lemma OnePair(d: UnicodeData, w: seq<nat>, i: nat, k: nat)
    requires FullyComposed(d, w) && Reaches(d, w, i, k)
    ensures ComposePair(d, w[i], w[k]) == 0
  {
  }

  lemma AppendedPair(d: UnicodeData, w: seq<nat>, c: nat, i: nat, k: nat)
    requires FullyComposed(d, w) && !Composes(d, w, c) && Reaches(d, w + [c], i, k)
    ensures ComposePair(d, (w + [c])[i], (w + [c])[k]) == 0
  {
    hide FullyComposed, ComposePair, UnicodeGetCc, Starter;
    var r := w + [c];
    assert forall j :: 0 <= j < |w| ==> r[j] == w[j];
    if k < |w| {
      assert Reaches(d, w, i, k);
      OnePair(d, w, i, k);
    } else {
      ReachesEnd(d, w, c, i);
    }
  }

  lemma ReachesEnd(d: UnicodeData, w: seq<nat>, c: nat, i: nat)
    requires i < |w| && Reaches(d, w + [c], i, |w|) && !Composes(d, w, c)
    ensures ComposePair(d, w[i], c) == 0
  {
    hide ComposePair, UnicodeGetCc, Starter;
    var r := w + [c];
    assert forall j :: 0 <= j < |w| ==> r[j] == w[j];
    var l := LastStarter(d, w);
    assert !Blocked(d, w, i, c);
  }

  lemma ComposedHere(d: UnicodeData, w: seq<nat>, c: nat, compat: bool)
    requires WellFounded(d) && PairsDecompose(d, compat) && CanonicalPairs(d, compat) && StarterComposites(d) && HangulTables(d)
    requires FullyComposed(d, w) && Composes(d, w, c)
    ensures FullyComposed(d, ComposeNext(d, w, c))
  {
    hide *;
    hide Reaches;
    ComposesMeans(d, w, c);
    var s := LastStarter(d, w);
    var r := w[s := ComposePair(d, w[s], c)];
    forall i: nat, k: nat | i < k < |r| && Reaches(d, r, i, k) ensures ComposePair(d, r[i], r[k]) == 0 {
      HerePair(d, w, c, s, i, k, compat);
    }
    AllPairs(d, r);
  }

  lemma ComposesMeans(d: UnicodeData, w: seq<nat>, c: nat)
    requires Composes(d, w, c)
    ensures var s := LastStarter(d, w); 0 <= s < |w| && ComposePair(d, w[s], c) != 0 && ComposeNext(d, w, c) == w[s := ComposePair(d, w[s], c)]
  {
    hide ComposePair, Blocked;
  }

  lemma HerePair(d: UnicodeData, w: seq<nat>, c: nat, s: nat, i: nat, k: nat, compat: bool)
    requires WellFounded(d) && PairsDecompose(d, compat) && CanonicalPairs(d, compat) && StarterComposites(d) && HangulTables(d)
    requires FullyComposed(d, w) && Composes(d, w, c) && s == LastStarter(d, w) && Reaches(d, w[s := ComposePair(d, w[s], c)], i, k)
    ensures var r := w[s := ComposePair(d, w[s], c)]; ComposePair(d, r[i], r[k]) == 0
  {
    hide ComposePair, UnicodeGetCc, WellFounded, PairsDecompose, CanonicalPairs, HangulTables, FullyComposed, Starter, Blocked;
    var p := ComposePair(d, w[s], c);
    var r := w[s := p];
    if k == s {
      NotSecond(d, r[i], w[s], c, compat);
    } else if i == s {
      MarkAfter(d, w, s, c, k);
      if ComposePair(d, p, w[k]) != 0 { NextClass(d, w[s], c, w[k], compat); }
    } else {
      assert Starter(d, p);
      StarterStays(d, w, s, p, i, k);
      OnePair(d, w, i, k);
    }
  }

  /** Putting another starter at s changes nothing for the pairs beside it. */
  lemma StarterStays(d: UnicodeData, w: seq<nat>, s: nat, p: nat, i: nat, k: nat)
    requires s < |w| && Starter(d, p) && i != s && k != s && Reaches(d, w[s := p], i, k)
    ensures Reaches(d, w, i, k)
  {
    hide Starter, UnicodeGetCc;
    var r := w[s := p];
    assert r[s] == p && forall j :: 0 <= j < |w| && j != s ==> r[j] == w[j];
  }

  lemma MarkAfter(d: UnicodeData, w: seq<nat>, s: nat, c: nat, k: nat)
    requires s == LastStarter(d, w) && !Blocked(d, w, s, c) && s < k < |w|
    ensures !Starter(d, w[k]) && UnicodeGetCc(d, w[k]) < UnicodeGetCc(d, c)
  {
  }

  /** A composed text holds no starter and later unblocked character that have a composite. */
  lemma {:induction false} ComposedIsComplete(d: UnicodeData, s: seq<nat>, compat: bool)
    requires WellFounded(d) && PairsDecompose(d, compat) && CanonicalPairs(d, compat) && StarterComposites(d) && HangulTables(d)
    ensures FullyComposed(d, Composed(d, s))
  {
    hide WellFounded, PairsDecompose, CanonicalPairs, StarterComposites, HangulTables, FullyComposed, ComposeNext, Composes;
    if s == [] {
      NothingComposed(d);
      NothingComplete(d);
    } else {
      var n := |s| - 1;
      var w, c := Composed(d, s[..n]), s[n];
      ComposedIsComplete(d, s[..n], compat);
      assert Composed(d, s) == ComposeNext(d, w, c);
      if Composes(d, w, c) {
        ComposedHere(d, w, c, compat);
      } else {
        NextIs(d, w, c);
        AppendedComplete(d, w, c);
      }
    }
  }

  lemma NextIs(d: UnicodeData, w: seq<nat>, c: nat)
    requires !Composes(d, w, c)
    ensures ComposeNext(d, w, c) == w + [c]
  {
    hide ComposePair, Blocked;
  }

  lemma NothingComplete(d: UnicodeData)
    ensures FullyComposed(d, [])
  {
  }

  /** Forms C and KC leave nothing to compose. */
  lemma ComposedFormComplete(d: UnicodeData, s: seq<nat>, form: Form)
    requires WellFounded(d) && StarterComposites(d) && HangulTables(d) && form % 2 == 0
    requires PairsDecompose(d, form / 2 == 1) && CanonicalPairs(d, form / 2 == 1)
    ensures FullyComposed(d, NormalForm(d, s, form))
  {
    hide WellFounded, StarterComposites, HangulTables, PairsDecompose, CanonicalPairs, FullyComposed, Composed, Marked;
    ComposedIsComplete(d, Marked(d, s, form / 2 == 1), form / 2 == 1);
  }

  // ----- what no table mentions -----

  /** No class, no decomposition, never the second part of a pair, and not Hangul. */
  ghost predicate Unlisted(d: UnicodeData, c: nat) {
    && c !in d.classes && (forall compat: bool :: (c, compat) !in d.decompositions) && (forall a: nat :: (a, c) !in d.pairs)
    && !(0x1161 <= c <= 0x1175) && !(0x11a7 <= c <= 0x11c2) && !(0xac00 <= c <= 0xd7a3)
  }

  lemma UnlistedChar(d: UnicodeData, c: nat)
    requires Unlisted(d, c)
    ensures Starter(d, c) && (forall compat: bool :: Atomic(d, c, compat)) && forall a: nat :: ComposePair(d, a, c) == 0
  {
  }

  lemma {:induction false} NothingComposes(d: UnicodeData, s: seq<nat>)
    requires forall i :: 0 <= i < |s| ==> forall a: nat :: ComposePair(d, a, s[i]) == 0
    ensures Composed(d, s) == s
  {
    hide ComposePair;
    if s != [] {
      NothingComposes(d, s[..|s| - 1]);
      assert ComposeNext(d, s[..|s| - 1], s[|s| - 1]) == s[..|s| - 1] + [s[|s| - 1]] == s;
    }
  }

  /** A text of such characters is its own normal form, in all four forms. */
  lemma UnlistedUnchanged(d: UnicodeData, s: seq<nat>, form: Form)
    requires WellFounded(d) && forall i :: 0 <= i < |s| ==> Unlisted(d, s[i])
    ensures NormalForm(d, s, form) == s
  {
    hide WellFounded, Decomposed, CanonicalOrder, Composed, ComposePair, Unlisted, Atomic;
    forall i | 0 <= i < |s| ensures Starter(d, s[i]) && (forall compat: bool :: Atomic(d, s[i], compat)) && forall a: nat :: ComposePair(d, a, s[i]) == 0 {
      UnlistedChar(d, s[i]);
    }
    AtomicUnchanged(d, s, form / 2 == 1);
    OrderIs(d, s, s) by { ReorderedSame(d, s); }
    NothingComposes(d, s);
  }
}
