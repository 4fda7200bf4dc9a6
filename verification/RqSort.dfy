/** rqsort: three-way quicksort with an explicit stack, falling back to heapsort when it gets too
  * deep and to insertion sort on small fragments. All in place. */
module RqSort {

  // ----- rearranging a range -----

  /** t is s with the elements of [lo, hi) rearranged. */
  ghost predicate Perm<T>(s: seq<T>, t: seq<T>, lo: nat, hi: nat) {
    && |s| == |t| && lo <= hi <= |s|
    && multiset(s[lo..hi]) == multiset(t[lo..hi])
    && (forall i :: 0 <= i < |s| && !(lo <= i < hi) ==> t[i] == s[i])
  }

  lemma PermSame<T>(s: seq<T>, lo: nat, hi: nat)
    requires lo <= hi <= |s|
    ensures Perm(s, s, lo, hi)
  {
  }

  lemma PermTrans<T>(s: seq<T>, t: seq<T>, u: seq<T>, lo: nat, hi: nat)
    requires Perm(s, t, lo, hi) && Perm(t, u, lo, hi)
    ensures Perm(s, u, lo, hi)
  {
  }

  lemma PermSwap<T>(s: seq<T>, lo: nat, hi: nat, i: nat, j: nat)
    requires lo <= i < hi && lo <= j < hi && hi <= |s|
    ensures Perm(s, s[i := s[j]][j := s[i]], lo, hi)
  {
    var t := s[i := s[j]][j := s[i]];
    var a, b := s[lo..hi], t[lo..hi];
    assert b == a[i - lo := a[j - lo]][j - lo := a[i - lo]];
    SwapMultiset(a, i - lo, j - lo);
  }

  lemma SwapMultiset<T>(a: seq<T>, i: nat, j: nat)
    requires i < |a| && j < |a|
    ensures multiset(a[i := a[j]][j := a[i]]) == multiset(a)
  {
  }

  lemma PermWiden<T>(s: seq<T>, t: seq<T>, lo: nat, hi: nat, lo': nat, hi': nat)
    requires Perm(s, t, lo, hi) && lo' <= lo && hi <= hi' <= |s|
    ensures Perm(s, t, lo', hi')
  {
    assert s[lo'..hi'] == s[lo'..lo] + s[lo..hi] + s[hi..hi'];
    assert t[lo'..hi'] == t[lo'..lo] + t[lo..hi] + t[hi..hi'];
    assert s[lo'..lo] == t[lo'..lo] && s[hi..hi'] == t[hi..hi'];
  }

  /** Every element of the rearranged range was in it before. */
  lemma PermFrom<T>(s: seq<T>, t: seq<T>, lo: nat, hi: nat, i: nat) returns (k: nat)
    requires Perm(s, t, lo, hi) && lo <= i < hi
    ensures lo <= k < hi && t[i] == s[k]
  {
    assert t[lo..hi][i - lo] == t[i];
    assert t[i] in multiset(t[lo..hi]);
    assert t[i] in s[lo..hi];
    var x :| 0 <= x < |s[lo..hi]| && s[lo..hi][x] == t[i];
    k := lo + x;
  }

  // ----- order -----

  /** A comparison function of a total preorder. */
  ghost predicate TotalPreorder<T(!new)>(cmp: (T, T) -> int) {
    && (forall a, b :: cmp(a, b) < 0 <==> cmp(b, a) > 0)
    && (forall a, b, c :: cmp(a, b) <= 0 && cmp(b, c) <= 0 ==> cmp(a, c) <= 0)
  }

  ghost predicate SortedRange<T>(cmp: (T, T) -> int, s: seq<T>, lo: nat, hi: nat) {
    lo <= hi <= |s| && forall i, j :: lo <= i < j < hi ==> cmp(s[i], s[j]) <= 0
  }

  /** t is s with its elements i and j exchanged. */
  ghost predicate Swapped<T>(s: seq<T>, t: seq<T>, i: nat, j: nat) {
    && |s| == |t| && i < |s| && j < |s| && t[i] == s[j] && t[j] == s[i]
    && forall k :: 0 <= k < |s| && k != i && k != j ==> t[k] == s[k]
  }

  /** t is s with the blocks of n elements at x and y exchanged. */
  ghost predicate Exchanged<T>(s: seq<T>, t: seq<T>, x: nat, y: nat, n: nat) {
    && |s| == |t| && x + n <= y && y + n <= |s|
    && (forall k :: x <= k < x + n ==> t[k] == s[k - x + y])
    && (forall k :: y <= k < y + n ==> t[k] == s[k - y + x])
    && (forall k :: 0 <= k < |s| && !(x <= k < x + n) && !(y <= k < y + n) ==> t[k] == s[k])
  }

  lemma ExchangeStart<T>(s: seq<T>, x: nat, y: nat)
    requires x <= y <= |s|
    ensures Exchanged(s, s, x, y, 0)
  {
  }

  lemma ExchangeStep<T>(s: seq<T>, t: seq<T>, u: seq<T>, x: nat, y: nat, n: nat)
    requires Exchanged(s, t, x, y, n) && x + n < y && y + n < |s| && Swapped(t, u, x + n, y + n)
    ensures Exchanged(s, u, x, y, n + 1)
  {
  }

  /** The first elements are sorted, but for the one being moved down, now at j. */
  ghost predicate Inserting<T>(cmp: (T, T) -> int, s: seq<T>, lo: nat, i: nat, j: nat) {
    lo <= j <= i < |s| && forall x, y :: lo <= x < y <= i && y != j ==> cmp(s[x], s[y]) <= 0
  }

  lemma InsertStart<T>(cmp: (T, T) -> int, s: seq<T>, lo: nat, i: nat)
    requires SortedRange(cmp, s, lo, i) && i < |s|
    ensures Inserting(cmp, s, lo, i, i)
  {
  }

  lemma InsertStep<T(!new)>(cmp: (T, T) -> int, s: seq<T>, t: seq<T>, lo: nat, i: nat, j: nat)
    requires TotalPreorder(cmp) && Inserting(cmp, s, lo, i, j) && j > lo && cmp(s[j - 1], s[j]) > 0 && Swapped(s, t, j, j - 1)
    ensures Inserting(cmp, t, lo, i, j - 1)
  {
    forall x, y | lo <= x < y <= i && y != j - 1 ensures cmp(t[x], t[y]) <= 0 {
      var x' := if x == j then j - 1 else if x == j - 1 then j else x;
      var y' := if y == j then j - 1 else y;
      assert t[x] == s[x'] && t[y] == s[y'];
      if y == j && x == j - 1 {
        assert cmp(s[j], s[j - 1]) < 0;
      }
    }
  }

  lemma InsertEnd<T(!new)>(cmp: (T, T) -> int, s: seq<T>, lo: nat, i: nat, j: nat)
    requires TotalPreorder(cmp) && Inserting(cmp, s, lo, i, j) && (j > lo ==> cmp(s[j - 1], s[j]) <= 0)
    ensures SortedRange(cmp, s, lo, i + 1)
  {
    forall x, y | lo <= x < y < i + 1 ensures cmp(s[x], s[y]) <= 0 {
      if y == j && x < j - 1 { assert cmp(s[x], s[j - 1]) <= 0; }
    }
  }

  // ----- heaps -----

  function Parent(c: nat): nat { if c == 0 then 0 else (c - 1) / 2 }

  /** Node c of a heap at b is not above its parent. */
  ghost predicate Below<T>(cmp: (T, T) -> int, s: seq<T>, b: nat, c: nat, d: nat) {
    b + c < |s| && b + d < |s| && cmp(s[b + c], s[b + d]) <= 0
  }

  /** Every node whose parent is `from` or later is not above its parent. */
  ghost predicate Heap<T>(cmp: (T, T) -> int, s: seq<T>, b: nat, n: nat, from: nat) {
    b + n <= |s| && forall c :: 1 <= c < n && Parent(c) >= from ==> Below(cmp, s, b, c, Parent(c))
  }

  /** The same but for the children of node r, which are not above the parent of r. */
  ghost predicate HeapBut<T>(cmp: (T, T) -> int, s: seq<T>, b: nat, n: nat, from: nat, r: nat) {
    && from <= r < n && b + n <= |s|
    && (forall c :: 1 <= c < n && Parent(c) >= from && Parent(c) != r ==> Below(cmp, s, b, c, Parent(c)))
    && (r > from && Parent(r) >= from ==> forall c :: 1 <= c < n && Parent(c) == r ==> Below(cmp, s, b, c, Parent(r)))
  }

  lemma SiftStart<T>(cmp: (T, T) -> int, s: seq<T>, b: nat, n: nat, r: nat)
    requires Heap(cmp, s, b, n, r + 1) && r < n
    ensures HeapBut(cmp, s, b, n, r, r)
  {
  }

  lemma SiftEnd<T>(cmp: (T, T) -> int, s: seq<T>, b: nat, n: nat, from: nat, r: nat)
    requires HeapBut(cmp, s, b, n, from, r) && 2 * r + 1 >= n
    ensures Heap(cmp, s, b, n, from)
  {
  }

  /** c is the greater child of r. */
  ghost predicate GreaterChild<T>(cmp: (T, T) -> int, s: seq<T>, b: nat, n: nat, r: nat, c: nat) {
    && b + n <= |s| && c < n && (c == 2 * r + 1 || c == 2 * r + 2)
    && (c == 2 * r + 1 && c + 1 < n ==> cmp(s[b + c], s[b + c + 1]) > 0)
    && (c == 2 * r + 2 ==> cmp(s[b + c - 1], s[b + c]) <= 0)
  }

  lemma OtherChild<T(!new)>(cmp: (T, T) -> int, s: seq<T>, b: nat, n: nat, r: nat, c: nat, d: nat)
    requires TotalPreorder(cmp) && GreaterChild(cmp, s, b, n, r, c) && 1 <= d < n && Parent(d) == r && d != c
    ensures Below(cmp, s, b, d, c)
  {
    assert d == 2 * r + 1 || d == 2 * r + 2;
  }

  lemma SiftStop<T(!new)>(cmp: (T, T) -> int, s: seq<T>, b: nat, n: nat, from: nat, r: nat, c: nat)
    requires TotalPreorder(cmp) && HeapBut(cmp, s, b, n, from, r) && GreaterChild(cmp, s, b, n, r, c) && cmp(s[b + r], s[b + c]) > 0
    ensures Heap(cmp, s, b, n, from)
  {
    assert cmp(s[b + c], s[b + r]) < 0;
    forall d | 1 <= d < n && Parent(d) >= from ensures Below(cmp, s, b, d, Parent(d)) {
      if Parent(d) == r && d != c { OtherChild(cmp, s, b, n, r, c, d); }
    }
  }

  lemma SiftStep<T(!new)>(cmp: (T, T) -> int, s: seq<T>, t: seq<T>, b: nat, n: nat, from: nat, r: nat, c: nat)
    requires TotalPreorder(cmp) && HeapBut(cmp, s, b, n, from, r) && GreaterChild(cmp, s, b, n, r, c)
    requires cmp(s[b + r], s[b + c]) <= 0 && Swapped(s, t, b + r, b + c)
    ensures HeapBut(cmp, t, b, n, from, c)
  {
    forall d | 1 <= d < n && Parent(d) >= from && Parent(d) != c ensures Below(cmp, t, b, d, Parent(d)) {
      SiftNode(cmp, s, t, b, n, from, r, c, d);
    }
    forall d | 1 <= d < n && Parent(d) == c ensures Below(cmp, t, b, d, Parent(c)) {
      assert Below(cmp, s, b, d, Parent(d));
      assert t[b + d] == s[b + d] && t[b + r] == s[b + c];
    }
  }

  /** A node elsewhere after the exchange of r and its greater child c. */
  lemma SiftNode<T(!new)>(cmp: (T, T) -> int, s: seq<T>, t: seq<T>, b: nat, n: nat, from: nat, r: nat, c: nat, d: nat)
    requires TotalPreorder(cmp) && HeapBut(cmp, s, b, n, from, r) && GreaterChild(cmp, s, b, n, r, c)
    requires cmp(s[b + r], s[b + c]) <= 0 && Swapped(s, t, b + r, b + c)
    requires 1 <= d < n && Parent(d) >= from && Parent(d) != c
    ensures Below(cmp, t, b, d, Parent(d))
  {
    var q := Parent(d);
    if q == r {
      if d != c { OtherChild(cmp, s, b, n, r, c, d); }
    } else if d == r {
      assert Below(cmp, s, b, c, Parent(r));
    } else {
      assert Below(cmp, s, b, d, q);
    }
  }

  lemma NoParents<T>(cmp: (T, T) -> int, s: seq<T>, b: nat, n: nat)
    requires b + n <= |s|
    ensures Heap(cmp, s, b, n, n / 2)
  {
  }

  lemma {:induction false} HeapMax<T(!new)>(cmp: (T, T) -> int, s: seq<T>, b: nat, n: nat, k: nat)
    requires TotalPreorder(cmp) && Heap(cmp, s, b, n, 0) && k < n
    ensures cmp(s[b + k], s[b]) <= 0
  {
    if k == 0 {
      assert cmp(s[b], s[b]) == 0;
    } else {
      HeapMax(cmp, s, b, n, Parent(k));
      assert Below(cmp, s, b, k, Parent(k));
    }
  }

  /** Elements from node i on are sorted, and not below those before. */
  ghost predicate HeapSorted<T>(cmp: (T, T) -> int, s: seq<T>, b: nat, i: nat, n: nat) {
    && i <= n && b + n <= |s|
    && (forall x, y :: b + i <= x < y < b + n ==> cmp(s[x], s[y]) <= 0)
    && (forall x, y :: b <= x < b + i <= y < b + n ==> cmp(s[x], s[y]) <= 0)
  }

  lemma NothingSorted<T>(cmp: (T, T) -> int, s: seq<T>, b: nat, n: nat)
    requires b + n <= |s|
    ensures HeapSorted(cmp, s, b, n, n)
  {
  }

  lemma MaxToEnd<T(!new)>(cmp: (T, T) -> int, s: seq<T>, t: seq<T>, b: nat, i: nat, n: nat)
    requires TotalPreorder(cmp) && 0 < i < n && Heap(cmp, s, b, i + 1, 0) && HeapSorted(cmp, s, b, i + 1, n) && Swapped(s, t, b, b + i)
    ensures HeapSorted(cmp, t, b, i, n)
  {
    hide TotalPreorder, Heap;
    forall x, y | b <= x < b + i <= y < b + n ensures cmp(t[x], t[y]) <= 0 {
      var x' := if x == b then b + i else x;
      assert t[x] == s[x'];
      if y == b + i { HeapMax(cmp, s, b, i + 1, x' - b); }
    }
    forall x, y | b + i <= x < y < b + n ensures cmp(t[x], t[y]) <= 0 {
      var x' := if x == b + i then b else x;
      assert t[x] == s[x'] && t[y] == s[y];
    }
  }

  lemma RestIsHeap<T>(cmp: (T, T) -> int, s: seq<T>, t: seq<T>, b: nat, i: nat)
    requires 0 < i && Heap(cmp, s, b, i + 1, 0) && Swapped(s, t, b, b + i)
    ensures Heap(cmp, t, b, i, 1)
  {
    forall c | 1 <= c < i && Parent(c) >= 1 ensures Below(cmp, t, b, c, Parent(c)) {
      assert Below(cmp, s, b, c, Parent(c));
    }
  }

  /** Rearranging the heap part keeps what is sorted. */
  lemma StillSorted<T>(cmp: (T, T) -> int, s: seq<T>, t: seq<T>, b: nat, i: nat, n: nat)
    requires HeapSorted(cmp, s, b, i, n) && Perm(s, t, b, b + i)
    ensures HeapSorted(cmp, t, b, i, n)
  {
    forall x, y | b <= x < b + i <= y < b + n ensures cmp(t[x], t[y]) <= 0 {
      var k := PermFrom(s, t, b, b + i, x);
      assert t[y] == s[y];
    }
    forall x, y | b + i <= x < y < b + n ensures cmp(t[x], t[y]) <= 0 {
      assert t[x] == s[x] && t[y] == s[y];
    }
  }

  lemma AllSorted<T>(cmp: (T, T) -> int, s: seq<T>, b: nat, n: nat)
    requires HeapSorted(cmp, s, b, 1, n) && n >= 1
    ensures SortedRange(cmp, s, b, b + n)
  {
  }

  lemma FewSorted<T>(cmp: (T, T) -> int, s: seq<T>, b: nat, n: nat)
    requires n <= 1 && b + n <= |s|
    ensures SortedRange(cmp, s, b, b + n)
  {
  }

  // ----- partition -----

  /** While scanning around the pivot p: equal elements at both ends, smaller ones on the left,
    * greater ones on the right, unknown ones from i to j. */
  ghost predicate Parted<T>(cmp: (T, T) -> int, s: seq<T>, p: T, b: nat, lt: nat, i: nat, j: nat, gt: nat, e: nat) {
    && b < lt <= i <= j <= gt <= e <= |s| && s[b] == p
    && (forall k :: b <= k < lt ==> cmp(p, s[k]) == 0)
    && (forall k :: lt <= k < i ==> cmp(p, s[k]) > 0)
    && (forall k :: j <= k < gt ==> cmp(p, s[k]) < 0)
    && (forall k :: gt <= k < e ==> cmp(p, s[k]) == 0)
  }

  lemma PartStart<T(!new)>(cmp: (T, T) -> int, s: seq<T>, b: nat, e: nat)
    requires TotalPreorder(cmp) && b < e <= |s|
    ensures Parted(cmp, s, s[b], b, b + 1, b + 1, e, e, e)
  {
    assert cmp(s[b], s[b]) == 0;
  }

  lemma PartLeft<T>(cmp: (T, T) -> int, s: seq<T>, t: seq<T>, p: T, b: nat, lt: nat, i: nat, j: nat, gt: nat, e: nat)
    requires Parted(cmp, s, p, b, lt, i, j, gt, e) && i < j
    requires (cmp(p, s[i]) > 0 && t == s) || (cmp(p, s[i]) == 0 && Swapped(s, t, lt, i))
    ensures Parted(cmp, t, p, b, if cmp(p, s[i]) == 0 then lt + 1 else lt, i + 1, j, gt, e)
  {
  }

  lemma PartRight<T>(cmp: (T, T) -> int, s: seq<T>, t: seq<T>, p: T, b: nat, lt: nat, i: nat, j: nat, gt: nat, e: nat)
    requires Parted(cmp, s, p, b, lt, i, j + 1, gt, e) && i < j
    requires (cmp(p, s[j]) < 0 && t == s) || (cmp(p, s[j]) == 0 && Swapped(s, t, gt - 1, j))
    ensures Parted(cmp, t, p, b, lt, i, j, if cmp(p, s[j]) == 0 then gt - 1 else gt, e) && t[i] == s[i]
  {
  }

  lemma PartCross<T>(cmp: (T, T) -> int, s: seq<T>, t: seq<T>, p: T, b: nat, lt: nat, i: nat, j: nat, gt: nat, e: nat)
    requires Parted(cmp, s, p, b, lt, i, j + 1, gt, e) && i < j && cmp(p, s[i]) < 0 && cmp(p, s[j]) > 0 && Swapped(s, t, i, j)
    ensures Parted(cmp, t, p, b, lt, i + 1, j, gt, e)
  {
  }

  lemma PartEnd<T>(cmp: (T, T) -> int, s: seq<T>, p: T, b: nat, lt: nat, i: nat, j: int, gt: nat, e: nat)
    requires j + 1 >= 0 && Parted(cmp, s, p, b, lt, i, j + 1, gt, e) && i >= j && (j == i ==> cmp(p, s[i]) < 0)
    ensures Parted(cmp, s, p, b, lt, i, i, gt, e)
  {
  }

  /** Smaller, equal, greater. */
  ghost predicate ThreeParts<T>(cmp: (T, T) -> int, s: seq<T>, p: T, b: nat, l: nat, g: nat, e: nat) {
    && b <= l <= g <= e <= |s|
    && (forall k :: b <= k < l ==> cmp(p, s[k]) > 0)
    && (forall k :: l <= k < g ==> cmp(p, s[k]) == 0)
    && (forall k :: g <= k < e ==> cmp(p, s[k]) < 0)
  }

  /** Moving the equal elements from the left end to the middle. */
  lemma MoveLeft<T>(cmp: (T, T) -> int, s: seq<T>, t: seq<T>, p: T, b: nat, lt: nat, i: nat, gt: nat, e: nat, span: nat)
    requires Parted(cmp, s, p, b, lt, i, i, gt, e) && span == (if lt - b > i - lt then i - lt else lt - b)
    requires Exchanged(s, t, b, i - span, span)
    ensures forall k :: b <= k < b + (i - lt) ==> cmp(p, t[k]) > 0
    ensures forall k :: b + (i - lt) <= k < i ==> cmp(p, t[k]) == 0
    ensures forall k :: i <= k < gt ==> cmp(p, t[k]) < 0
    ensures forall k :: gt <= k < e ==> cmp(p, t[k]) == 0
  {
  }

  lemma MoveRight<T>(cmp: (T, T) -> int, s: seq<T>, t: seq<T>, p: T, b: nat, l: nat, i: nat, gt: nat, e: nat, span: nat)
    requires b <= l <= i <= gt <= e <= |s| && span == if e - gt > gt - i then gt - i else e - gt
    requires forall k :: b <= k < l ==> cmp(p, s[k]) > 0
    requires forall k :: l <= k < i ==> cmp(p, s[k]) == 0
    requires forall k :: i <= k < gt ==> cmp(p, s[k]) < 0
    requires forall k :: gt <= k < e ==> cmp(p, s[k]) == 0
    requires Exchanged(s, t, i, e - span, span)
    ensures ThreeParts(cmp, t, p, b, l, e - (gt - i), e)
  {
  }

  lemma ThreeIsSorted<T(!new)>(cmp: (T, T) -> int, s: seq<T>, p: T, b: nat, l: nat, g: nat, e: nat)
    requires TotalPreorder(cmp) && ThreeParts(cmp, s, p, b, l, g, e)
    ensures forall x, y :: b <= x < y < e && !(x < l && y < l) && !(x >= g && y >= g) ==> cmp(s[x], s[y]) <= 0
  {
    forall x, y | b <= x < y < e && !(x < l && y < l) && !(x >= g && y >= g) ensures cmp(s[x], s[y]) <= 0 {
      assert cmp(s[x], p) <= 0 && cmp(p, s[y]) <= 0;
    }
  }

  class Sorter<T(!new)> {
    const cmp: (T, T) -> int
    const a: array<T>

    constructor (cmp: (T, T) -> int, a: array<T>)
      ensures this.cmp == cmp && this.a == a
    {
      this.cmp, this.a := cmp, a;
    }

    method Swap(i: nat, j: nat, ghost lo: nat, ghost hi: nat)
      requires lo <= i < hi && lo <= j < hi && hi <= a.Length
      modifies a
      ensures Swapped(old(a[..]), a[..], i, j) && Perm(old(a[..]), a[..], lo, hi)
    {
      ghost var s := a[..];
      a[i], a[j] := a[j], a[i];
      assert a[..] == s[i := s[j]][j := s[i]];
      PermSwap(s, lo, hi, i, j);
    }

    /** Exchange two blocks that do not overlap. */
    method SwapBlock(x: nat, y: nat, n: nat, ghost lo: nat, ghost hi: nat)
      requires lo <= x && x + n <= y && y + n <= hi <= a.Length
      modifies a
      ensures Perm(old(a[..]), a[..], lo, hi) && Exchanged(old(a[..]), a[..], x, y, n)
    {
      hide Perm, Exchanged, Swapped;
      ghost var s := a[..];
      PermSame(s, lo, hi);
      ExchangeStart(s, x, y);
      var i := 0;
      while i < n
        invariant 0 <= i <= n && Perm(s, a[..], lo, hi) && Exchanged(s, a[..], x, y, i)
      {
        ghost var t := a[..];
        Swap(x + i, y + i, lo, hi);
        PermTrans(s, t, a[..], lo, hi);
        ExchangeStep(s, t, a[..], x, y, i);
        i := i + 1;
      }
    }

    // ----- insertion sort -----

    method InsertionSort(lo: nat, hi: nat)
      requires TotalPreorder(cmp) && lo <= hi <= a.Length
      modifies a
      ensures Perm(old(a[..]), a[..], lo, hi) && SortedRange(cmp, a[..], lo, hi)
    {
      hide Perm, Swapped, Inserting, TotalPreorder;
      ghost var s := a[..];
      PermSame(s, lo, hi);
      var i := lo + 1;
      while i < hi
        invariant lo < i && Perm(s, a[..], lo, hi) && (i <= hi ==> SortedRange(cmp, a[..], lo, i))
        invariant i > hi ==> hi == lo
      {
        var j := i;
        InsertStart(cmp, a[..], lo, i);
        while j > lo && cmp(a[j - 1], a[j]) > 0
          invariant lo <= j <= i && Perm(s, a[..], lo, hi) && Inserting(cmp, a[..], lo, i, j)
        {
          ghost var t := a[..];
          Swap(j, j - 1, lo, hi);
          PermTrans(s, t, a[..], lo, hi);
          InsertStep(cmp, t, a[..], lo, i, j);
          j := j - 1;
        }
        InsertEnd(cmp, a[..], lo, i, j);
        i := i + 1;
      }
    }

    // ----- heapsort -----

    /** Let the element at node r0 sink to its place in the heap of n nodes at b. */
    method SiftDown(b: nat, r0: nat, n: nat, ghost e: nat)
      requires TotalPreorder(cmp) && r0 < n && b + n <= e <= a.Length && Heap(cmp, a[..], b, n, r0 + 1)
      modifies a
      ensures Perm(old(a[..]), a[..], b, b + n) && Heap(cmp, a[..], b, n, r0)
    {
      hide Perm, Heap, Swapped, TotalPreorder, HeapBut;
      ghost var s := a[..];
      PermSame(s, b, b + n);
      var r := r0;
      SiftStart(cmp, s, b, n, r0);
      while 2 * r + 1 < n
        invariant r0 <= r < n && Perm(s, a[..], b, b + n) && HeapBut(cmp, a[..], b, n, r0, r)
        decreases n - r
      {
        var c := 2 * r + 1;
        if c < n - 1 && cmp(a[b + c], a[b + c + 1]) <= 0 { c := c + 1; }
        if cmp(a[b + r], a[b + c]) > 0 {
          SiftStop(cmp, a[..], b, n, r0, r, c);
          return;
        }
        ghost var t := a[..];
        Swap(b + r, b + c, b, b + n);
        PermTrans(s, t, a[..], b, b + n);
        SiftStep(cmp, t, a[..], b, n, r0, r, c);
        r := c;
      }
      SiftEnd(cmp, a[..], b, n, r0, r);
    }

    /** heapsortx */
    method HeapSort(b: nat, n: nat)
      requires TotalPreorder(cmp) && b + n <= a.Length
      modifies a
      ensures Perm(old(a[..]), a[..], b, b + n) && SortedRange(cmp, a[..], b, b + n)
    {
      hide *;
      ghost var s := a[..];
      PermSame(s, b, b + n);
      if n > 1 {
        BuildHeap(b, n);
        ghost var t := a[..];
        TakeMaxima(b, n);
        PermTrans(s, t, a[..], b, b + n);
      } else {
        FewSorted(cmp, a[..], b, n);
      }
    }

    method BuildHeap(b: nat, n: nat)
      requires TotalPreorder(cmp) && b + n <= a.Length
      modifies a
      ensures Perm(old(a[..]), a[..], b, b + n) && Heap(cmp, a[..], b, n, 0)
    {
      hide *;
      ghost var s := a[..];
      PermSame(s, b, b + n);
      var i := n / 2;
      NoParents(cmp, s, b, n);
      while i > 0
        invariant 0 <= i <= n / 2 && Perm(s, a[..], b, b + n) && Heap(cmp, a[..], b, n, i)
      {
        i := i - 1;
        ghost var t := a[..];
        SiftDown(b, i, n, b + n);
        PermTrans(s, t, a[..], b, b + n);
      }
    }

    method TakeMaxima(b: nat, n: nat)
      requires TotalPreorder(cmp) && b + n <= a.Length && n > 1 && Heap(cmp, a[..], b, n, 0)
      modifies a
      ensures Perm(old(a[..]), a[..], b, b + n) && SortedRange(cmp, a[..], b, b + n)
    {
      hide *;
      ghost var s := a[..];
      PermSame(s, b, b + n);
      var i := n - 1;
      NothingSorted(cmp, a[..], b, n);
      while i > 0
        invariant 0 <= i < n && Perm(s, a[..], b, b + n) && Heap(cmp, a[..], b, i + 1, 0) && HeapSorted(cmp, a[..], b, i + 1, n)
      {
        ghost var t := a[..];
        TakeMax(b, i, n);
        PermTrans(s, t, a[..], b, b + n);
        i := i - 1;
      }
      AllSorted(cmp, a[..], b, n);
    }

    /** The maximum goes to the end, and the rest becomes a heap again. */
    method TakeMax(b: nat, i: nat, n: nat)
      requires TotalPreorder(cmp) && b + n <= a.Length && 0 < i < n
      requires Heap(cmp, a[..], b, i + 1, 0) && HeapSorted(cmp, a[..], b, i + 1, n)
      modifies a
      ensures Perm(old(a[..]), a[..], b, b + n) && Heap(cmp, a[..], b, i, 0) && HeapSorted(cmp, a[..], b, i, n)
    {
      hide *;
      ghost var t := a[..];
      Swap(b, b + i, b, b + n);
      ghost var u := a[..];
      MaxToEnd(cmp, t, u, b, i, n);
      RestIsHeap(cmp, t, u, b, i);
      SiftDown(b, 0, i, b + n);
      PermWiden(u, a[..], b, b + i, b, b + n);
      PermTrans(t, u, a[..], b, b + n);
      StillSorted(cmp, u, a[..], b, i, n);
    }

    // ----- partition -----

    /** med3 */
    method Median(x: nat, y: nat, z: nat) returns (m: nat)
      requires x < a.Length && y < a.Length && z < a.Length
      ensures m == x || m == y || m == z
    {
      if cmp(a[x], a[y]) < 0 {
        m := if cmp(a[y], a[z]) < 0 then y else if cmp(a[x], a[z]) < 0 then z else x;
      } else {
        m := if cmp(a[y], a[z]) > 0 then y else if cmp(a[x], a[z]) < 0 then x else z;
      }
    }

    /** Three-way partition of [b, e) around a median of three. */
    method Partition(b: nat, e: nat) returns (l: nat, g: nat, ghost p: T)
      requires TotalPreorder(cmp) && b + 6 < e <= a.Length
      modifies a
      ensures Perm(old(a[..]), a[..], b, e) && ThreeParts(cmp, a[..], p, b, l, g, e) && l < g
    {
      hide *;
      ghost var s := a[..];
      var m4 := (e - b) / 4;
      var m := Median(b + m4, b + 2 * m4, b + 3 * m4);
      Swap(b, m, b, e);
      PartStart(cmp, a[..], b, e);
      p := a[b];
      var lt: nat, i: nat, j: nat, gt: nat := b + 1, b + 1, e, e;
      while true
        invariant Perm(s, a[..], b, e) && Parted(cmp, a[..], p, b, lt, i, j, gt, e)
        invariant b < lt <= i <= j <= gt <= e
        decreases j - i
      {
        PartedBounds(cmp, a[..], p, b, lt, i, j, gt, e);
        lt, i := ScanLeft(b, lt, i, j, gt, e, p, s);
        var j1;
        j1, gt := ScanRight(b, lt, i, j, gt, e, p, s);
        if i >= j1 {
          PartEnd(cmp, a[..], p, b, lt, i, j1, gt, e);
          break;
        }
        ghost var t := a[..];
        Swap(i, j1, b, e);
        PermTrans(s, t, a[..], b, e);
        PartCross(cmp, t, a[..], p, b, lt, i, j1, gt, e);
        i, j := i + 1, j1;
      }
      PartedBounds(cmp, a[..], p, b, lt, i, i, gt, e);
      ghost var t := a[..];
      l, g := MoveEqual(b, lt, i, gt, e, p);
      PermTrans(s, t, a[..], b, e);
    }

    /** Bring the elements equal to the pivot from both ends to the middle; the smaller span moves. */
    method MoveEqual(b: nat, lt: nat, i: nat, gt: nat, e: nat, ghost p: T) returns (l: nat, g: nat)
      requires Parted(cmp, a[..], p, b, lt, i, i, gt, e) && b < lt <= i <= gt <= e <= a.Length
      modifies a
      ensures Perm(old(a[..]), a[..], b, e) && ThreeParts(cmp, a[..], p, b, l, g, e) && l < g
    {
      hide *;
      ghost var s := a[..];
      var span := if lt - b > i - lt then i - lt else lt - b;
      SwapBlock(b, i - span, span, b, e);
      ghost var t := a[..];
      MoveLeft(cmp, s, t, p, b, lt, i, gt, e, span);
      l := b + (i - lt);
      span := if e - gt > gt - i then gt - i else e - gt;
      SwapBlock(i, e - span, span, b, e);
      PermTrans(s, t, a[..], b, e);
      MoveRight(cmp, t, a[..], p, b, l, i, gt, e, span);
      g := e - (gt - i);
    }

    /** The scan from the left: stops at a greater element. */
    method ScanLeft(b: nat, lt0: nat, i0: nat, j: nat, gt: nat, e: nat, ghost p: T, ghost s: seq<T>) returns (lt: nat, i: nat)
      requires e <= a.Length && Perm(s, a[..], b, e) && Parted(cmp, a[..], p, b, lt0, i0, j, gt, e) && b < lt0 <= i0 <= j <= gt <= e && a[b] == p
      modifies a
      ensures Perm(s, a[..], b, e) && Parted(cmp, a[..], p, b, lt, i, j, gt, e) && a[b] == p
      ensures b < lt <= i <= j && i0 <= i && (i < j ==> cmp(p, a[i]) < 0)
    {
      hide Perm, Parted, Swapped;
      lt, i := lt0, i0;
      while i < j && cmp(a[b], a[i]) >= 0
        invariant Perm(s, a[..], b, e) && Parted(cmp, a[..], p, b, lt, i, j, gt, e) && a[b] == p
        invariant b < lt <= i <= j && i0 <= i
      {
        ghost var t := a[..];
        if cmp(a[b], a[i]) == 0 {
          Swap(lt, i, b, e);
          PermTrans(s, t, a[..], b, e);
          PartLeft(cmp, t, a[..], p, b, lt, i, j, gt, e);
          lt := lt + 1;
        } else {
          PartLeft(cmp, t, t, p, b, lt, i, j, gt, e);
        }
        i := i + 1;
        PartedBounds(cmp, a[..], p, b, lt, i, j, gt, e);
      }
    }

    /** The scan from the right: stops at a smaller element, or when the scans meet. */
    method ScanRight(b: nat, lt: nat, i: nat, j0: nat, gt0: nat, e: nat, ghost p: T, ghost s: seq<T>) returns (j: int, gt: nat)
      requires e <= a.Length && Perm(s, a[..], b, e) && Parted(cmp, a[..], p, b, lt, i, j0, gt0, e)
      requires b < lt <= i <= j0 <= gt0 <= e && a[b] == p && (i < j0 ==> cmp(p, a[i]) < 0)
      modifies a
      ensures 0 <= j + 1 <= j0 && Perm(s, a[..], b, e) && Parted(cmp, a[..], p, b, lt, i, j + 1, gt, e) && a[b] == p
      ensures i <= j + 1 <= gt <= e && (i <= j ==> cmp(p, a[i]) < 0) && (i < j ==> cmp(p, a[j]) > 0)
    {
      hide Perm, Parted, Swapped;
      j, gt := j0 - 1, gt0;
      while i < j && cmp(a[b], a[j]) <= 0
        invariant Perm(s, a[..], b, e) && i <= j + 1 <= j0 && Parted(cmp, a[..], p, b, lt, i, j + 1, gt, e) && a[b] == p
        invariant j + 1 <= gt <= e && (i <= j ==> cmp(p, a[i]) < 0)
      {
        ghost var t := a[..];
        if cmp(a[b], a[j]) == 0 {
          gt := gt - 1;
          Swap(gt, j, b, e);
          PermTrans(s, t, a[..], b, e);
          PartRight(cmp, t, a[..], p, b, lt, i, j, gt + 1, e);
        } else {
          PartRight(cmp, t, t, p, b, lt, i, j, gt, e);
        }
        j := j - 1;
        PartedBounds(cmp, a[..], p, b, lt, i, j + 1, gt, e);
      }
    }

    // ----- the sort -----

    /** rqsort: sorts all n elements. The stack of waiting segments has 50 entries. */
    method RqSort()
      requires TotalPreorder(cmp)
      modifies a
      ensures Perm(old(a[..]), a[..], 0, a.Length) && SortedRange(cmp, a[..], 0, a.Length)
    {
      hide *;
      ghost var s := a[..];
      PermSame(s, 0, a.Length);
      if a.Length < 2 {
        FewSorted(cmp, a[..], 0, a.Length);
        return;
      }
      var stack := new Segment[50](_ => Segment(0, 0, 0));
      stack[0] := Segment(0, a.Length, 0);
      var sp: nat := 1;
      assert stack[..1] == [Segment(0, a.Length, 0)];
      StartPending(cmp, a[..]);
      while sp > 0
        invariant sp <= stack.Length == 50 && fresh(stack)
        invariant Perm(s, a[..], 0, a.Length) && Pending(cmp, a[..], stack[..sp]) && DepthsFit(stack[..sp])
        decreases Work(stack[..sp])
      {
        assert stack[..sp] == stack[..sp - 1] + [stack[sp - 1]];
        sp := SortSegment(stack, sp - 1, s);
      }
      assert stack[..0] == [];
      PendingNone(cmp, a[..]);
    }

    /** Partition a segment until it is small, leaving the larger part for later each time, then
      * finish it. */
    method SortSegment(stack: array<Segment>, sp0: nat, ghost s: seq<T>) returns (sp: nat)
      requires TotalPreorder(cmp) && sp0 < stack.Length == 50 && (a as object) != (stack as object)
      requires Perm(s, a[..], 0, a.Length) && Pending(cmp, a[..], stack[..sp0] + [stack[sp0]]) && DepthsFit(stack[..sp0] + [stack[sp0]])
      modifies a, stack
      ensures sp <= stack.Length && Perm(s, a[..], 0, a.Length) && Pending(cmp, a[..], stack[..sp]) && DepthsFit(stack[..sp])
      ensures Work(stack[..sp]) < old(Work(stack[..sp0] + [stack[sp0]]))
    {
      hide *;
      sp := sp0;
      ghost var all := stack[..sp] + [stack[sp]];
      var ptr: nat, nmemb: nat, depth: nat := stack[sp].base, stack[sp].count, stack[sp].depth;
      assert stack[sp] == Segment(ptr, nmemb, depth);
      TopFacts(cmp, a[..], stack[..sp], Segment(ptr, nmemb, depth));
      while nmemb > 6
        invariant sp <= depth <= 50 == stack.Length && ptr + nmemb <= a.Length
        invariant Perm(s, a[..], 0, a.Length) && Pending(cmp, a[..], stack[..sp] + [Segment(ptr, nmemb, depth)]) && DepthsFit(stack[..sp])
        invariant Work(stack[..sp] + [Segment(ptr, nmemb, depth)]) <= Work(all)
        decreases nmemb
      {
        ghost var t, below, cur := a[..], stack[..sp], Segment(ptr, nmemb, depth);
        depth := depth + 1;
        if depth > 50 {
          HeapSort(ptr, nmemb);
          Finish(cmp, t, a[..], s, below, cur);
          return;
        }
        var l, g, p := Partition(ptr, ptr + nmemb);
        SplitSegment(cmp, t, a[..], s, below, cur, depth, p, l, g);
        var low, high := Segment(ptr, l - ptr, depth), Segment(g, ptr + nmemb - g, depth);
        if low.count > high.count {
          stack[sp] := low;
          ptr, nmemb := high.base, high.count;
        } else {
          stack[sp] := high;
          nmemb := low.count;
        }
        assert stack[..sp + 1] == below + [stack[sp]];
        sp := sp + 1;
      }
      ghost var t := a[..];
      InsertionSort(ptr, ptr + nmemb);
      Finish(cmp, t, a[..], s, stack[..sp], Segment(ptr, nmemb, depth));
    }
  }

  // ----- the stack of segments -----

  datatype Segment = Segment(base: nat, count: nat, depth: nat)

  predicate Covers(g: Segment, x: nat) { g.base <= x < g.base + g.count }

  predicate Apart(g: Segment, h: Segment) { g.base + g.count <= h.base || h.base + h.count <= g.base }

  /** Do x and y lie in the same waiting segment? */
  predicate Together(stack: seq<Segment>, x: nat, y: nat) {
    exists k :: 0 <= k < |stack| && Covers(stack[k], x) && Covers(stack[k], y)
  }

  /** The segments do not overlap, and elements that are not in the same segment are in order. */
  ghost predicate Pending<T>(cmp: (T, T) -> int, s: seq<T>, stack: seq<Segment>) {
    && (forall k :: 0 <= k < |stack| ==> stack[k].base + stack[k].count <= |s|)
    && (forall k, l :: 0 <= k < l < |stack| ==> Apart(stack[k], stack[l]))
    && (forall x, y :: 0 <= x < y < |s| && !Together(stack, x, y) ==> cmp(s[x], s[y]) <= 0)
  }

  /** Entry k was pushed at depth k or deeper, and never deeper than 50. */
  predicate DepthsFit(stack: seq<Segment>) {
    forall k :: 0 <= k < |stack| ==> k <= stack[k].depth <= 50
  }

  /** Decreases with every segment taken off. */
  function Work(stack: seq<Segment>): nat {
    if stack == [] then 0 else Work(stack[..|stack| - 1]) + 2 * stack[|stack| - 1].count + 1
  }

  lemma WorkPush(stack: seq<Segment>, g: Segment)
    ensures Work(stack + [g]) == Work(stack) + 2 * g.count + 1
  {
    assert (stack + [g])[..|stack|] == stack;
  }

  lemma StartPending<T>(cmp: (T, T) -> int, s: seq<T>)
    ensures Pending(cmp, s, [Segment(0, |s|, 0)]) && DepthsFit([Segment(0, |s|, 0)])
  {
    var g := Segment(0, |s|, 0);
    forall x: nat, y: nat | x < y < |s| ensures Together([g], x, y) {
      assert Covers([g][0], x) && Covers([g][0], y);
    }
  }

  lemma PendingNone<T>(cmp: (T, T) -> int, s: seq<T>)
    requires Pending(cmp, s, [])
    ensures SortedRange(cmp, s, 0, |s|)
  {
    forall x: nat, y: nat | x < y < |s| ensures cmp(s[x], s[y]) <= 0 {
      assert !Together([], x, y);
    }
  }

  lemma TopFacts<T>(cmp: (T, T) -> int, s: seq<T>, stack: seq<Segment>, g: Segment)
    requires Pending(cmp, s, stack + [g]) && DepthsFit(stack + [g])
    ensures g.base + g.count <= |s| && DepthsFit(stack) && |stack| <= g.depth <= 50
  {
    var all := stack + [g];
    assert all[|stack|] == g;
    forall k | 0 <= k < |stack| ensures k <= stack[k].depth <= 50 { assert all[k] == stack[k]; }
  }

  lemma TogetherConcat(a: seq<Segment>, b: seq<Segment>, x: nat, y: nat)
    ensures Together(a + b, x, y) <==> Together(a, x, y) || Together(b, x, y)
  {
    if k :| 0 <= k < |a + b| && Covers((a + b)[k], x) && Covers((a + b)[k], y) {
      if k < |a| { assert Covers(a[k], x); } else { assert Covers(b[k - |a|], x); }
    }
    if k :| 0 <= k < |a| && Covers(a[k], x) && Covers(a[k], y) { assert Covers((a + b)[k], x); }
    if k :| 0 <= k < |b| && Covers(b[k], x) && Covers(b[k], y) { assert Covers((a + b)[|a| + k], x); }
  }

  /** Replacing the top segment by parts of it, after rearranging it so that only elements of the
    * same part can be out of order. */
  lemma Refine<T>(cmp: (T, T) -> int, t: seq<T>, u: seq<T>, stack: seq<Segment>, cur: Segment, parts: seq<Segment>)
    requires Pending(cmp, t, stack + [cur]) && Perm(t, u, cur.base, cur.base + cur.count)
    requires forall k :: 0 <= k < |parts| ==> cur.base <= parts[k].base && parts[k].base + parts[k].count <= cur.base + cur.count
    requires forall k, l :: 0 <= k < l < |parts| ==> Apart(parts[k], parts[l])
    requires forall x, y :: cur.base <= x < y < cur.base + cur.count && !Together(parts, x, y) ==> cmp(u[x], u[y]) <= 0
    ensures Pending(cmp, u, stack + parts)
  {
    hide Perm;
    var all, new' := stack + [cur], stack + parts;
    PermLength(t, u, cur.base, cur.base + cur.count);
    assert all[|stack|] == cur;
    assert forall k :: 0 <= k < |stack| ==> all[k] == stack[k] && new'[k] == stack[k];
    forall k, l | 0 <= k < l < |new'| ensures Apart(new'[k], new'[l]) {
      if l < |stack| {
        assert Apart(all[k], all[l]);
      } else if k < |stack| {
        assert Apart(all[k], all[|stack|]);
        assert new'[l] == parts[l - |stack|];
      } else {
        assert Apart(parts[k - |stack|], parts[l - |stack|]);
      }
    }
    forall k | 0 <= k < |new'| ensures new'[k].base + new'[k].count <= |u| {
      if k < |stack| { assert all[k] == new'[k]; } else { assert new'[k] == parts[k - |stack|]; }
    }
    forall x: nat, y: nat | x < y < |u| && !Together(new', x, y) ensures cmp(u[x], u[y]) <= 0 {
      TogetherConcat(stack, parts, x, y);
      if !(Covers(cur, x) && Covers(cur, y)) { Outside(cmp, t, u, stack, cur, x, y); }
    }
  }

  lemma PermLength<T>(s: seq<T>, t: seq<T>, lo: nat, hi: nat)
    requires Perm(s, t, lo, hi)
    ensures |s| == |t| && lo <= hi <= |s|
  {
  }

  /** Two elements not both in the segment worked on: in order before, in order now. */
  lemma Outside<T>(cmp: (T, T) -> int, t: seq<T>, u: seq<T>, stack: seq<Segment>, cur: Segment, x: nat, y: nat)
    requires Pending(cmp, t, stack + [cur]) && Perm(t, u, cur.base, cur.base + cur.count)
    requires x < y < |u| && !Together(stack, x, y) && !(Covers(cur, x) && Covers(cur, y))
    ensures cmp(u[x], u[y]) <= 0
  {
    var all := stack + [cur];
    var x', y' := x, y;
    if Covers(cur, x) { x' := PermFrom(t, u, cur.base, cur.base + cur.count, x); }
    if Covers(cur, y) { y' := PermFrom(t, u, cur.base, cur.base + cur.count, y); }
    TogetherConcat(stack, [cur], x', y');
    TogetherOne(cur, x', y');
    if Covers(cur, x) { OnlyCur(cmp, t, stack, cur, x'); }
    if Covers(cur, y) { OnlyCur(cmp, t, stack, cur, y'); }
    assert !Together(all, x', y');
  }

  lemma TogetherOne(g: Segment, x: nat, y: nat)
    ensures Together([g], x, y) <==> Covers(g, x) && Covers(g, y)
  {
    assert [g][0] == g;
  }

  /** What the top segment covers, no other does. */
  lemma OnlyCur<T>(cmp: (T, T) -> int, s: seq<T>, stack: seq<Segment>, cur: Segment, x: nat)
    requires Pending(cmp, s, stack + [cur]) && Covers(cur, x)
    ensures forall k :: 0 <= k < |stack| ==> !Covers(stack[k], x)
  {
    var all := stack + [cur];
    forall k | 0 <= k < |stack| ensures !Covers(stack[k], x) {
      assert all[k] == stack[k] && all[|stack|] == cur && Apart(all[k], all[|stack|]);
    }
  }

  /** The segment is sorted: it is done. */
  lemma Finish<T>(cmp: (T, T) -> int, t: seq<T>, u: seq<T>, s: seq<T>, stack: seq<Segment>, cur: Segment)
    requires Pending(cmp, t, stack + [cur]) && Perm(t, u, cur.base, cur.base + cur.count) && Perm(s, t, 0, |t|)
    requires SortedRange(cmp, u, cur.base, cur.base + cur.count)
    ensures Pending(cmp, u, stack) && Perm(s, u, 0, |u|) && Work(stack) < Work(stack + [cur])
  {
    hide Pending, Perm, Work;
    PermLength(t, u, cur.base, cur.base + cur.count);
    Refine(cmp, t, u, stack, cur, []);
    assert stack + [] == stack;
    PermWiden(t, u, cur.base, cur.base + cur.count, 0, |t|);
    PermTrans(s, t, u, 0, |t|);
    WorkPush(stack, cur);
  }

  /** Partitioned: two smaller segments instead, in either order. */
  lemma SplitSegment<T(!new)>(cmp: (T, T) -> int, t: seq<T>, u: seq<T>, s: seq<T>, stack: seq<Segment>, cur: Segment, depth: nat, p: T, l: nat, g: nat)
    requires TotalPreorder(cmp) && Pending(cmp, t, stack + [cur]) && Perm(t, u, cur.base, cur.base + cur.count) && Perm(s, t, 0, |t|)
    requires ThreeParts(cmp, u, p, cur.base, l, g, cur.base + cur.count) && l < g
    requires DepthsFit(stack) && |stack| < depth <= 50
    ensures cur.base <= l && g <= cur.base + cur.count <= |u| && Perm(s, u, 0, |u|)
    ensures var low, high := Segment(cur.base, l - cur.base, depth), Segment(g, cur.base + cur.count - g, depth);
      && Pending(cmp, u, stack + [low] + [high]) && Pending(cmp, u, stack + [high] + [low])
      && DepthsFit(stack + [low]) && DepthsFit(stack + [high])
      && Work(stack + [low] + [high]) <= Work(stack + [cur]) && Work(stack + [high] + [low]) <= Work(stack + [cur])
  {
    hide Pending, Perm, Work, TotalPreorder;
    PermLength(t, u, cur.base, cur.base + cur.count);
    PartBounds(cmp, u, p, cur.base, l, g, cur.base + cur.count);
    var low, high := Segment(cur.base, l - cur.base, depth), Segment(g, cur.base + cur.count - g, depth);
    ThreeIsSorted(cmp, u, p, cur.base, l, g, cur.base + cur.count);
    PartsTogether(low, high);
    Refine(cmp, t, u, stack, cur, [low, high]);
    Refine(cmp, t, u, stack, cur, [high, low]);
    assert stack + [low, high] == stack + [low] + [high] && stack + [high, low] == stack + [high] + [low];
    PermWiden(t, u, cur.base, cur.base + cur.count, 0, |t|);
    PermTrans(s, t, u, 0, |t|);
    WorkPush(stack, cur);
    WorkPush(stack, low);
    WorkPush(stack, high);
    WorkPush(stack + [low], high);
    WorkPush(stack + [high], low);
  }

  lemma PartBounds<T>(cmp: (T, T) -> int, s: seq<T>, p: T, b: nat, l: nat, g: nat, e: nat)
    requires ThreeParts(cmp, s, p, b, l, g, e)
    ensures b <= l <= g <= e <= |s|
  {
  }

  lemma PartsTogether(low: Segment, high: Segment)
    ensures forall x: nat, y: nat :: Covers(low, x) && Covers(low, y) ==> Together([low, high], x, y) && Together([high, low], x, y)
    ensures forall x: nat, y: nat :: Covers(high, x) && Covers(high, y) ==> Together([low, high], x, y) && Together([high, low], x, y)
  {
    forall x: nat, y: nat | Covers(low, x) && Covers(low, y) ensures Together([low, high], x, y) && Together([high, low], x, y) {
      assert Covers([low, high][0], x) && Covers([high, low][1], x);
    }
    forall x: nat, y: nat | Covers(high, x) && Covers(high, y) ensures Together([low, high], x, y) && Together([high, low], x, y) {
      assert Covers([low, high][1], x) && Covers([high, low][0], x);
    }
  }

  lemma PartedBounds<T>(cmp: (T, T) -> int, s: seq<T>, p: T, b: nat, lt: nat, i: nat, j: nat, gt: nat, e: nat)
    requires Parted(cmp, s, p, b, lt, i, j, gt, e)
    ensures b < lt <= i <= j <= gt <= e <= |s| && s[b] == p
  {
  }
}