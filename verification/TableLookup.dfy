/** Compressed character tables: a linear decoder, and a lookup that starts from a block index. */
module TableLookup {
  import opened CharSets

  type Byte = x: int | 0 <= x < 256

  const BLOCK: nat := 32
  const CODE_SPAN: nat := 0x20_0000

  // ----- what a table means -----

  function U8(t: seq<Byte>, i: nat): nat
    requires i < |t|
  {
    t[i]
  }

  /** Bytes of the entry whose first byte is b. */
  function EntrySize(b: Byte): nat { if b < 0x40 || b >= 0x80 then 1 else if b < 0x60 then 2 else 3 }

  /** Every entry from p on is complete. */
  predicate Complete(t: seq<Byte>, p: nat)
    decreases |t| - p
  {
    p == |t| || (p + 1 <= |t| && p + EntrySize(t[p]) <= |t| && Complete(t, p + EntrySize(t[p])))
  }

  /** Run lengths of the entry at p: two packed ones, or one of 7, 13 or 21 bits. */
  function EntryRuns(t: seq<Byte>, p: nat): seq<nat>
    requires p < |t| && p + EntrySize(t[p]) <= |t|
  {
    var b := U8(t, p);
    if b < 0x40 then [b / 8 + 1, b % 8 + 1]
    else if b >= 0x80 then [b - 0x80 + 1]
    else if b < 0x60 then [(b - 0x40) * 256 + U8(t, p + 1) + 1]
    else [(b - 0x60) * 65536 + U8(t, p + 1) * 256 + U8(t, p + 2) + 1]
  }

  /** All run lengths from p on. */
  function Runs(t: seq<Byte>, p: nat): seq<nat>
    requires Complete(t, p)
    decreases |t| - p
  {
    if p == |t| then [] else EntryRuns(t, p) + Runs(t, p + EntrySize(t[p]))
  }

  function Sum(r: seq<nat>): nat {
    if r == [] then 0 else r[0] + Sum(r[1..])
  }

  /** Runs alternate between absent and present, beginning with absent: c lies in run number k. */
  predicate InRun(r: seq<nat>, k: nat, c: nat) {
    k < |r| && Sum(r[..k]) <= c < Sum(r[..k + 1])
  }

  ghost predicate InRuns(r: seq<nat>, c: nat) {
    exists k: nat :: k % 2 == 1 && InRun(r, k, c)
  }

  // ----- the linear decoder -----

  /** Boundary points of the present runs of r, the first one beginning at code. */
  function RunPoints(r: seq<nat>, code: nat, bit: bool): seq<nat> {
    if r == [] then []
    else (if bit then [code, code + r[0]] else []) + RunPoints(r[1..], code + r[0], !bit)
  }

  lemma {:induction false} RunPointsCanonical(r: seq<nat>, code: nat, bit: bool)
    requires forall k :: 0 <= k < |r| ==> r[k] > 0
    ensures Canonical(RunPoints(r, code, bit))
    ensures forall i :: 0 <= i < |RunPoints(r, code, bit)| ==> code <= RunPoints(r, code, bit)[i]
    ensures !bit ==> forall i :: 0 <= i < |RunPoints(r, code, bit)| ==> code < RunPoints(r, code, bit)[i]
  {
    if r != [] { RunPointsCanonical(r[1..], code + r[0], !bit); }
  }

  lemma {:induction false} SumConcat(a: seq<nat>, b: seq<nat>)
    ensures Sum(a + b) == Sum(a) + Sum(b)
  {
    if a == [] {
      assert a + b == b;
    } else {
      assert (a + b)[1..] == a[1..] + b;
      SumConcat(a[1..], b);
    }
  }

  lemma SumTail(r: seq<nat>, k: nat)
    requires 0 < k <= |r|
    ensures Sum(r[..k]) == r[0] + Sum(r[1..][..k - 1])
  {
    assert r[..k] == [r[0]] + r[1..][..k - 1];
  }

  lemma SumNone(r: seq<nat>)
    ensures Sum(r[..0]) == 0
  {
  }

  lemma LaterRun(r: seq<nat>, k: nat, c: int)
    requires r != []
    ensures c >= 0 && k > 0 ==> (InRun(r, k, c) <==> c >= r[0] && InRun(r[1..], k - 1, c - r[0]))
    ensures c >= 0 ==> (InRun(r, 0, c) <==> c < r[0])
  {
    if 0 < k < |r| { SumTail(r, k); SumTail(r, k + 1); }
    SumTail(r, 1);
    SumNone(r[1..]);
  }

  lemma HeadMember(bit: bool, code: nat, end: nat, c: nat)
    requires code <= end
    ensures In(if bit then [code, end] else [], c) == (bit && code <= c < end)
  {
    if bit {
      CountOne(code, c);
      CountSnoc([code], end, c);
      assert [code, end] == [code] + [end];
    }
  }

  lemma InConcat(a: seq<nat>, b: seq<nat>, c: nat)
    ensures In(a + b, c) == (In(a, c) != In(b, c))
  {
    CountConcat(a, b, c);
  }

  /** c is among the points exactly when it lies in a present run. */
  lemma {:induction false} RunPointsMembers(r: seq<nat>, code: nat, bit: bool, c: nat)
    ensures In(RunPoints(r, code, bit), c) <==> exists k: nat :: (k % 2 == 1) != bit && code <= c && InRun(r, k, c - code)
  {
    hide In, InRun;
    if r == [] {
      NoRun(code, bit, c);
    } else {
      var head, tail, rest := if bit then [code, code + r[0]] else [], RunPoints(r[1..], code + r[0], !bit), code + r[0];
      InConcat(head, tail, c);
      HeadMember(bit, code, rest, c);
      RunPointsMembers(r[1..], rest, !bit, c);
      if In(head, c) {
        LaterRun(r, 0, c - code);
        assert (0 % 2 == 1) != bit && InRun(r, 0, c - code);
        assert !(rest <= c);
      }
      if k: nat :| (k % 2 == 1) != bit && code <= c && InRun(r, k, c - code) {
        LaterRun(r, k, c - code);
        if k > 0 {
          var before := k - 1;
          assert rest <= c && (before % 2 == 1) != !bit && InRun(r[1..], before, c - rest);
        }
      }
      if k: nat :| (k % 2 == 1) != !bit && rest <= c && InRun(r[1..], k, c - rest) {
        LaterRun(r, k + 1, c - code);
        var after := k + 1;
        assert (after % 2 == 1) != bit && InRun(r, after, c - code);
      }
    }
  }

  lemma NoRun(code: nat, bit: bool, c: nat)
    ensures !In(RunPoints([], code, bit), c)
    ensures !exists k: nat :: (k % 2 == 1) != bit && code <= c && InRun([], k, c - code)
  {
  }

  /** Encoded runs are never empty. */
  lemma {:induction false} RunsPositive(t: seq<Byte>, p: nat)
    requires Complete(t, p)
    ensures forall k :: 0 <= k < |Runs(t, p)| ==> Runs(t, p)[k] > 0
    decreases |t| - p
  {
    if p < |t| { RunsPositive(t, p + EntrySize(t[p])); }
  }

  lemma RunPointsOne(a: nat, r: seq<nat>, code: nat, bit: bool)
    ensures RunPoints([a] + r, code, bit) == (if bit then [code, code + a] else []) + RunPoints(r, code + a, !bit)
  {
    assert ([a] + r)[1..] == r;
  }

  lemma EntryPoints(t: seq<Byte>, p: nat, code: nat, bit: bool)
    requires p < |t| && Complete(t, p)
    ensures t[p] < 0x40 ==> (var mid, end := code + U8(t, p) / 8 + 1, code + U8(t, p) / 8 + 1 + U8(t, p) % 8 + 1;
      RunPoints(Runs(t, p), code, bit) == (if bit then [code, mid] else []) + ((if bit then [] else [mid, end]) + RunPoints(Runs(t, p + 1), end, bit)))
    ensures t[p] >= 0x40 ==> (var next := code + EntryRuns(t, p)[0];
      RunPoints(Runs(t, p), code, bit) == (if bit then [code, next] else []) + RunPoints(Runs(t, p + EntrySize(t[p])), next, !bit))
  {
    hide RunPoints;
    var e, rest := EntryRuns(t, p), Runs(t, p + EntrySize(t[p]));
    if t[p] < 0x40 {
      assert e + rest == [e[0]] + ([e[1]] + rest);
      RunPointsOne(e[0], [e[1]] + rest, code, bit);
      RunPointsOne(e[1], rest, code + e[0], !bit);
    } else {
      assert e == [e[0]];
      RunPointsOne(e[0], rest, code, bit);
    }
  }

  /** unicode_prop1: appends the present ranges of the table. */
  method UnicodeProp1(cr: CharRange, t: seq<Byte>)
    requires Complete(t, 0)
    modifies cr
    ensures cr.points == old(cr.points) + RunPoints(Runs(t, 0), 0, false)
  {
    hide RunPoints, Runs;
    var p: nat, c: nat, bit := 0, 0, false;
    while p < |t|
      invariant p <= |t| && Complete(t, p)
      invariant cr.points + RunPoints(Runs(t, p), c, bit) == old(cr.points) + RunPoints(Runs(t, 0), 0, false)
      decreases |t| - p
    {
      EntryPoints(t, p, c, bit);
      ghost var was := cr.points;
      ghost var more := RunPoints(Runs(t, p), c, bit);
      var c0, b := c, U8(t, p);
      p := p + 1;
      if b < 0x40 {
        c := c + b / 8 + 1;
        if bit { cr.AddInterval(c0, c); }
        bit := !bit;
        c0 := c;
        c := c + b % 8 + 1;
      } else if b >= 0x80 {
        c := c + b - 0x80 + 1;
      } else if b < 0x60 {
        c := c + (b - 0x40) * 256 + U8(t, p) + 1;
        p := p + 1;
      } else {
        c := c + (b - 0x60) * 65536 + U8(t, p) * 256 + U8(t, p + 1) + 1;
        p := p + 2;
      }
      if bit { cr.AddInterval(c0, c); }
      bit := !bit;
      assert cr.points + RunPoints(Runs(t, p), c, bit) == was + more;
    }
    NoMorePoints(t, c, bit);
  }

  lemma NoMorePoints(t: seq<Byte>, code: nat, bit: bool)
    ensures Complete(t, |t|) && RunPoints(Runs(t, |t|), code, bit) == []
  {
  }

  // ----- indexed lookup -----

  /** A scan from the beginning has passed n runs, reached byte p, and the next run begins at code. */
  ghost predicate Walked(t: seq<Byte>, p: nat, n: nat, code: nat) {
    && p <= |t| && Complete(t, 0) && Complete(t, p)
    && var r := Runs(t, 0); n <= |r| && r[n..] == Runs(t, p) && Sum(r[..n]) == code
  }

  /** Entry k of an index: the code in the low 21 bits, the byte offset within block k + 1 above. */
  function IndexEntry(index: seq<Byte>, k: nat): nat
    requires 3 * k + 2 < |index|
  {
    U8(index, 3 * k) + U8(index, 3 * k + 1) * 0x100 + U8(index, 3 * k + 2) * 0x10000
  }

  /** Three bytes of the index hold a code of 21 bits and an offset of 3, low byte first. */
  lemma IndexLayout(index: seq<Byte>, k: nat, code: nat, offset: nat)
    requires 3 * k + 2 < |index| && code < 0x20_0000 && offset < 8
    requires index[3 * k] == code % 0x100 && index[3 * k + 1] == code / 0x100 % 0x100 && index[3 * k + 2] == offset * 0x20 + code / 0x10000
    ensures IndexEntry(index, k) % 0x20_0000 == code && IndexEntry(index, k) / 0x20_0000 == offset
  {
    assert code == code % 0x100 + code / 0x100 % 0x100 * 0x100 + code / 0x10000 * 0x10000;
  }

  /** A block starts at a byte boundary where the run bit is 0, and at its recorded code. */
  ghost predicate BlockStart(t: seq<Byte>, v: nat, k: nat) {
    exists n: nat :: n % 2 == 0 && Walked(t, (k + 1) * 32 + v / 0x20_0000, n, v % 0x20_0000)
  }

  /** The last entry is an upper bound: no member reaches it, and the runs do. */
  ghost predicate ValidIndex(t: seq<Byte>, index: seq<Byte>, len: nat) {
    && len > 0 && |index| == 3 * len && Complete(t, 0)
    && (forall k :: 0 <= k < len - 1 ==> BlockStart(t, IndexEntry(index, k), k))
    && var bound := IndexEntry(index, len - 1);
       bound < 0x20_0000 && bound <= Sum(Runs(t, 0)) && forall c: nat :: InRuns(Runs(t, 0), c) ==> c < bound
  }

  lemma WalkStart(t: seq<Byte>)
    requires Complete(t, 0)
    ensures Walked(t, 0, 0, 0)
  {
  }

  lemma PrefixSum(r: seq<nat>, n: nat)
    requires n <= |r|
    ensures Sum(r[..n]) <= Sum(r)
  {
    assert r == r[..n] + r[n..];
    SumConcat(r[..n], r[n..]);
  }

  lemma FirstBelow(t: seq<Byte>, index: seq<Byte>, len: nat, c: nat)
    requires ValidIndex(t, index, len) && c < IndexEntry(index, 0) % CODE_SPAN
    ensures c < Sum(Runs(t, 0))
  {
    if len > 1 {
      var v := IndexEntry(index, 0);
      assert BlockStart(t, v, 0);
      var n: nat :| n % 2 == 0 && Walked(t, BLOCK + v / CODE_SPAN, n, v % CODE_SPAN);
      PrefixSum(Runs(t, 0), n);
    }
  }

  /** get_index_pos: a byte boundary from which a scan reaches c, or None past the upper bound. */
  method GetIndexPos(c: nat, index: seq<Byte>, len: nat, ghost t: seq<Byte>) returns (pos: int, code: nat, ghost n: nat)
    requires ValidIndex(t, index, len)
    ensures pos < 0 ==> pos == -1 && !InRuns(Runs(t, 0), c)
    ensures pos >= 0 ==> n % 2 == 0 && Walked(t, pos, n, code) && code <= c < Sum(Runs(t, 0))
  {
    hide Walked, InRuns;
    var idxMin := 0;
    var v := IndexEntry(index, 0);
    code := v % CODE_SPAN;
    if c < code {
      WalkStart(t);
      FirstBelow(t, index, len, c);
      return 0, 0, 0;
    }
    var idxMax := len - 1;
    code := IndexEntry(index, idxMax);
    if c >= code { return -1, code, 0; }
    while idxMax - idxMin > 1
      invariant 0 <= idxMin < idxMax < len && IndexEntry(index, idxMin) % CODE_SPAN <= c < Sum(Runs(t, 0))
      decreases idxMax - idxMin
    {
      var idx := (idxMax + idxMin) / 2;
      v := IndexEntry(index, idx);
      code := v % CODE_SPAN;
      if c < code { idxMax := idx; } else { idxMin := idx; }
    }
    v := IndexEntry(index, idxMin);
    code := v % CODE_SPAN;
    assert BlockStart(t, v, idxMin);
    n :| n % 2 == 0 && Walked(t, (idxMin + 1) * BLOCK + v / CODE_SPAN, n, v % CODE_SPAN);
    pos := (idxMin + 1) * BLOCK + v / CODE_SPAN;
  }

  // ----- the scan from a block -----

  /** One more run of length a has been passed. */
  lemma WalkRun(r: seq<nat>, n: nat, a: nat, rest: seq<nat>, c: nat)
    requires n <= |r| && r[n..] == [a] + rest && Sum(r[..n]) <= c
    ensures n + 1 <= |r| && r[n + 1..] == rest && Sum(r[..n + 1]) == Sum(r[..n]) + a
    ensures c < Sum(r[..n + 1]) ==> (InRuns(r, c) <==> n % 2 == 1)
  {
    hide Sum;
    assert r[n + 1..] == r[n..][1..];
    assert r[..n + 1] == r[..n] + [a];
    SumConcat(r[..n], [a]);
    SumOne(a);
    if c < Sum(r[..n + 1]) {
      assert InRun(r, n, c);
      if k: nat :| k % 2 == 1 && InRun(r, k, c) { OnlyRun(r, n, k, c); }
    }
  }

  lemma SumOne(a: nat)
    ensures Sum([a]) == a
  {
  }

  lemma SumsGrow(r: seq<nat>, i: nat, k: nat)
    ensures i <= k <= |r| ==> Sum(r[..i]) <= Sum(r[..k])
  {
    if i <= k <= |r| {
      PrefixSum(r[..k], i);
      assert r[..k][..i] == r[..i];
    }
  }

  /** A character lies in one run. */
  lemma OnlyRun(r: seq<nat>, i: nat, k: nat, c: nat)
    requires InRun(r, i, c) && InRun(r, k, c)
    ensures i == k
  {
    hide Sum;
    SumsGrow(r, i + 1, k);
    SumsGrow(r, k + 1, i);
  }

  /** Before the end of the runs there is a byte to read. */
  lemma WalkMore(t: seq<Byte>, p: nat, n: nat, code: nat)
    requires Walked(t, p, n, code) && code < Sum(Runs(t, 0))
    ensures p < |t| && p + EntrySize(t[p]) <= |t| && Complete(t, p + EntrySize(t[p]))
    ensures Runs(t, p) == EntryRuns(t, p) + Runs(t, p + EntrySize(t[p]))
  {
    var r := Runs(t, 0);
    assert r[..|r|] == r;
  }

  /** One entry: where its runs end, and what they decide about c. */
  lemma WalkEntry(t: seq<Byte>, p: nat, n: nat, code: nat, c: nat)
    requires Walked(t, p, n, code) && code <= c < Sum(Runs(t, 0))
    ensures p < |t| && p + EntrySize(t[p]) <= |t|
    ensures (var e := EntryRuns(t, p);
      && (c < code + e[0] ==> (InRuns(Runs(t, 0), c) <==> n % 2 == 1))
      && (code + e[0] <= c && |e| == 1 ==> Walked(t, p + EntrySize(t[p]), n + 1, code + e[0]))
      && (code + e[0] <= c && |e| == 2 && c < code + e[0] + e[1] ==> (InRuns(Runs(t, 0), c) <==> n % 2 == 0))
      && (|e| == 2 && code + e[0] + e[1] <= c ==> Walked(t, p + EntrySize(t[p]), n + 2, code + e[0] + e[1])))
  {
    hide Sum, Runs, InRuns;
    WalkMore(t, p, n, code);
    var r, e, rest := Runs(t, 0), EntryRuns(t, p), Runs(t, p + EntrySize(t[p]));
    if |e| == 1 {
      assert e == [e[0]];
      WalkRun(r, n, e[0], rest, c);
    } else {
      assert e + rest == [e[0]] + ([e[1]] + rest);
      WalkRun(r, n, e[0], [e[1]] + rest, c);
      if code + e[0] <= c { WalkRun(r, n + 1, e[1], rest, c); }
    }
  }

  /** lre_is_in_table: the lookup accepts exactly the members of the table. */
  method LreIsInTable(c: nat, t: seq<Byte>, index: seq<Byte>, len: nat) returns (r: bool)
    requires ValidIndex(t, index, len)
    ensures r <==> InRuns(Runs(t, 0), c)
  {
    hide Walked, InRuns, Runs, ValidIndex;
    ghost var n: nat;
    IndexedComplete(t, index, len);
    var pos: int;
    var code: nat;
    pos, code, n := GetIndexPos(c, index, len, t);
    if pos < 0 { return false; }
    var p: nat, bit := pos, false;
    while true
      invariant Walked(t, p, n, code) && bit == (n % 2 == 1) && code <= c < Sum(Runs(t, 0))
      decreases |t| - p
    {
      WalkEntry(t, p, n, code, c);
      var b := U8(t, p);
      p := p + 1;
      if b < 0x40 {
        code := code + b / 8 + 1;
        if c < code { return bit; }
        bit := !bit;
        n := n + 1;
        code := code + b % 8 + 1;
      } else if b >= 0x80 {
        code := code + b - 0x80 + 1;
      } else if b < 0x60 {
        code := code + (b - 0x40) * 256 + U8(t, p) + 1;
        p := p + 1;
      } else {
        code := code + (b - 0x60) * 65536 + U8(t, p) * 256 + U8(t, p + 1) + 1;
        p := p + 2;
      }
      if c < code { return bit; }
      bit := !bit;
      n := n + 1;
    }
  }

  /** The indexed lookup refines the linear decoder: both describe the same, canonical, set. */
  lemma LookupRefinesDecoder(t: seq<Byte>, c: nat)
    requires Complete(t, 0)
    ensures var points := RunPoints(Runs(t, 0), 0, false); Canonical(points) && (In(points, c) <==> InRuns(Runs(t, 0), c))
  {
    hide In, Runs, RunPoints, InRun, Canonical;
    RunsPositive(t, 0);
    RunPointsCanonical(Runs(t, 0), 0, false);
    RunPointsMembers(Runs(t, 0), 0, false, c);
    assert InRuns(Runs(t, 0), c) <==> exists k: nat :: (k % 2 == 1) != false && 0 <= c && InRun(Runs(t, 0), k, c - 0);
  }

  lemma IndexedComplete(t: seq<Byte>, index: seq<Byte>, len: nat)
    requires ValidIndex(t, index, len)
    ensures Complete(t, 0)
  {
  }
}
