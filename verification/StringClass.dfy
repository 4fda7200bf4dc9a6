/** Character classes that contain strings: the members are written as alternatives, the longest first, and the
  * jumps over the remaining alternatives are chained through their operands until the end is known. */
module StringClass {
  import opened Wrappers
  import opened RegexSyntax
  import opened Bytecode
  import opened Emit
  import opened Compiler
  import opened RegisterScan
  import opened RqSort

  // ----- the pattern that a class with strings stands for -----

  function StringNode(s: seq<nat>, icase: bool): Node {
    if s == [] then Empty else Cat(StringNode(s[..|s| - 1], icase), Single(Literal(s[|s| - 1], icase)))
  }

  /** After the strings: the one-character members, then the empty string. */
  function TailNode(points: seq<nat>, hasEmpty: bool, icase: bool): Node {
    if points == [] then Empty
    else if hasEmpty then Quant(Single(Class(points, icase)), 0, 1, true)
    else Single(Class(points, icase))
  }

  function ListNode(strs: seq<seq<nat>>, points: seq<nat>, hasEmpty: bool, icase: bool): Node {
    if strs == [] then TailNode(points, hasEmpty, icase)
    else if IsLast(strs, points, hasEmpty) then StringNode(strs[0], icase)
    else Alt(StringNode(strs[0], icase), ListNode(strs[1..], points, hasEmpty, icase))
  }

  predicate IsLast(strs: seq<seq<nat>>, points: seq<nat>, hasEmpty: bool) { |strs| == 1 && !hasEmpty && points == [] }

  /** What the parser leaves: code points, in canonical form when case is ignored. */
  predicate ParsedString(e: Env, s: seq<nat>, icase: bool) {
    forall i :: 0 <= i < |s| ==> s[i] <= CODE_POINT_MAX && Canon(e, icase, s[i]) == s[i]
  }

  predicate ParsedStrings(e: Env, strs: seq<seq<nat>>, icase: bool) {
    forall k :: 0 <= k < |strs| ==> ParsedString(e, strs[k], icase)
  }

  lemma {:induction false} StringValid(e: Env, s: seq<nat>, icase: bool)
    requires ParsedString(e, s, icase)
    ensures ValidNode(StringNode(s, icase)) && Groups(StringNode(s, icase)) == 0
  {
    if s != [] { StringValid(e, s[..|s| - 1], icase); }
  }

  lemma {:induction false} ListValid(e: Env, strs: seq<seq<nat>>, points: seq<nat>, hasEmpty: bool, icase: bool)
    requires ParsedStrings(e, strs, icase) && CanonicalPoints(points)
    ensures ValidNode(ListNode(strs, points, hasEmpty, icase)) && Groups(ListNode(strs, points, hasEmpty, icase)) == 0
  {
    hide CanonicalPoints, ParsedString;
    if strs != [] {
      StringValid(e, strs[0], icase);
      ListValid(e, strs[1..], points, hasEmpty, icase);
    }
  }

  // ----- its code, as bytes -----

  function StringBytes(s: seq<nat>, icase: bool): seq<byte> {
    if s == [] then [] else StringBytes(s[..|s| - 1], icase) + Encode(IChar(s[|s| - 1] > 0xffff, icase, s[|s| - 1]))
  }

  const OP_SPLIT_NEXT_FIRST: byte := OP_SPLIT_GOTO_FIRST + 1

  function TailBytes(points: seq<nat>, hasEmpty: bool, icase: bool): seq<byte>
    requires CanonicalPoints(points)
  {
    if points == [] then []
    else
      var c := Encode(EmitClass(points, icase));
      if hasEmpty then ([OP_SPLIT_NEXT_FIRST] + U32(|c|)) + c else c
  }

  /** Everything of an alternative up to the operand of its jump to the end. */
  function Head(s: seq<nat>, icase: bool): seq<byte> {
    var b := StringBytes(s, icase);
    ([OP_SPLIT_NEXT_FIRST] + U32(|b| + 5)) + b + [OP_GOTO]
  }

  function ListBytes(strs: seq<seq<nat>>, points: seq<nat>, hasEmpty: bool, icase: bool): seq<byte>
    requires CanonicalPoints(points)
  {
    if strs == [] then TailBytes(points, hasEmpty, icase)
    else if IsLast(strs, points, hasEmpty) then StringBytes(strs[0], icase)
    else
      var r := ListBytes(strs[1..], points, hasEmpty, icase);
      Head(strs[0], icase) + U32(|r|) + r
  }

  lemma {:induction false} StringCode(e: Env, s: seq<nat>, icase: bool, cc: nat)
    requires ParsedString(e, s, icase)
    ensures ValidNode(StringNode(s, icase))
    ensures Bytes(Code(e, StringNode(s, icase), cc, false, false, 0)) == StringBytes(s, icase)
  {
    hide Bytes, Encode;
    StringValid(e, s, icase);
    if s == [] {
      BytesNone();
    } else {
      var p, c := s[..|s| - 1], s[|s| - 1];
      StringCode(e, p, icase, cc);
      CatCode(e, StringNode(p, icase), Single(Literal(c, icase)), cc, false, false, 0);
      BytesConcat(Code(e, StringNode(p, icase), cc, false, false, 0), [IChar(c > 0xffff, icase, c)]);
      BytesOne(IChar(c > 0xffff, icase, c));
      StringValid(e, p, icase);
    }
  }

  lemma TailCode(e: Env, points: seq<nat>, hasEmpty: bool, icase: bool, cc: nat)
    requires CanonicalPoints(points)
    ensures ValidNode(TailNode(points, hasEmpty, icase))
    ensures Bytes(Code(e, TailNode(points, hasEmpty, icase), cc, false, false, 0)) == TailBytes(points, hasEmpty, icase)
  {
    hide Bytes, Encode, EmitClass, CanonicalPoints, QuantCode;
    var i := EmitClass(points, icase);
    var one := Single(Class(points, icase));
    BytesNone();
    BytesOne(i);
    BytesSize([i]);
    assert Code(e, one, cc, false, false, 0) == [i];
    if points != [] && hasEmpty {
      QuantCodeIs(e, one, 0, 1, true, cc, false, false, 0);
      OptionalClass(one, cc, i);
      UnallocSame(e, one, cc, false, Held(one, false, 0, 1));
      BytesConcat([ISplit(true, Size([i]))], [i]);
      BytesOne(ISplit(true, Size([i])));
      SplitBytes(Size([i]));
    }
  }

  lemma SplitBytes(off: int)
    ensures Encode(ISplit(true, off)) == [OP_SPLIT_NEXT_FIRST] + U32(off) && Encode(IGoto(off)) == [OP_GOTO] + U32(off)
  {
  }

  lemma OptionalClass(one: Node, cc: nat, i: Instr)
    requires one.Single?
    ensures QuantCode(one, cc, false, 0, 1, true, [i], 0, 0) == [ISplit(true, Size([i]))] + [i]
  {
    hide Size;
    assert !NeedInit(one) && !NeedAdvance(one, false) && Groups(one) == 0;
    assert AtomCode(one, cc, [i]) == [i] && SkipReset(one, cc, 0) == [];
    assert LoopCode(one, cc, false, 0, 1, true, [i], 0, 0) == OptionalCode(false, false, true, [i], 0);
    assert OptionalCode(false, false, true, [i], 0) == [ISplit(true, Size([i]))] + [i];
  }

  lemma {:induction false} ListCode(e: Env, strs: seq<seq<nat>>, points: seq<nat>, hasEmpty: bool, icase: bool, cc: nat)
    requires ParsedStrings(e, strs, icase) && CanonicalPoints(points)
    ensures ValidNode(ListNode(strs, points, hasEmpty, icase))
    ensures Bytes(Code(e, ListNode(strs, points, hasEmpty, icase), cc, false, false, 0)) == ListBytes(strs, points, hasEmpty, icase)
  {
    hide Bytes, Code, ValidNode, CanonicalPoints, StringNode, TailNode, StringBytes, TailBytes, U32, ParsedString, Size;
    if strs == [] {
      TailCode(e, points, hasEmpty, icase, cc);
    } else {
      StringCode(e, strs[0], icase, cc);
      if !IsLast(strs, points, hasEmpty) {
        ListCode(e, strs[1..], points, hasEmpty, icase, cc);
        var x, y := StringNode(strs[0], icase), ListNode(strs[1..], points, hasEmpty, icase);
        StringValid(e, strs[0], icase);
        AltCodeUnfold(e, x, y, cc, false, false, 0);
        AlternativeBytes(Code(e, x, cc, false, false, 0), Code(e, y, cc, false, false, 0));
      }
    }
  }

  lemma AlternativeBytes(a: seq<Instr>, b: seq<Instr>)
    ensures Bytes(AltCode(a, b)) == ([OP_SPLIT_NEXT_FIRST] + U32(|Bytes(a)| + 5)) + Bytes(a) + [OP_GOTO] + U32(|Bytes(b)|) + Bytes(b)
  {
    hide Bytes, U32, Size;
    BytesSize(a);
    BytesSize(b);
    BytesConcat([ISplit(true, Size(a) + 5)] + a + [IGoto(Size(b))], b);
    BytesConcat([ISplit(true, Size(a) + 5)] + a, [IGoto(Size(b))]);
    BytesConcat([ISplit(true, Size(a) + 5)], a);
    BytesOne(ISplit(true, Size(a) + 5));
    BytesOne(IGoto(Size(b)));
    SplitBytes(Size(a) + 5);
    SplitBytes(Size(b));
  }

  // ----- the chain of jumps -----

  /** Alternatives with the operands xs of their jumps. */
  function Joined(strs: seq<seq<nat>>, xs: seq<seq<byte>>, icase: bool): seq<byte>
    requires |strs| == |xs|
  {
    if strs == [] then []
    else
      var n := |strs| - 1;
      Joined(strs[..n], xs[..n], icase) + Head(strs[n], icase) + xs[n]
  }

  function JoinedLength(strs: seq<seq<nat>>, icase: bool): nat {
    if strs == [] then 0 else JoinedLength(strs[..|strs| - 1], icase) + |Head(strs[|strs| - 1], icase)| + 4
  }

  predicate Words(xs: seq<seq<byte>>) { forall k :: 0 <= k < |xs| ==> |xs[k]| == 4 }

  lemma {:induction false} JoinedSize(strs: seq<seq<nat>>, xs: seq<seq<byte>>, icase: bool)
    requires |strs| == |xs| && Words(xs)
    ensures |Joined(strs, xs, icase)| == JoinedLength(strs, icase)
  {
    hide Head;
    if strs != [] { JoinedSize(strs[..|strs| - 1], xs[..|strs| - 1], icase); }
  }

  lemma {:induction false} JoinedConcat(a: seq<seq<nat>>, x: seq<seq<byte>>, b: seq<seq<nat>>, y: seq<seq<byte>>, icase: bool)
    requires |a| == |x| && |b| == |y|
    ensures Joined(a + b, x + y, icase) == Joined(a, x, icase) + Joined(b, y, icase)
    ensures JoinedLength(a + b, icase) == JoinedLength(a, icase) + JoinedLength(b, icase)
    decreases |b|
  {
    hide Head;
    if b == [] {
      assert a + b == a && x + y == x;
    } else {
      var n, m := |b| - 1, |a| + |b| - 1;
      JoinedConcat(a, x, b[..n], y[..n], icase);
      assert (a + b)[..m] == a + b[..n] && (x + y)[..m] == x + y[..n];
      assert (a + b)[m] == b[n] && (x + y)[m] == y[n];
    }
  }

  /** Offset of the operand of the last jump so far, -1 when there is none. */
  function LastOperand(base: nat, strs: seq<seq<nat>>, icase: bool): int {
    if strs == [] then -1 else base + JoinedLength(strs, icase) - 4
  }

  /** While the end is unknown, each operand holds the offset of the one before. */
  function Links(base: nat, strs: seq<seq<nat>>, icase: bool): (r: seq<seq<byte>>)
    ensures |r| == |strs| && Words(r)
  {
    if strs == [] then [] else Links(base, strs[..|strs| - 1], icase) + [U32(LastOperand(base, strs[..|strs| - 1], icase))]
  }

  /** In the end each one jumps over the alternatives behind it and the t bytes after them. */
  function Resolved(strs: seq<seq<nat>>, t: nat, icase: bool): (r: seq<seq<byte>>)
    ensures |r| == |strs| && Words(r)
  {
    if strs == [] then [] else [U32(JoinedLength(strs[1..], icase) + t)] + Resolved(strs[1..], t, icase)
  }

  lemma JoinedOne(s: seq<nat>, x: seq<byte>, icase: bool)
    ensures Joined([s], [x], icase) == Head(s, icase) + x && JoinedLength([s], icase) == |Head(s, icase)| + 4
  {
    hide Head;
    assert [s][..0] == [] && [x][..0] == [];
    assert Joined([], [], icase) == [];
    assert JoinedLength([s][..0], icase) == 0;
  }

  lemma ResolvedCons(s: seq<nat>, rest: seq<seq<nat>>, t: nat, icase: bool)
    ensures var j := Joined(rest, Resolved(rest, t, icase), icase);
      && Joined([s] + rest, Resolved([s] + rest, t, icase), icase) == Head(s, icase) + U32(|j| + t) + j
  {
    hide Head, U32, Joined, JoinedLength;
    var xs, x := Resolved(rest, t, icase), U32(JoinedLength(rest, icase) + t);
    assert ([s] + rest)[1..] == rest;
    assert Resolved([s] + rest, t, icase) == [x] + xs;
    JoinedConcat([s], [x], rest, xs, icase);
    JoinedOne(s, x, icase);
    JoinedSize(rest, xs, icase);
  }

  lemma ListCons(strs: seq<seq<nat>>, points: seq<nat>, hasEmpty: bool, icase: bool)
    requires CanonicalPoints(points) && strs != [] && !IsLast(strs, points, hasEmpty)
    ensures var r := ListBytes(strs[1..], points, hasEmpty, icase);
      ListBytes(strs, points, hasEmpty, icase) == Head(strs[0], icase) + U32(|r|) + r
  {
    hide Head, U32;
  }

  lemma NothingJoined(icase: bool)
    ensures Joined([], [], icase) == [] && JoinedLength([], icase) == 0
    ensures forall t: nat :: Resolved([], t, icase) == []
  {
  }

  /** The strings whose alternatives end in a jump: all of them, unless the last one ends the list. */
  predicate Jumping(strs: seq<seq<nat>>, m: nat, points: seq<nat>, hasEmpty: bool) {
    m <= |strs| && if !hasEmpty && points == [] && strs != [] then m == |strs| - 1 else m == |strs|
  }

  /** With all operands resolved the alternatives are those of the list. */
  lemma {:induction false} ResolvedIsList(strs: seq<seq<nat>>, m: nat, points: seq<nat>, hasEmpty: bool, icase: bool)
    requires CanonicalPoints(points) && Jumping(strs, m, points, hasEmpty)
    ensures var t := ListBytes(strs[m..], points, hasEmpty, icase);
      ListBytes(strs, points, hasEmpty, icase) == Joined(strs[..m], Resolved(strs[..m], |t|, icase), icase) + t
    decreases m
  {
    hide CanonicalPoints, Head, U32, Joined, Resolved, ListBytes;
    var t := ListBytes(strs[m..], points, hasEmpty, icase);
    if m == 0 {
      assert strs[0..] == strs && strs[..0] == [];
      NothingJoined(icase);
    } else {
      var s, rest := strs[0], strs[1..];
      ResolvedIsList(rest, m - 1, points, hasEmpty, icase);
      assert rest[m - 1..] == strs[m..] && strs[..m] == [s] + rest[..m - 1];
      ResolvedCons(s, rest[..m - 1], |t|, icase);
      ListCons(strs, points, hasEmpty, icase);
    }
  }

  lemma {:induction false} ResolvedFrom(strs: seq<seq<nat>>, k: nat, t: nat, icase: bool)
    requires k <= |strs|
    ensures Resolved(strs, t, icase)[k..] == Resolved(strs[k..], t, icase)
  {
    hide U32, JoinedLength;
    if k == 0 {
      assert strs[0..] == strs;
    } else {
      ResolvedFrom(strs[1..], k - 1, t, icase);
      assert strs[1..][k - 1..] == strs[k..];
      assert Resolved(strs, t, icase)[k..] == Resolved(strs[1..], t, icase)[k - 1..];
    }
  }

  lemma ResolvedNext(strs: seq<seq<nat>>, k: nat, t: nat, icase: bool)
    requires 0 < k <= |strs|
    ensures Resolved(strs, t, icase)[k - 1..] == [U32(JoinedLength(strs[k..], icase) + t)] + Resolved(strs, t, icase)[k..]
  {
    hide U32, JoinedLength, Resolved;
    ResolvedFrom(strs, k - 1, t, icase);
    ResolvedFrom(strs, k, t, icase);
    var u := strs[k - 1..];
    assert u[1..] == strs[k..];
    ResolvedUnfold(u, t, icase);
  }

  lemma ResolvedUnfold(strs: seq<seq<nat>>, t: nat, icase: bool)
    requires strs != []
    ensures Resolved(strs, t, icase) == [U32(JoinedLength(strs[1..], icase) + t)] + Resolved(strs[1..], t, icase)
  {
    hide U32, JoinedLength;
  }

  lemma LinksUnfold(base: nat, strs: seq<seq<nat>>, k: nat, icase: bool)
    requires 0 < k <= |strs|
    ensures Links(base, strs[..k], icase) == Links(base, strs[..k - 1], icase) + [U32(LastOperand(base, strs[..k - 1], icase))]
    ensures |U32(LastOperand(base, strs[..k - 1], icase))| == 4
    ensures LastOperand(base, strs[..k], icase) == base + JoinedLength(strs[..k - 1], icase) + |Head(strs[k - 1], icase)|
  {
    hide U32, Head;
    U32Len(LastOperand(base, strs[..k - 1], icase));
    assert strs[..k][..k - 1] == strs[..k - 1];
  }

  /** The operands behind the k-th are resolved, the others still chained. */
  ghost predicate Patching(b: seq<byte>, pre: seq<byte>, strs: seq<seq<nat>>, k: nat, t: seq<byte>, last: int, icase: bool) {
    && k <= |strs| && last == LastOperand(|pre|, strs[..k], icase)
    && b == pre + Joined(strs, Links(|pre|, strs[..k], icase) + Resolved(strs, |t|, icase)[k..], icase) + t
  }

  lemma Overwritten(a: seq<byte>, x: seq<byte>, b: seq<byte>, y: seq<byte>)
    requires |x| == |y|
    ensures |a| + |y| <= |a + x + b| && Overwrite(a + x + b, |a|, y) == a + y + b
  {
    assert (a + x + b)[..|a|] == a && (a + x + b)[|a| + |y|..] == b;
  }

  /** The joined alternatives around the operand of the k-th jump. */
  lemma AroundOperand(strs: seq<seq<nat>>, k: nat, xs: seq<seq<byte>>, x: seq<byte>, ys: seq<seq<byte>>, icase: bool)
    requires 0 < k <= |strs| && |xs| == k - 1 && |ys| == |strs| - k
    ensures Joined(strs, xs + [x] + ys, icase) == Joined(strs[..k - 1], xs, icase) + Head(strs[k - 1], icase) + x + Joined(strs[k..], ys, icase)
  {
    hide Head, Joined, JoinedLength;
    var a, s, c := strs[..k - 1], strs[k - 1], strs[k..];
    JoinedConcat(a + [s], xs + [x], c, ys, icase);
    JoinedConcat(a, xs, [s], [x], icase);
    JoinedOne(s, x, icase);
    assert strs == a + [s] + c;
  }

  lemma PatchStep(b: seq<byte>, pre: seq<byte>, strs: seq<seq<nat>>, k: nat, t: seq<byte>, last: int, icase: bool)
    requires Patching(b, pre, strs, k, t, last, icase) && k > 0 && |b| <= INT32_MAX
    ensures 0 <= last && last + 4 <= |b|
    ensures var next := Signed(GetU32(b, last)); Patching(Overwrite(b, last, U32(|b| - (last + 4))), pre, strs, k - 1, t, next, icase)
  {
    hide U32, Joined, Head, Links, JoinedLength, Resolved, LastOperand;
    var base := |pre|;
    var xs, ys := Links(base, strs[..k - 1], icase), Resolved(strs, |t|, icase)[k..];
    var v := LastOperand(base, strs[..k - 1], icase);
    var x := U32(v);
    LinksUnfold(base, strs, k, icase);
    AroundOperand(strs, k, xs, x, ys, icase);
    JoinedSize(strs[..k - 1], xs, icase);
    JoinedSize(strs[k..], ys, icase);
    var j1, h, j3 := Joined(strs[..k - 1], xs, icase), Head(strs[k - 1], icase), Joined(strs[k..], ys, icase);
    var a, c := pre + j1 + h, j3 + t;
    assert b == a + x + c;
    assert |a| == last;
    Operand(a, x, c, v, strs[..k - 1], base, icase);
    var y := U32(|b| - (last + 4));
    U32Len(|b| - (last + 4));
    Overwritten(a, x, c, y);
    ResolvedNext(strs, k, |t|, icase);
    AroundOperand(strs, k, xs, y, ys, icase);
    assert |b| - (last + 4) == JoinedLength(strs[k..], icase) + |t|;
    assert xs + Resolved(strs, |t|, icase)[k - 1..] == xs + [y] + ys;
    assert a + y + c == pre + (j1 + h + y + j3) + t;
  }

  lemma Operand(a: seq<byte>, x: seq<byte>, c: seq<byte>, v: int, strs: seq<seq<nat>>, base: nat, icase: bool)
    requires x == U32(v) && v == LastOperand(base, strs, icase) && |a + x + c| <= INT32_MAX
    requires |a| >= base + JoinedLength(strs, icase)
    ensures |x| == 4 && Signed(GetU32(a + x + c, |a|)) == v
  {
    hide JoinedLength;
    LastBound(base, strs, icase);
    U32RoundTrip(v, a + x + c, |a|);
  }

  lemma LastBound(base: nat, strs: seq<seq<nat>>, icase: bool)
    ensures -1 <= LastOperand(base, strs, icase) < base + JoinedLength(strs, icase) || (strs == [] && LastOperand(base, strs, icase) == -1)
    ensures LastOperand(base, strs, icase) >= base || strs == []
  {
    hide Head;
  }

  // ----- re_emit_string_list -----

  /** re_string_cmp_len: longer strings first. */
  function CmpLen(a: seq<nat>, b: seq<nat>): int { (if |a| < |b| then 1 else 0) - (if |a| > |b| then 1 else 0) }

  method EmitString(s: REParseState, str: seq<nat>, icase: bool)
    requires forall i :: 0 <= i < |str| ==> str[i] < WORD
    modifies s`byteCode
    ensures s.byteCode == old(s.byteCode) + StringBytes(str, icase)
  {
    hide Encode;
    assert str[..0] == [];
    for j := 0 to |str|
      invariant s.byteCode == old(s.byteCode) + StringBytes(str[..j], icase)
    {
      assert str[..j + 1][..j] == str[..j];
      s.EmitChar(str[j], icase);
    }
    assert str[..|str|] == str;
  }

  /** One alternative that is not the last: its split is patched at once, its jump joins the chain. */
  method EmitAlternative(s: REParseState, str: seq<nat>, icase: bool, last: int) returns (pos: nat)
    requires forall i :: 0 <= i < |str| ==> str[i] < WORD
    modifies s`byteCode
    ensures s.byteCode == old(s.byteCode) + Head(str, icase) + U32(last)
    ensures pos == |old(s.byteCode)| + |Head(str, icase)|
  {
    hide U32, StringBytes;
    ghost var pre, b := s.byteCode, StringBytes(str, icase);
    var splitPos := s.EmitOpU32(OP_SPLIT_NEXT_FIRST, 0);
    EmitString(s, str, icase);
    pos := s.EmitOpU32(OP_GOTO, last);
    U32Len(0);
    U32Len(last);
    U32Len(|b| + 5);
    ghost var rest := b + ([OP_GOTO] + U32(last));
    assert s.byteCode == (pre + [OP_SPLIT_NEXT_FIRST]) + U32(0) + rest;
    Overwritten(pre + [OP_SPLIT_NEXT_FIRST], U32(0), rest, U32(|b| + 5));
    s.Patch(splitPos, U32(|s.byteCode| - (splitPos + 4)));
    assert s.byteCode == pre + (([OP_SPLIT_NEXT_FIRST] + U32(|b| + 5)) + b + [OP_GOTO]) + U32(last);
  }

  /** The one-character members, skippable when the empty string is a member too. */
  method EmitTail(s: REParseState, points: seq<nat>, hasEmpty: bool, icase: bool) returns (ok: bool)
    requires CanonicalPoints(points)
    modifies s`byteCode
    ensures ok == (|points| / 2 < 65535)
    ensures ok ==> s.byteCode == old(s.byteCode) + TailBytes(points, hasEmpty, icase)
  {
    hide U32, CanonicalPoints, EmitClass, Encode;
    if points == [] { return true; }
    ghost var pre, c := s.byteCode, Encode(EmitClass(points, icase));
    var splitPos := 0;
    if hasEmpty { splitPos := s.EmitOpU32(OP_SPLIT_NEXT_FIRST, 0); }
    ok := s.EmitRange(points, icase);
    if ok && hasEmpty {
      U32Len(0);
      U32Len(|c|);
      assert s.byteCode == (pre + [OP_SPLIT_NEXT_FIRST]) + U32(0) + c;
      Overwritten(pre + [OP_SPLIT_NEXT_FIRST], U32(0), c, U32(|c|));
      s.Patch(splitPos, U32(|s.byteCode| - (splitPos + 4)));
      assert s.byteCode == pre + (([OP_SPLIT_NEXT_FIRST] + U32(|c|)) + c);
    }
  }

  /** After i of the strings, the first m of which end in a jump. */
  ghost predicate Written(b: seq<byte>, pre: seq<byte>, strs: seq<seq<nat>>, i: nat, m: nat, last: int, icase: bool) {
    && i <= |strs| && m <= |strs| <= m + 1
    && var done := strs[..if i < m then i else m];
      && last == LastOperand(|pre|, done, icase)
      && b == pre + Joined(done, Links(|pre|, done, icase), icase) + (if i > m then StringBytes(strs[m], icase) else [])
  }

  lemma WrittenStart(pre: seq<byte>, strs: seq<seq<nat>>, m: nat, icase: bool)
    requires m <= |strs| <= m + 1
    ensures Written(pre, pre, strs, 0, m, -1, icase)
  {
    NothingJoined(icase);
    assert strs[..0] == [];
  }

  lemma WrittenJump(b: seq<byte>, pre: seq<byte>, strs: seq<seq<nat>>, i: nat, m: nat, last: int, icase: bool)
    requires Written(b, pre, strs, i, m, last, icase) && i < m
    ensures Written(b + Head(strs[i], icase) + U32(last), pre, strs, i + 1, m, |b| + |Head(strs[i], icase)|, icase)
  {
    hide U32, Head, Joined, JoinedLength, Links, LastOperand, StringBytes;
    var done, more := strs[..i], strs[..i + 1];
    LinksUnfold(|pre|, strs, i + 1, icase);
    JoinedSize(done, Links(|pre|, done, icase), icase);
    assert more == done + [strs[i]];
    JoinedConcat(done, Links(|pre|, done, icase), [strs[i]], [U32(last)], icase);
    JoinedOne(strs[i], U32(last), icase);
  }

  lemma WrittenLast(b: seq<byte>, pre: seq<byte>, strs: seq<seq<nat>>, m: nat, last: int, icase: bool)
    requires Written(b, pre, strs, m, m, last, icase) && m < |strs|
    ensures Written(b + StringBytes(strs[m], icase), pre, strs, m + 1, m, last, icase)
  {
    hide Joined, Links, LastOperand, StringBytes;
  }

  lemma TailPart(strs: seq<seq<nat>>, m: nat, points: seq<nat>, hasEmpty: bool, icase: bool)
    requires CanonicalPoints(points) && Jumping(strs, m, points, hasEmpty)
    ensures ListBytes(strs[m..], points, hasEmpty, icase)
      == (if m < |strs| then StringBytes(strs[m], icase) else []) + TailBytes(points, hasEmpty, icase)
  {
    hide StringBytes, CanonicalPoints, Head;
    var u := strs[m..];
    if m < |strs| {
      assert u == [strs[m]] && IsLast(u, points, hasEmpty);
      assert TailBytes(points, hasEmpty, icase) == [];
    } else {
      assert u == [];
    }
  }

  lemma ChainAll(base: nat, strs: seq<seq<nat>>, t: nat, icase: bool)
    ensures Links(base, strs[..|strs|], icase) + Resolved(strs, t, icase)[|strs|..] == Links(base, strs, icase)
  {
    assert strs[..|strs|] == strs;
  }

  /** All strings and the tail are written: the chain can be resolved. */
  lemma StartPatching(b: seq<byte>, pre: seq<byte>, strs: seq<seq<nat>>, m: nat, last: int, points: seq<nat>, hasEmpty: bool, icase: bool)
    requires Written(b, pre, strs, |strs|, m, last, icase) && Jumping(strs, m, points, hasEmpty) && CanonicalPoints(points)
    ensures Patching(b + TailBytes(points, hasEmpty, icase), pre, strs[..m], m, ListBytes(strs[m..], points, hasEmpty, icase), last, icase)
  {
    hide Joined, Links, LastOperand, StringBytes, CanonicalPoints, Resolved, ListBytes, TailBytes;
    var t := ListBytes(strs[m..], points, hasEmpty, icase);
    var done := strs[..m];
    ChainAll(|pre|, done, |t|, icase);
    assert done[..m] == done;
    TailPart(strs, m, points, hasEmpty, icase);
  }

  lemma DonePatching(b: seq<byte>, pre: seq<byte>, strs: seq<seq<nat>>, m: nat, last: int, points: seq<nat>, hasEmpty: bool, icase: bool)
    requires CanonicalPoints(points) && Jumping(strs, m, points, hasEmpty)
    requires Patching(b, pre, strs[..m], 0, ListBytes(strs[m..], points, hasEmpty, icase), last, icase)
    ensures b == pre + ListBytes(strs, points, hasEmpty, icase)
  {
    hide Joined, LastOperand, ListBytes, CanonicalPoints, Resolved;
    var t := ListBytes(strs[m..], points, hasEmpty, icase);
    assert strs[..m][..0] == [];
    var xs := Resolved(strs[..m], |t|, icase);
    assert Links(|pre|, [], icase) + xs[0..] == xs;
    ResolvedIsList(strs, m, points, hasEmpty, icase);
  }

  lemma PatchingSize(b: seq<byte>, pre: seq<byte>, strs: seq<seq<nat>>, k: nat, t: seq<byte>, last: int, icase: bool)
    requires Patching(b, pre, strs, k, t, last, icase)
    ensures |b| == |pre| + JoinedLength(strs, icase) + |t| && (last == -1 <==> k == 0)
  {
    hide Joined, Links, Resolved, Head;
    JoinedSize(strs, Links(|pre|, strs[..k], icase) + Resolved(strs, |t|, icase)[k..], icase);
    LastBound(|pre|, strs[..k], icase);
  }

  /** The second loop: every jump now goes to the end of what is written. */
  method PatchJumps(s: REParseState, ghost pre: seq<byte>, ghost strs: seq<seq<nat>>, ghost t: seq<byte>, last: int, icase: bool)
    requires Patching(s.byteCode, pre, strs, |strs|, t, last, icase) && |s.byteCode| <= INT32_MAX
    modifies s`byteCode
    ensures exists end: int :: Patching(s.byteCode, pre, strs, 0, t, end, icase)
  {
    hide Patching, U32, JoinedLength;
    var pos := last;
    ghost var k := |strs|;
    PatchingSize(s.byteCode, pre, strs, k, t, pos, icase);
    while pos != -1
      invariant 0 <= k <= |strs| && Patching(s.byteCode, pre, strs, k, t, pos, icase) && (pos == -1 <==> k == 0)
      invariant |s.byteCode| <= INT32_MAX
      decreases k
    {
      PatchStep(s.byteCode, pre, strs, k, t, pos, icase);
      var next := Signed(GetU32(s.byteCode, pos));
      ghost var b := s.byteCode;
      U32Len(|b| - (pos + 4));
      PatchingSize(b, pre, strs, k, t, pos, icase);
      s.Patch(pos, U32(|s.byteCode| - (pos + 4)));
      pos := next;
      k := k - 1;
      PatchingSize(s.byteCode, pre, strs, k, t, pos, icase);
    }
  }

  predicate LongestFirst(strs: seq<seq<nat>>) { forall i, j :: 0 <= i < j < |strs| ==> |strs[i]| >= |strs[j]| }

  /** The strings of the table that are not empty. */
  function NonEmpty(strings: seq<seq<nat>>): (r: seq<seq<nat>>)
    ensures forall s :: s in r <==> s in strings && s != []
  {
    if strings == [] then []
    else NonEmpty(strings[..|strings| - 1]) + (if strings[|strings| - 1] == [] then [] else [strings[|strings| - 1]])
  }

  /** The table of strings, sorted by rqsort. */
  method SortStrings(strings: seq<seq<nat>>) returns (tab: seq<seq<nat>>, hasEmpty: bool)
    ensures LongestFirst(tab) && multiset(tab) == multiset(NonEmpty(strings)) && hasEmpty == ([] in strings)
  {
    hasEmpty := false;
    tab := [];
    assert strings[..0] == [];
    for i := 0 to |strings|
      invariant tab == NonEmpty(strings[..i]) && hasEmpty == ([] in strings[..i])
    {
      assert strings[..i + 1][..i] == strings[..i] && strings[..i + 1] == strings[..i] + [strings[i]];
      if strings[i] == [] { hasEmpty := true; } else { tab := tab + [strings[i]]; }
    }
    assert strings[..|strings|] == strings;
    var a := new seq<nat>[|tab|](i requires 0 <= i < |tab| => tab[i]);
    assert a[..] == tab;
    var sorter := new Sorter<seq<nat>>(CmpLen, a);
    CmpLenOrders();
    sorter.RqSort();
    SortedByLength(tab, a[..]);
    tab := a[..];
  }

  lemma CmpLenOrders()
    ensures TotalPreorder(CmpLen)
  {
  }

  lemma SortedByLength(was: seq<seq<nat>>, now: seq<seq<nat>>)
    requires Perm(was, now, 0, |now|) && SortedRange(CmpLen, now, 0, |now|)
    ensures LongestFirst(now) && multiset(now) == multiset(was)
  {
    assert was[0..|now|] == was && now[0..|now|] == now;
    forall i, j | 0 <= i < j < |now| ensures |now[i]| >= |now[j]| { assert CmpLen(now[i], now[j]) <= 0; }
  }

  /** What is written for a class: a plain range test without strings, else the ordered list. */
  function ClassBytes(order: seq<seq<nat>>, strings: seq<seq<nat>>, points: seq<nat>, icase: bool): seq<byte>
    requires CanonicalPoints(points)
  {
    if strings == [] then Encode(EmitClass(points, icase)) else ListBytes(order, points, [] in strings, icase)
  }

  /** The pattern a class stands for, its strings in the order given. */
  function ClassNode(order: seq<seq<nat>>, strings: seq<seq<nat>>, points: seq<nat>, icase: bool): Node {
    if strings == [] then Single(Class(points, icase)) else ListNode(order, points, [] in strings, icase)
  }

  lemma ClassCode(e: Env, order: seq<seq<nat>>, strings: seq<seq<nat>>, points: seq<nat>, icase: bool, cc: nat)
    requires ParsedStrings(e, order, icase) && CanonicalPoints(points)
    ensures ValidNode(ClassNode(order, strings, points, icase))
    ensures Bytes(Code(e, ClassNode(order, strings, points, icase), cc, false, false, 0)) == ClassBytes(order, strings, points, icase)
  {
    hide Bytes, Encode, EmitClass, CanonicalPoints, ListBytes, ListNode;
    if strings == [] {
      LeafCodeUnfold(e, Single(Class(points, icase)), cc, false, false, 0);
      BytesOne(EmitClass(points, icase));
    } else {
      ListCode(e, order, points, [] in strings, icase, cc);
    }
  }

  /** re_emit_string_list: fails when the class has too many ranges; else, like every term, it appends the code of a
    * pattern: of the alternatives, the longest strings first, then the single characters, then the empty string. */
  method ReEmitStringList(s: REParseState, strings: seq<seq<nat>>, points: seq<nat>, icase: bool) returns (ok: bool, ghost order: seq<seq<nat>>)
    requires CanonicalPoints(points) && ParsedStrings(s.env, strings, icase)
    requires forall o :: multiset(o) == multiset(NonEmpty(strings)) ==> |s.byteCode| + |ClassBytes(o, strings, points, icase)| <= INT32_MAX
    modifies s`byteCode
    ensures ok == (|points| / 2 < 65535) && LongestFirst(order) && multiset(order) == multiset(NonEmpty(strings))
    ensures ok ==> ValidNode(ClassNode(order, strings, points, icase))
    ensures ok ==> s.byteCode == old(s.byteCode) + Bytes(Code(s.env, ClassNode(order, strings, points, icase), s.captureCount, false, false, 0))
  {
    hide *;
    ghost var pre := s.byteCode;
    if |strings| == 0 {
      order := [];
      NoStrings(strings, points, icase);
      ok := s.EmitRange(points, icase);
      CodePoints(s.env, strings, order, icase);
      ClassCode(s.env, order, strings, points, icase, s.captureCount);
      return;
    }
    var tab, hasEmpty := SortStrings(strings);
    order := tab;
    HasStrings(strings, order, points, icase);
    CodePoints(s.env, strings, tab, icase);
    var n := |tab|;
    ghost var m := if !hasEmpty && points == [] && n > 0 then n - 1 else n;
    JumpingIs(tab, m, points, hasEmpty);
    var last: int := -1;
    WrittenStart(pre, tab, m, icase);
    var i := 0;
    while i < n
      invariant 0 <= i <= n && Written(s.byteCode, pre, tab, i, m, last, icase)
    {
      var isLast := !hasEmpty && |points| == 0 && i == n - 1;
      if isLast {
        WrittenLast(s.byteCode, pre, tab, m, last, icase);
        EmitString(s, tab[i], icase);
      } else {
        WrittenJump(s.byteCode, pre, tab, i, m, last, icase);
        last := EmitAlternative(s, tab[i], icase, last);
      }
      i := i + 1;
    }
    StartPatching(s.byteCode, pre, tab, m, last, points, hasEmpty, icase);
    ok := EmitTail(s, points, hasEmpty, icase);
    if ok {
      ghost var t := ListBytes(tab[m..], points, hasEmpty, icase);
      FinalSize(s.byteCode, pre, tab, m, last, points, hasEmpty, icase);
      PatchJumps(s, pre, tab[..m], t, last, icase);
      ghost var end: int :| Patching(s.byteCode, pre, tab[..m], 0, t, end, icase);
      DonePatching(s.byteCode, pre, tab, m, end, points, hasEmpty, icase);
      ClassCode(s.env, order, strings, points, icase, s.captureCount);
    }
  }

  lemma JumpingIs(strs: seq<seq<nat>>, m: nat, points: seq<nat>, hasEmpty: bool)
    requires m == if !hasEmpty && points == [] && |strs| > 0 then |strs| - 1 else |strs|
    ensures Jumping(strs, m, points, hasEmpty)
  {
  }

  lemma NoStrings(strings: seq<seq<nat>>, points: seq<nat>, icase: bool)
    requires strings == [] && CanonicalPoints(points)
    ensures LongestFirst([]) && NonEmpty(strings) == [] && forall o :: ClassBytes(o, strings, points, icase) == Encode(EmitClass(points, icase))
  {
  }

  lemma HasStrings(strings: seq<seq<nat>>, order: seq<seq<nat>>, points: seq<nat>, icase: bool)
    requires strings != [] && CanonicalPoints(points)
    ensures ClassBytes(order, strings, points, icase) == ListBytes(order, points, [] in strings, icase)
  {
  }

  lemma CodePoints(e: Env, strings: seq<seq<nat>>, tab: seq<seq<nat>>, icase: bool)
    requires ParsedStrings(e, strings, icase) && multiset(tab) == multiset(NonEmpty(strings))
    ensures ParsedStrings(e, tab, icase) && forall k, i :: 0 <= k < |tab| && 0 <= i < |tab[k]| ==> tab[k][i] < WORD
  {
    hide ParsedString;
    forall k | 0 <= k < |tab| ensures ParsedString(e, tab[k], icase) && forall i :: 0 <= i < |tab[k]| ==> tab[k][i] < WORD {
      assert tab[k] in multiset(tab);
      assert tab[k] in NonEmpty(strings);
      var j :| 0 <= j < |strings| && strings[j] == tab[k];
      InWord(e, tab[k], icase);
    }
  }

  lemma InWord(e: Env, s: seq<nat>, icase: bool)
    requires ParsedString(e, s, icase)
    ensures forall i :: 0 <= i < |s| ==> s[i] < WORD
  {
  }

  lemma FinalSize(b: seq<byte>, pre: seq<byte>, strs: seq<seq<nat>>, m: nat, last: int, points: seq<nat>, hasEmpty: bool, icase: bool)
    requires CanonicalPoints(points) && Jumping(strs, m, points, hasEmpty)
    requires Patching(b, pre, strs[..m], m, ListBytes(strs[m..], points, hasEmpty, icase), last, icase)
    ensures m <= |strs| && |strs[..m]| == m && |b| == |pre| + |ListBytes(strs, points, hasEmpty, icase)|
  {
    hide Joined, Links, Resolved, ListBytes, CanonicalPoints, Head, Patching, JoinedLength;
    var t := ListBytes(strs[m..], points, hasEmpty, icase);
    PatchingSize(b, pre, strs[..m], m, t, last, icase);
    ResolvedIsList(strs, m, points, hasEmpty, icase);
    JoinedSize(strs[..m], Resolved(strs[..m], |t|, icase), icase);
  }
}
