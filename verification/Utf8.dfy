/** The UTF-8 codec for code points of up to 31 bits, as RFC 2279 section 2 defines it. */
module Utf8 {

  type Byte = n: nat | n < 256

  const CODE_SPAN: nat := 0x8000_0000

  // ----- the format -----

  /** Continuation bytes of c. */
  function TailLength(c: nat): nat {
    if c < 0x80 then 0 else if c < 0x800 then 1 else if c < 0x10000 then 2
    else if c < 0x20_0000 then 3 else if c < 0x400_0000 then 4 else 5
  }

  /** Marker of a first byte with l continuation bytes, and how many values its free bits have. */
  function LeadBase(l: nat): nat { if l == 0 then 0 else if l == 1 then 0xc0 else if l == 2 then 0xe0 else if l == 3 then 0xf0 else if l == 4 then 0xf8 else 0xfc }

  function LeadSpan(l: nat): nat { if l == 0 then 128 else if l == 1 then 32 else if l == 2 then 16 else if l == 3 then 8 else if l == 4 then 4 else 2 }

  /** What is left of c above its low k groups of six bits. */
  function High(c: nat, k: nat): nat { if k == 0 then c else High(c / 64, k - 1) }

  /** The low k groups of six bits, most significant first. */
  function Tail(c: nat, k: nat): seq<nat> {
    if k == 0 then [] else Tail(c / 64, k - 1) + [0x80 + c % 64]
  }

  function Encoding(c: nat): seq<nat> {
    [LeadBase(TailLength(c)) + High(c, TailLength(c))] + Tail(c, TailLength(c))
  }

  lemma {:induction false} TailForm(c: nat, k: nat)
    ensures |Tail(c, k)| == k && forall i :: 0 <= i < k ==> 0x80 <= Tail(c, k)[i] < 0xc0
  {
    if k > 0 { TailForm(c / 64, k - 1); }
  }

  lemma {:induction false} TailInjective(a: nat, b: nat, k: nat)
    requires Tail(a, k) == Tail(b, k) && High(a, k) == High(b, k)
    ensures a == b
  {
    if k > 0 {
      var s, t := Tail(a, k), Tail(b, k);
      TailForm(a / 64, k - 1);
      TailForm(b / 64, k - 1);
      assert Tail(a / 64, k - 1) == s[..k - 1] == t[..k - 1] == Tail(b / 64, k - 1);
      assert s[k - 1] == 0x80 + a % 64 && t[k - 1] == 0x80 + b % 64;
      TailInjective(a / 64, b / 64, k - 1);
    }
  }

  /** The first byte decides the length, for codes of up to 31 bits. */
  lemma LeadOf(c: nat)
    requires c < CODE_SPAN
    ensures var l := TailLength(c); l <= 5 && High(c, l) < LeadSpan(l) && LeadBase(l) + High(c, l) < 0xfe
    ensures |Encoding(c)| == TailLength(c) + 1 && forall i :: 0 <= i < |Encoding(c)| ==> Encoding(c)[i] < 256
  {
    var l := TailLength(c);
    HighUnfold(c);
    TailForm(c, l);
  }

  lemma HighUnfold(c: nat)
    ensures High(c, 0) == c && High(c, 1) == c / 64 && High(c, 2) == c / 4096 && High(c, 3) == c / 0x4_0000
    ensures High(c, 4) == c / 0x100_0000 && High(c, 5) == c / 0x4000_0000
  {
    assert High(c, 2) == High(c / 64, 1) == High(c / 64 / 64, 0);
    assert High(c, 3) == High(c / 64, 2) == High(c / 64 / 64, 1) == High(c / 64 / 64 / 64, 0);
    assert High(c, 4) == High(c / 64, 3) == High(c / 64 / 64, 2) == High(c / 64 / 64 / 64, 1) == High(c / 64 / 64 / 64 / 64, 0);
    assert High(c, 5) == High(c / 64, 4) == High(c / 64 / 64, 3) == High(c / 64 / 64 / 64, 2) == High(c / 64 / 64 / 64 / 64, 1)
      == High(c / 64 / 64 / 64 / 64 / 64, 0);
  }

  /** No encoding is the beginning of another one. */
  lemma PrefixFree(a: nat, b: nat)
    requires a < CODE_SPAN && b < CODE_SPAN && Encoding(a) <= Encoding(b)
    ensures a == b
  {
    LeadOf(a);
    LeadOf(b);
    assert Encoding(a)[0] == Encoding(b)[0];
    var l := TailLength(a);
    assert TailLength(b) == l;
    assert Encoding(a)[1..] == Tail(a, l) && Encoding(b)[1..] == Tail(b, l);
    TailInjective(a, b, l);
  }

  // ----- the encoder -----

  lemma TailMore(c: nat, k: nat)
    ensures Tail(c, k + 1) == Tail(c / 64, k) + [0x80 + c % 64] && (k == 0 ==> Tail(c / 64, k) == [])
  {
  }

  lemma TailTwo(c: nat)
    ensures Tail(c, 1) == [0x80 + c % 64] && Tail(c, 2) == [0x80 + c / 64 % 64, 0x80 + c % 64]
  {
    hide Tail;
    TailMore(c, 0);
    TailMore(c, 1);
    TailMore(c / 64, 0);
  }

  lemma TailThree(c: nat)
    ensures Tail(c, 3) == [0x80 + c / 4096 % 64, 0x80 + c / 64 % 64, 0x80 + c % 64]
  {
    hide Tail;
    TailMore(c, 2);
    TailTwo(c / 64);
    assert c / 64 / 64 == c / 4096;
  }

  lemma TailFour(c: nat)
    ensures Tail(c, 4) == [0x80 + c / 0x4_0000 % 64, 0x80 + c / 4096 % 64, 0x80 + c / 64 % 64, 0x80 + c % 64]
  {
    hide Tail;
    TailMore(c, 3);
    TailThree(c / 64);
    assert c / 64 / 64 == c / 4096 && c / 64 / 4096 == c / 0x4_0000;
  }

  lemma TailFive(c: nat)
    ensures Tail(c, 5) == [0x80 + c / 0x100_0000 % 64, 0x80 + c / 0x4_0000 % 64, 0x80 + c / 4096 % 64, 0x80 + c / 64 % 64, 0x80 + c % 64]
  {
    hide Tail;
    TailMore(c, 4);
    TailFour(c / 64);
    assert c / 64 / 64 == c / 4096 && c / 64 / 4096 == c / 0x4_0000 && c / 64 / 0x4_0000 == c / 0x100_0000;
  }

  lemma NoTail(c: nat)
    ensures Tail(c, 0) == []
  {
  }

  /** unicode_to_utf8: writes the encoding of c and returns its length, 0 when c has none. */
  method UnicodeToUtf8(buf: array<Byte>, c: nat) returns (n: nat)
    requires buf.Length >= 6
    modifies buf
    ensures c < CODE_SPAN ==> n == |Encoding(c)| <= 6 && buf[..n] == Encoding(c)
    ensures c >= CODE_SPAN ==> n == 0
    ensures forall i :: n <= i < buf.Length ==> buf[i] == old(buf[i])
  {
    hide Tail, High;
    NoTail(c);
    TailTwo(c);
    TailThree(c);
    TailFour(c);
    TailFive(c);
    HighUnfold(c);
    var q := 0;
    if c < 0x80 {
      buf[q] := c;
      q := q + 1;
    } else {
      if c < 0x800 {
        buf[q] := c / 64 + 0xc0;
        q := q + 1;
      } else {
        if c < 0x10000 {
          buf[q] := c / 4096 + 0xe0;
          q := q + 1;
        } else {
          if c < 0x20_0000 {
            buf[q] := c / 0x4_0000 + 0xf0;
            q := q + 1;
          } else {
            if c < 0x400_0000 {
              buf[q] := c / 0x100_0000 + 0xf8;
              q := q + 1;
            } else if c < 0x8000_0000 {
              buf[q] := c / 0x4000_0000 + 0xfc;
              q := q + 1;
              buf[q] := c / 0x100_0000 % 64 + 0x80;
              q := q + 1;
            } else {
              return 0;
            }
            buf[q] := c / 0x4_0000 % 64 + 0x80;
            q := q + 1;
          }
          buf[q] := c / 4096 % 64 + 0x80;
          q := q + 1;
        }
        buf[q] := c / 64 % 64 + 0x80;
        q := q + 1;
      }
      buf[q] := c % 64 + 0x80;
      q := q + 1;
    }
    n := q;
  }

  // ----- the decoder -----

  function MinCode(l: nat): nat { if l == 1 then 0x80 else if l == 2 then 0x800 else if l == 3 then 0x10000 else if l == 4 then 0x20_0000 else 0x400_0000 }

  /** The bytes read so far: lead v with l continuation bytes to come, i of them read into c. */
  predicate Reading(p: seq<Byte>, l: nat, v: nat, i: nat, c: nat) {
    && 1 <= l <= 5 && i <= l && l < |p| && p[0] == LeadBase(l) + v && v < LeadSpan(l)
    && High(c, i) == v && Tail(c, i) == p[1..i + 1]
  }

  lemma ReadMore(p: seq<Byte>, l: nat, v: nat, i: nat, c: nat)
    requires Reading(p, l, v, i, c) && i < l && 0x80 <= p[i + 1] < 0xc0
    ensures Reading(p, l, v, i + 1, c * 64 + p[i + 1] % 64)
  {
    var c', b: nat := c * 64 + p[i + 1] % 64, p[i + 1];
    assert c' / 64 == c && c' % 64 == b - 0x80;
    assert p[1..i + 2] == p[1..i + 1] + [b];
  }

  /** All bytes are read: they encode c, unless c is too small for this length. */
  lemma ReadAll(p: seq<Byte>, l: nat, v: nat, c: nat)
    requires Reading(p, l, v, l, c)
    ensures c < CODE_SPAN && (c >= MinCode(l) ==> Encoding(c) == p[..l + 1])
    ensures c < MinCode(l) ==> TailLength(c) < l
  {
    HighUnfold(c);
    if c >= MinCode(l) {
      assert TailLength(c) == l;
      assert p[..l + 1] == [p[0]] + p[1..l + 1];
    }
  }

  /** An encoding at the start of p fixes the lead byte and the range of the bytes after it. */
  lemma EncodedAt(p: seq<Byte>, e: nat)
    requires e < CODE_SPAN && Encoding(e) <= p
    ensures (var l := TailLength(e);
      && l <= 5 && l < |p| && p[0] == LeadBase(l) + High(e, l) < 0xfe && High(e, l) < LeadSpan(l)
      && Tail(e, l) == p[1..l + 1] && forall i :: 1 <= i <= l ==> 0x80 <= p[i] < 0xc0)
  {
    var l, s := TailLength(e), Encoding(e);
    LeadOf(e);
    TailForm(e, l);
    assert s == p[..l + 1] && s[0] == p[0];
    assert Tail(e, l) == s[1..] == p[1..l + 1];
    forall i | 1 <= i <= l ensures 0x80 <= p[i] < 0xc0 { assert p[i] == Tail(e, l)[i - 1]; }
  }

  ghost predicate Encoded(p: seq<Byte>) { exists e: nat :: e < CODE_SPAN && Encoding(e) <= p }

  lemma ReadStart(p: seq<Byte>, l: nat)
    requires 1 <= l <= 5 && l < |p| && LeadBase(l) <= p[0] < LeadBase(l) + LeadSpan(l)
    ensures Reading(p, l, p[0] - LeadBase(l), 0, p[0] - LeadBase(l))
  {
  }

  lemma LeadUnique(p: seq<Byte>, l: nat, e: nat)
    requires 0 <= l <= 5 && p != [] && LeadBase(l) <= p[0] < LeadBase(l) + LeadSpan(l) && e < CODE_SPAN && Encoding(e) <= p
    ensures TailLength(e) == l < |p| && (forall i :: 1 <= i <= l ==> 0x80 <= p[i] < 0xc0)
    ensures High(e, l) == p[0] - LeadBase(l) && Tail(e, l) == p[1..l + 1]
  {
    hide Tail, High, Encoding;
    EncodedAt(p, e);
  }

  /** Values of a first byte that begin no encoding. */
  predicate NoLead(b: nat) { 0x80 <= b < 0xc0 || b >= 0xfe }

  lemma BadLead(p: seq<Byte>)
    requires p != [] && NoLead(p[0])
    ensures !Encoded(p)
  {
    hide Tail, High, Encoding;
    if e: nat :| e < CODE_SPAN && Encoding(e) <= p { EncodedAt(p, e); }
  }

  lemma Broken(p: seq<Byte>, l: nat)
    requires 1 <= l <= 5 && p != [] && LeadBase(l) <= p[0] < LeadBase(l) + LeadSpan(l)
    requires l >= |p| || exists i :: 1 <= i <= l && !(0x80 <= p[i] < 0xc0)
    ensures !Encoded(p)
  {
    hide Tail, High, Encoding, TailLength;
    if e: nat :| e < CODE_SPAN && Encoding(e) <= p { LeadUnique(p, l, e); }
  }

  lemma TooSmall(p: seq<Byte>, l: nat, v: nat, c: nat)
    requires Reading(p, l, v, l, c) && c < MinCode(l)
    ensures !Encoded(p)
  {
    hide Tail, High, Encoding;
    if e: nat :| e < CODE_SPAN && Encoding(e) <= p {
      LeadUnique(p, l, e);
      ReadAll(p, l, v, c);
      TailInjective(c, e, l);
    }
  }

  /** unicode_from_utf8: the code whose encoding begins the first maxLen bytes, or -1 when none does. */
  method UnicodeFromUtf8(p: seq<Byte>, maxLen: nat) returns (c: int, next: nat)
    requires 1 <= maxLen <= |p|
    ensures c == -1 || 0 <= c < CODE_SPAN
    ensures c >= 0 ==> next <= maxLen && Encoding(c) == p[..next]
    ensures c == -1 <==> !Encoded(p[..maxLen])
  {
    hide Reading, Encoding, Encoded;
    ghost var q := p[..maxLen];
    var first: nat := p[0];
    next := 1;
    if first < 0x80 {
      OneByte(q, first);
      return first, next;
    }
    var l: nat;
    if 0xc0 <= first <= 0xdf { l := 1; }
    else if 0xe0 <= first <= 0xef { l := 2; }
    else if 0xf0 <= first <= 0xf7 { l := 3; }
    else if 0xf8 <= first <= 0xfb { l := 4; }
    else if 0xfc <= first <= 0xfd { l := 5; }
    else { BadLead(q); return -1, 0; }
    if l > maxLen - 1 { Broken(q, l); return -1, 0; }
    var mask := if l == 1 then 0x20 else if l == 2 then 0x10 else if l == 3 then 0x8 else if l == 4 then 0x4 else 0x2;
    ReadStart(q, l);
    var v: nat := first % mask;
    c := v;
    for i: nat := 0 to l
      invariant next == i + 1 && c >= 0 && Reading(q, l, v, i, c)
    {
      var b: nat := p[next];
      next := next + 1;
      if b < 0x80 || b >= 0xc0 { Broken(q, l); return -1, 0; }
      ReadMore(q, l, v, i, c);
      c := c * 64 + b % 64;
    }
    ReadAll(q, l, v, c);
    if c < MinCode(l) { TooSmall(q, l, v, c); return -1, 0; }
    FoundCode(q, c, l + 1);
  }

  lemma FoundCode(p: seq<Byte>, c: nat, n: nat)
    requires c < CODE_SPAN && n <= |p| && Encoding(c) == p[..n]
    ensures Encoded(p)
  {
    hide Encoding;
  }

  lemma OneByte(p: seq<Byte>, c: nat)
    requires p != [] && p[0] == c < 0x80
    ensures Encoding(c) == p[..1] && Encoded(p)
  {
    assert Encoding(c) == p[..1];
    FoundCode(p, c, 1);
  }

  /** Decoding what was encoded gives the code back and consumes exactly its bytes: whatever the decoder
    * promises of r and next on a buffer that begins with the encoding of c. */
  lemma DecodeInvertsEncode(p: seq<Byte>, c: nat, r: int, next: nat)
    requires c < CODE_SPAN && Encoding(c) <= p
    requires r == -1 || 0 <= r < CODE_SPAN
    requires r >= 0 ==> next <= |p| && Encoding(r) == p[..next]
    requires r == -1 <==> !Encoded(p)
    ensures r == c && next == |Encoding(c)|
  {
    hide Encoding;
    assert Encoded(p);
    if next <= |Encoding(c)| { PrefixFree(r, c); } else { PrefixFree(c, r); }
  }
}
