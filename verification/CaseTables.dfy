/** Case conversion from a sorted table of runs, and the characters that case folding can change. */
module CaseTables {
  import opened CharSets

  // Run types, in the order of the table's encoding.
  const RUN_U: nat := 0
  const RUN_UF: nat := 2
  const RUN_LF: nat := 3
  const RUN_UL: nat := 4
  const RUN_LSU: nat := 5
  const RUN_U2L_399_EXT2: nat := 6
  const RUN_UF_D20: nat := 7
  const RUN_UF_D1_EXT: nat := 8
  const RUN_U_EXT: nat := 9
  const RUN_LF_EXT: nat := 10
  const RUN_UF_EXT2: nat := 11
  const RUN_LF_EXT2: nat := 12
  const RUN_UF_EXT3: nat := 13

  /** A run of `len` characters from `code` on; `data` is an index or a value, by type. */
  datatype Run = Run(code: nat, len: nat, kind: nat, data: nat)

  datatype Tables = Tables(runs: seq<Run>, ext: seq<nat>)

  predicate Contains(r: Run, c: nat) { r.code <= c < r.code + r.len }

  /** Indices into the tables are in range. */
  predicate DataValid(t: Tables, r: Run) {
    if r.kind <= RUN_LF then r.data < |t.runs|
    else if r.kind == RUN_U2L_399_EXT2 then r.data / 64 < |t.ext| && r.data % 64 < |t.ext|
    else if r.kind == RUN_UF_D1_EXT || r.kind == RUN_U_EXT || r.kind == RUN_LF_EXT then r.data < |t.ext|
    else true
  }

  /** lre_case_conv_entry: the first character of the result and its length. Conversion 0 is to upper
    * case, 1 to lower case, 2 case folding. */
  function ConvEntry(t: Tables, c: nat, conv: nat, r: Run): (nat, nat)
    requires Contains(r, c) && DataValid(t, r) && conv <= 2
  {
    var lower := if conv != 0 then 1 else 0;
    var a := c - r.code;
    if r.kind <= RUN_LF then
      (if conv == r.kind % 2 || (r.kind >= RUN_UF && conv == 2) then a + t.runs[r.data].code else c, 1)
    else if r.kind == RUN_UL then
      (if a % 2 != 1 - lower then c else if a % 2 == 0 then c + 1 else c - 1, 1)
    else if r.kind == RUN_LSU then
      (if a == 1 then (if lower == 1 then c + 1 else c - 1)
       else if a == (1 - lower) * 2 then (if lower == 1 then c + 2 else c - 2)
       else c, 1)
    else if r.kind == RUN_U2L_399_EXT2 then
      (if lower == 0 then (a + t.ext[r.data / 64], 2) else (a + t.ext[r.data % 64], 1))
    else if r.kind == RUN_UF_D20 then
      (if conv == 1 then c else r.data + (if conv == 2 then 0x20 else 0), 1)
    else if r.kind == RUN_UF_D1_EXT then
      (if conv == 1 then c else t.ext[r.data] + (if conv == 2 then 1 else 0), 1)
    else if r.kind == RUN_U_EXT || r.kind == RUN_LF_EXT then
      (if lower != r.kind - RUN_U_EXT then c else t.ext[r.data], 1)
    else if r.kind == RUN_LF_EXT2 then
      (c, if lower == 0 then 1 else 2)
    else if r.kind == RUN_UF_EXT2 then
      (c, if conv == 1 then 1 else 2)
    else
      (c, if conv == 1 then 1 else 3)
  }

  /** lre_case_folding_entry */
  function FoldEntry(t: Tables, c: nat, r: Run, unicode: bool): nat
    requires Contains(r, c) && DataValid(t, r)
  {
    if unicode then
      var (x, n) := ConvEntry(t, c, 2, r);
      if n == 1 then x else if c == 0xfb06 then 0xfb05 else if c == 0x1fd3 then 0x390 else if c == 0x1fe3 then 0x3b0 else c
    else if c < 128 then
      AsciiFold(c, false)
    else
      var (x, n) := ConvEntry(t, c, 0, r);
      if n == 1 && x >= 128 then x else c
  }

  /** The fast path of lre_canonicalize. */
  function AsciiFold(c: nat, unicode: bool): nat {
    if unicode then (if 65 <= c <= 90 then c + 32 else c) else if 97 <= c <= 122 then c - 32 else c
  }

  /** The run that contains c, if there is one. */
  function FindRun(runs: seq<Run>, c: nat): (i: int)
    ensures -1 <= i < |runs| && (i >= 0 ==> Contains(runs[i], c))
    ensures i == -1 ==> forall k :: 0 <= k < |runs| ==> !Contains(runs[k], c)
  {
    if runs == [] then -1
    else if Contains(runs[|runs| - 1], c) then |runs| - 1
    else
      var init := runs[..|runs| - 1];
      assert forall k :: 0 <= k < |init| ==> init[k] == runs[k];
      FindRun(init, c)
  }

  /** What the tables must satisfy. */
  ghost predicate ValidTables(t: Tables) {
    && (forall i, j :: 0 <= i < j < |t.runs| ==> t.runs[i].code + t.runs[i].len <= t.runs[j].code)
    && (forall i :: 0 <= i < |t.runs| ==> RunValid(t, t.runs[i]))
    && (forall i :: 0 <= i < |t.ext| ==> t.ext[i] < 0x1_0000)
    && (forall c, unicode :: AsciiAgrees(t, c, unicode))
  }

  predicate RunValid(t: Tables, r: Run) {
    && r.len >= 1 && r.kind <= RUN_UF_EXT3 && DataValid(t, r)
    && (r.kind == RUN_UL ==> r.len % 2 == 0) && (r.kind == RUN_LSU ==> r.len == 3)
    && r.code + r.len <= 0x2_0000 && r.data < 0x1000
  }

  /** For ASCII characters the tables do what the fast path does. */
  predicate AsciiAgrees(t: Tables, c: nat, unicode: bool) {
    c < 128 ==>
      var i := FindRun(t.runs, c);
      if !unicode then (97 <= c <= 122 ==> i != -1 && Masked(t.runs[i], false, c))
      else if i == -1 then AsciiFold(c, true) == c
      else DataValid(t, t.runs[i]) && AsciiFold(c, true) == FoldEntry(t, c, t.runs[i], true)
  }

  /** lre_canonicalize */
  function Canonicalize(t: Tables, unicode: bool, c: nat): nat
    requires forall i :: 0 <= i < |t.runs| ==> DataValid(t, t.runs[i])
  {
    if c < 128 then AsciiFold(c, unicode) else
    var i := FindRun(t.runs, c);
    if i == -1 then c else FoldEntry(t, c, t.runs[i], unicode)
  }

  lemma AllDataValid(t: Tables)
    requires ValidTables(t)
    ensures forall i :: 0 <= i < |t.runs| ==> DataValid(t, t.runs[i])
  {
    hide AsciiAgrees, DataValid;
    forall i | 0 <= i < |t.runs| ensures DataValid(t, t.runs[i]) { assert RunValid(t, t.runs[i]); }
  }

  /** A character is in one run only. */
  lemma FoundIs(t: Tables, c: nat, i: nat)
    requires ValidTables(t) && i < |t.runs| && Contains(t.runs[i], c)
    ensures FindRun(t.runs, c) == i
  {
    hide AsciiAgrees, RunValid;
    var k := FindRun(t.runs, c);
    assert k >= 0;
  }

  /** The binary search of lre_canonicalize. */
  method LreCanonicalize(t: Tables, unicode: bool, c: nat) returns (d: nat)
    requires ValidTables(t)
    ensures (forall i :: 0 <= i < |t.runs| ==> DataValid(t, t.runs[i])) && d == Canonicalize(t, unicode, c)
  {
    hide AsciiAgrees, RunValid, DataValid, FoldEntry;
    AllDataValid(t);
    if c < 128 { return AsciiFold(c, unicode); }
    var low, high := 0, |t.runs| - 1;
    while low <= high
      invariant 0 <= low <= |t.runs| && -1 <= high < |t.runs|
      invariant forall k :: 0 <= k < low ==> t.runs[k].code + t.runs[k].len <= c
      invariant forall k :: high < k < |t.runs| ==> c < t.runs[k].code
      decreases high - low
    {
      var idx := (high + low) / 2;
      var r := t.runs[idx];
      if c < r.code {
        high := idx - 1;
      } else if c >= r.code + r.len {
        low := idx + 1;
      } else {
        FoundIs(t, c, idx);
        return FoldEntry(t, c, r, unicode);
      }
    }
    d := c;
  }

  // ----- unicode_case1 -----

  /** Run types in the mask: CASE_F for Unicode patterns, CASE_U for others. */
  predicate KindInMask(kind: nat, unicode: bool) {
    if unicode then
      kind == RUN_UF || kind == RUN_LF || kind == RUN_UL || kind == RUN_LSU || kind == RUN_U2L_399_EXT2 || kind == RUN_LF_EXT
      || kind == RUN_LF_EXT2 || kind == RUN_UF_D20 || kind == RUN_UF_D1_EXT || kind == RUN_UF_EXT2 || kind == RUN_UF_EXT3
    else
      kind == RUN_U || kind == RUN_UF || kind == RUN_UL || kind == RUN_LSU || kind == RUN_U2L_399_EXT2 || kind == RUN_UF_D20
      || kind == RUN_UF_D1_EXT || kind == RUN_U_EXT || kind == RUN_UF_EXT2 || kind == RUN_UF_EXT3
  }

  /** The characters of a run that the mask holds. */
  predicate Masked(r: Run, unicode: bool, c: nat) {
    && Contains(r, c) && KindInMask(r.kind, unicode)
    && (r.kind == RUN_UL ==> (c - r.code) % 2 == if unicode then 0 else 1)
    && (r.kind == RUN_LSU ==> if unicode then c - r.code <= 1 else c - r.code >= 1)
  }

  predicate InMask(t: Tables, unicode: bool, c: nat) {
    exists i :: 0 <= i < |t.runs| && Masked(t.runs[i], unicode, c)
  }

  /** Characters outside the mask are fixed. */
  lemma OutsideMaskFixed(t: Tables, unicode: bool, c: nat)
    requires ValidTables(t) && !InMask(t, unicode, c)
    ensures (forall i :: 0 <= i < |t.runs| ==> DataValid(t, t.runs[i])) && Canonicalize(t, unicode, c) == c
  {
    hide RunValid, FoldEntry, KindInMask, DataValid;
    AllDataValid(t);
    var i := FindRun(t.runs, c);
    assert AsciiAgrees(t, c, unicode);
    if i != -1 {
      assert RunValid(t, t.runs[i]) && !Masked(t.runs[i], unicode, c);
      UnmaskedFixed(t, t.runs[i], unicode, c);
    }
  }

  lemma UnmaskedFixed(t: Tables, r: Run, unicode: bool, c: nat)
    requires RunValid(t, r) && Contains(r, c) && !Masked(r, unicode, c)
    ensures unicode || c >= 128 ==> FoldEntry(t, c, r, unicode) == c
  {
  }

  /** The table entry gives the canonical form, also for ASCII. */
  lemma EntryIsCanonical(t: Tables, unicode: bool, c: nat, i: nat)
    requires ValidTables(t) && i < |t.runs| && Contains(t.runs[i], c)
    ensures (forall k :: 0 <= k < |t.runs| ==> DataValid(t, t.runs[k]))
    ensures FoldEntry(t, c, t.runs[i], unicode) == Canonicalize(t, unicode, c)
  {
    hide RunValid, ConvEntry, DataValid, AsciiFold, Masked;
    AllDataValid(t);
    FoundIs(t, c, i);
    assert AsciiAgrees(t, c, unicode);
  }

  /** Canonical forms are small numbers. */
  lemma FoldBound(t: Tables, c: nat, r: Run, unicode: bool)
    requires ValidTables(t) && RunValid(t, r) && Contains(r, c)
    ensures FoldEntry(t, c, r, unicode) < UINT32_MAX
  {
    hide AsciiAgrees;
    if r.kind <= RUN_LF { assert RunValid(t, t.runs[r.data]); }
  }

  // ----- what canonical forms are -----

  /** ASCII letters: upper case in other patterns, lower case in Unicode patterns; the other ASCII characters are fixed. */
  lemma AsciiForms(t: Tables, k: nat)
    requires ValidTables(t)
    ensures forall i :: 0 <= i < |t.runs| ==> DataValid(t, t.runs[i])
    ensures k < 26 ==> Canonicalize(t, false, 97 + k) == 65 + k && Canonicalize(t, false, 65 + k) == 65 + k
    ensures k < 26 ==> Canonicalize(t, true, 97 + k) == 97 + k && Canonicalize(t, true, 65 + k) == 97 + k
    ensures k < 128 && !(65 <= k < 91) && !(97 <= k < 123) ==> Canonicalize(t, false, k) == k && Canonicalize(t, true, k) == k
  {
    AllDataValid(t);
  }

  /** Canonical form of a character beyond ASCII, from its run. */
  lemma FormInRun(t: Tables, unicode: bool, i: nat, c: nat)
    requires ValidTables(t) && i < |t.runs| && Contains(t.runs[i], c) && c >= 128
    ensures RunValid(t, t.runs[i]) && (forall k :: 0 <= k < |t.runs| ==> DataValid(t, t.runs[k]))
    ensures Canonicalize(t, unicode, c) == FoldEntry(t, c, t.runs[i], unicode)
  {
    hide RunValid, FoldEntry, DataValid, AsciiAgrees;
    AllDataValid(t);
    FoundIs(t, c, i);
  }

  /** Upper-lower pairs: both characters have one form, the upper one first in the pair, and it is fixed. */
  lemma PairForms(t: Tables, unicode: bool, i: nat, k: nat)
    requires ValidTables(t) && i < |t.runs| && t.runs[i].kind == RUN_UL && 2 * k + 1 < t.runs[i].len && t.runs[i].code >= 128
    ensures (forall j :: 0 <= j < |t.runs| ==> DataValid(t, t.runs[j]))
    ensures (var upper := t.runs[i].code + 2 * k; var form := if unicode then upper + 1 else upper;
      Canonicalize(t, unicode, upper) == form && Canonicalize(t, unicode, upper + 1) == form)
  {
    hide RunValid, DataValid, AsciiAgrees, Canonicalize, ValidTables;
    var upper := t.runs[i].code + 2 * k;
    FormInRun(t, unicode, i, upper);
    FormInRun(t, unicode, i, upper + 1);
  }

  /** Upper, title and lower case of a digraph have one form, and it is fixed. */
  lemma TripleForms(t: Tables, unicode: bool, i: nat, k: nat)
    requires ValidTables(t) && i < |t.runs| && t.runs[i].kind == RUN_LSU && k < 3 && t.runs[i].code >= 128
    ensures (forall j :: 0 <= j < |t.runs| ==> DataValid(t, t.runs[j]))
    ensures Canonicalize(t, unicode, t.runs[i].code + k) == if unicode then t.runs[i].code + 2 else t.runs[i].code
  {
    hide DataValid, AsciiAgrees, Canonicalize;
    assert RunValid(t, t.runs[i]);
    FormInRun(t, unicode, i, t.runs[i].code + k);
  }

  /** Where an offset run goes, if it has forms in the kind of pattern: the run of the other case, or a character of the
    * extension table. */
  function OffsetTarget(t: Tables, r: Run, unicode: bool): (f: int)
    requires DataValid(t, r)
  {
    if r.kind == RUN_U then (if unicode then -1 else t.runs[r.data].code)
    else if r.kind == RUN_UF then t.runs[r.data].code
    else if r.kind == RUN_LF then (if unicode then t.runs[r.data].code else -1)
    else if r.kind == RUN_U2L_399_EXT2 then (if unicode then t.ext[r.data % 64] else -1)
    else -1
  }

  /** In an offset run consecutive characters have consecutive forms. Outside Unicode patterns a form below 128 is not
    * taken. */
  lemma OffsetForms(t: Tables, unicode: bool, i: nat, k: nat)
    requires ValidTables(t) && i < |t.runs| && k < t.runs[i].len && t.runs[i].code >= 128
    requires t.runs[i].kind <= RUN_LF || t.runs[i].kind == RUN_U2L_399_EXT2
    ensures (forall j :: 0 <= j < |t.runs| ==> DataValid(t, t.runs[j]))
    ensures (var c, f := t.runs[i].code + k, OffsetTarget(t, t.runs[i], unicode);
      Canonicalize(t, unicode, c) == if f >= 0 && (unicode || f + k >= 128) then f + k else c)
  {
    hide AsciiAgrees, Canonicalize;
    FormInRun(t, unicode, i, t.runs[i].code + k);
  }

  /** Runs with one form, given by value or in the extension table. */
  lemma SingleForms(t: Tables, unicode: bool, i: nat, c: nat)
    requires ValidTables(t) && i < |t.runs| && Contains(t.runs[i], c) && c >= 128
    ensures (forall j :: 0 <= j < |t.runs| ==> DataValid(t, t.runs[j]))
    ensures t.runs[i].kind == RUN_UF_D20 && unicode ==> Canonicalize(t, true, c) == t.runs[i].data + 32
    ensures t.runs[i].kind == RUN_UF_D20 && !unicode && t.runs[i].data >= 128 ==> Canonicalize(t, false, c) == t.runs[i].data
    ensures t.runs[i].kind == RUN_UF_D1_EXT && unicode ==> Canonicalize(t, true, c) == t.ext[t.runs[i].data] + 1
    ensures t.runs[i].kind == RUN_UF_D1_EXT && !unicode && t.ext[t.runs[i].data] >= 128 ==> Canonicalize(t, false, c) == t.ext[t.runs[i].data]
    ensures t.runs[i].kind == RUN_U_EXT && !unicode && t.ext[t.runs[i].data] >= 128 ==> Canonicalize(t, false, c) == t.ext[t.runs[i].data]
    ensures t.runs[i].kind == RUN_LF_EXT && unicode ==> Canonicalize(t, true, c) == t.ext[t.runs[i].data]
    ensures t.runs[i].kind == RUN_U_EXT && unicode ==> Canonicalize(t, true, c) == c
    ensures t.runs[i].kind == RUN_LF_EXT && !unicode ==> Canonicalize(t, false, c) == c
  {
    hide AsciiAgrees, Canonicalize, ValidTables;
    FormInRun(t, unicode, i, c);
  }

  /** Characters whose full conversion is longer than one character are fixed, but for three that fold to their twins. */
  lemma LongForms(t: Tables, unicode: bool, i: nat, c: nat)
    requires ValidTables(t) && i < |t.runs| && Contains(t.runs[i], c) && c >= 128 && t.runs[i].kind >= RUN_UF_EXT2
    ensures (forall j :: 0 <= j < |t.runs| ==> DataValid(t, t.runs[j]))
    ensures unicode && c == 0xfb06 ==> Canonicalize(t, true, c) == 0xfb05
    ensures unicode && c == 0x1fd3 ==> Canonicalize(t, true, c) == 0x390
    ensures unicode && c == 0x1fe3 ==> Canonicalize(t, true, c) == 0x3b0
    ensures unicode && c != 0xfb06 && c != 0x1fd3 && c != 0x1fe3 ==> Canonicalize(t, true, c) == c
    ensures !unicode ==> Canonicalize(t, false, c) == c
  {
    hide AsciiAgrees, Canonicalize, ValidTables;
    FormInRun(t, unicode, i, c);
  }
}
