/** The engine as its callers see it: compile once, then match. */
module Engine {
  import opened Wrappers
  import opened RegexSyntax
  import opened EcmaMatcher
  import EcmaContinuation
  import opened Bytecode
  import opened Emit
  import opened CodeBounds
  import opened SlotMatcher
  import opened SnapshotVm
  import opened Yields
  import opened CaptureReset
  import opened Simulation
  import opened ProgramRun
  import opened BacktrackVm
  import opened Compiler
  import Utf16Cursor

  /** The header fields lre_exec reads. */
  function CaptureCount(bc: seq<byte>): nat
    requires |bc| >= HEADER_LEN
  {
    bc[2]
  }

  function AllocCount(bc: seq<byte>): nat
    requires |bc| >= HEADER_LEN
  {
    2 * bc[2] as int + bc[3] as int
  }

  function Program(bc: seq<byte>, e: Env): Prog
    requires |bc| >= HEADER_LEN
  {
    Prog(bc[HEADER_LEN..], CaptureCount(bc), e)
  }

  /** A compiled pattern, as lre_compile returns it. */
  ghost predicate Compiled(bc: seq<byte>, e: Env, n: Node, f: Flags) {
    ValidEnv(e) && ValidNode(n) && Compilable(e, n, f.sticky) && bc == Image(e, n, f)
  }

  lemma ImageFields(e: Env, n: Node, f: Flags)
    requires ValidNode(n) && 1 + Groups(n) < 256 && Depth(n, false) < 256
    ensures var bc := Image(e, n, f);
      && |bc| >= HEADER_LEN && CaptureCount(bc) == 1 + Groups(n) && AllocCount(bc) == 2 * (1 + Groups(n)) + Depth(n, false)
      && bc[HEADER_LEN..] == Bytes(ProgramCode(e, n, f.sticky, true))
  {
    hide Bytes, ProgramCode, U32, U16, Groups, Depth, ValidNode, FlagWord;
    U16Len(FlagWord(f));
    U32Len(|Bytes(ProgramCode(e, n, f.sticky, true))|);
  }

  /** What the compiler promises the machine: every opcode, jump and register is where the semantics
    * of the pattern needs it. */
  lemma CompiledIsLoaded(bc: seq<byte>, e: Env, n: Node, f: Flags)
    requires Compiled(bc, e, n, f) && RefsBelow(n, 1 + Groups(n))
    ensures |bc| >= HEADER_LEN && Loaded(Program(bc, e), n, f.sticky)
    ensures AllocCount(bc) == 2 * (1 + Groups(n)) + Depth(n, false)
  {
    hide *;
    CompiledFacts(bc, e, n, f);
    var sticky := f.sticky;
    var code := ProgramCode(e, n, sticky, true);
    CompilableIs(e, n, sticky);
    ProgramWithin(e, n, sticky, true);
    ProgramAllocated(e, n, sticky);
    SmallSize(Size(code));
    WithinIsValid(code, Size(code) + 11);
    ImageFields(e, n, f);
    EncodedHasCode([], code, []);
    assert [] + Bytes(code) + [] == Bytes(code);
    ProgramIs(bc, e);
    LoadedIs(Program(bc, e), n, sticky);
  }

  lemma SmallSize(k: nat)
    ensures SIZE_MAX + 11 < 0x8000_0000 && HEADER_LEN == 8
  {
  }

  lemma CompiledFacts(bc: seq<byte>, e: Env, n: Node, f: Flags)
    requires Compiled(bc, e, n, f)
    ensures ValidEnv(e) && ValidNode(n) && Compilable(e, n, f.sticky) && bc == Image(e, n, f)
  {
    hide ValidEnv, ValidNode, Compilable, Image;
  }

  lemma ProgramIs(bc: seq<byte>, e: Env)
    requires |bc| >= HEADER_LEN
    ensures Program(bc, e).code == bc[HEADER_LEN..] && Program(bc, e).captures == CaptureCount(bc) && Program(bc, e).env == e
  {
  }

  lemma LoadedIs(p: Prog, n: Node, sticky: bool)
    requires ValidEnv(p.env) && ValidNode(n) && p.captures == 1 + Groups(n) && RefsBelow(n, p.captures)
    requires HasCode(p.code, 0, ProgramCode(p.env, n, sticky, true))
    ensures Loaded(p, n, sticky)
  {
    hide ValidEnv, ValidNode, Groups, RefsBelow, HasCode, ProgramCode;
  }

  /** Does `slots` hold the answer of RegExpBuiltinExec (section 22.2.7.2 of ECMA-262)? */
  ghost predicate ReportsMatch(e: Env, n: Node, sticky: bool, start: nat, matched: bool, slots: seq<int>)
    requires start <= |e.input|
  {
    match EcmaContinuation.BuiltinExec(e, n, sticky, start)
    case None => !matched
    case Some(f) => matched && |slots| >= 2 && slots[1] >= 0 && Reports(f, 1 + Groups(n), slots[1], slots)
  }

  /** The same for the compiled semantics, in which a counted loop takes INT32_MAX literally. */
  ghost predicate ReportsHit(e: Env, n: Node, sticky: bool, start: nat, matched: bool, slots: seq<int>)
    requires start <= |e.input|
  {
    match MachineExec(e, n, sticky, start)
    case None => !matched
    case Some(h) => matched && |slots| >= 2 && slots[1] >= 0 && Shows(h, 1 + Groups(n), slots[1], slots)
  }

  /** lre_exec: clear the captures, then run. It stops with the answer of the compiled semantics,
    * which is that of ECMA-262 when no counted loop can run out of count. */
  method LreExec(capture: array<int>, bc: seq<byte>, e: Env, start: nat, ghost n: Node, ghost f: Flags) returns (matched: bool)
    requires Compiled(bc, e, n, f) && RefsBelow(n, 1 + Groups(n))
    requires start <= |e.input| && |bc| >= HEADER_LEN && capture.Length == AllocCount(bc)
    modifies capture
    ensures ReportsHit(e, n, f.sticky, start, matched, capture[..])
    ensures Fits(n, false, |e.input|) ==> ReportsMatch(e, n, f.sticky, start, matched, capture[..])
  {
    hide *;
    CompiledIsLoaded(bc, e, n, f);
    LoadedFacts(Program(bc, e), n, f.sticky);
    ProgramIs(bc, e);
    var count := 2 * CaptureCount(bc);
    var i := 0;
    while i < count
      invariant 0 <= i <= count && forall k :: 0 <= k < i ==> capture[k] == UNSET
    {
      capture[i] := UNSET;
      i := i + 1;
    }
    ghost var regs := capture[count..];
    CleanStart(CaptureCount(bc), start, capture[..], regs);
    var s := new REExecContext(Program(bc, e), capture, 0, start);
    ghost var final := RunProgram(Program(bc, e), n, f.sticky, start, regs);
    AnswersParts(e, n, f.sticky, start, final);
    StartInside(e, s.Abs());
    var status := s.LreExecBacktrack(final);
    s.IsCases(status, final);
    matched := status == Matched;
    FinalAnswer(e, n, f.sticky, start, final, s.cptr, capture[..], matched);
  }

  /** lre_exec as it is called, on a buffer of units: 16-bit units are UTF-16 when the header has a Unicode flag. The
    * machine keeps its cursors as character indices; the start is the character that begins at the adjusted cursor. */
  method LreExecBuffer(capture: array<int>, bc: seq<byte>, units: seq<Utf16Cursor.CodeUnit>, wide: bool, cindex: nat, e: Env, ghost n: Node, ghost f: Flags)
    returns (matched: bool, start: nat)
    requires Compiled(bc, e, n, f) && RefsBelow(n, 1 + Groups(n))
    requires e.input == Utf16Cursor.Chars(Utf16Cursor.Buffer(units, wide && (f.unicode || f.unicodeSets)), 0)
    requires cindex <= |units| && |bc| >= HEADER_LEN && capture.Length == AllocCount(bc)
    modifies capture
    ensures (var b := Utf16Cursor.Buffer(units, wide && (f.unicode || f.unicodeSets));
      && start <= |e.input| && Utf16Cursor.Offset(b, start) <= cindex < Utf16Cursor.Offset(b, start + 1)
      && (Utf16Cursor.PairAt(b, cindex - 1) || Utf16Cursor.Offset(b, start) == cindex))
    ensures ReportsHit(e, n, f.sticky, start, matched, capture[..])
    ensures Fits(n, false, |e.input|) ==> ReportsMatch(e, n, f.sticky, start, matched, capture[..])
  {
    hide *;
    CompiledFacts(bc, e, n, f);
    FlagsInHeader(e, n, f, f);
    FlagBits(f);
    SmallSize(0);
    var flags := GetU16(bc, 0);
    var b := Utf16Cursor.Buffer(units, wide && (flags / 16 % 2 != 0 || flags / 256 % 2 != 0));
    Utf16Cursor.StartIsBoundary(b, cindex);
    var p := Utf16Cursor.StartCursor(b, cindex);
    start := Utf16Cursor.IndexOf(b, p);
    matched := LreExec(capture, bc, e, start, n, f);
  }

  lemma CleanStart(captures: nat, start: nat, slots: seq<int>, regs: seq<int>)
    requires |slots| >= 2 * captures && regs == slots[2 * captures..]
    requires forall k :: 0 <= k < 2 * captures ==> slots[k] == UNSET
    ensures At(0, Fresh(captures, start), regs, []) == Run(0, start, slots, [])
  {
    assert slots == StartSlots(captures) + regs;
  }

  lemma AnswersParts(e: Env, n: Node, sticky: bool, start: nat, c: Cfg)
    requires start <= |e.input| && Answers(e, n, sticky, start, c)
    ensures c.Accept? || c.Reject?
  {
    hide MachineExec, Shows, Groups;
  }

  lemma StartInside(e: Env, c: Cfg)
    requires c.Run? ==> c.pos <= |e.input| && c.stack == []
    ensures Inside(e, c)
  {
  }

  lemma FinalAnswer(e: Env, n: Node, sticky: bool, start: nat, c: Cfg, pos: nat, slots: seq<int>, matched: bool)
    requires start <= |e.input| && ValidNode(n) && Answers(e, n, sticky, start, c)
    requires matched ==> c == Accept(pos, slots)
    requires !matched ==> c == Reject
    ensures ReportsHit(e, n, sticky, start, matched, slots)
    ensures Fits(n, false, |e.input|) ==> ReportsMatch(e, n, sticky, start, matched, slots)
  {
    hide RegExpExec, EcmaContinuation.BuiltinExec, MachineExec, Groups, Fits, ValidNode, Reports, SameAnswer;
    var h := MachineExec(e, n, sticky, start);
    if h.Some? { assert slots[..2 * (1 + Groups(n))][1] == slots[1]; }
    if Fits(n, false, |e.input|) {
      MachineExecIsRegExpExec(e, n, sticky, start);
      EcmaContinuation.BuiltinExecIsRegExpExec(e, n, sticky, start);
      var f := RegExpExec(e, n, sticky, start);
      SameParts(e, 1 + Groups(n), f, h);
      if f.Some? {
        ShowsReports(e, 1 + Groups(n), f.value, h.value, pos, slots);
        ReportsPos(f.value, 1 + Groups(n), pos, slots);
      }
    }
  }

  lemma SameParts(e: Env, captures: nat, f: Option<Found>, h: Option<Hit>)
    requires SameAnswer(e, captures, f, h)
    ensures f.Some? == h.Some?
  {
  }

  lemma ReportsPos(f: Found, captures: nat, pos: nat, slots: seq<int>)
    requires Reports(f, captures, pos, slots)
    ensures |slots| >= 2 && slots[1] == pos
  {
  }

  /** Compiling and matching: exactly the patterns within the limits are accepted, and matching one
    * gives what the standard prescribes. */
  method CompileAndMatch(n: Node, f: Flags, e: Env, start: nat) returns (r: Result<(bool, array<int>), CompileError>)
    requires ValidEnv(e) && ValidNode(n) && start <= |e.input|
    requires RefsBelow(n, 1 + Groups(n))
    ensures r.Ok? == Compilable(e, n, f.sticky)
    ensures r.Ok? ==> ReportsHit(e, n, f.sticky, start, r.value.0, r.value.1[..])
    ensures r.Ok? && Fits(n, false, |e.input|) ==> ReportsMatch(e, n, f.sticky, start, r.value.0, r.value.1[..])
  {
    hide *;
    var s := new REParseState(e);
    var compiled := s.LreCompile(n, FlagWord(f), f);
    match compiled
    case Err(error) => return Err(error);
    case Ok(bc) =>
      CompiledIs(bc, e, n, f);
      CompiledIsLoaded(bc, e, n, f);
      var capture := new int[AllocCount(bc)](_ => 0);
      var matched := LreExec(capture, bc, e, start, n, f);
      r := Ok((matched, capture));
  }

  lemma CompiledIs(bc: seq<byte>, e: Env, n: Node, f: Flags)
    requires ValidEnv(e) && ValidNode(n) && Compilable(e, n, f.sticky) && bc == Image(e, n, f)
    ensures Compiled(bc, e, n, f)
  {
    hide ValidEnv, ValidNode, Compilable, Image;
  }
}
