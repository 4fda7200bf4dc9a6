/** Patterns as the regular-expression parser sees them once surface syntax is gone, and the
  * parameters a match runs under. Code points stand for the characters of the subject. */
module RegexSyntax {

  // parse_digits saturates here, and an absent upper bound is the same number.
  const INT32_MAX: nat := 0x7fff_ffff
  // An upper bound that is never reached.
  const INFINITE: nat := INT32_MAX + 1
  const CODE_POINT_MAX: nat := 0x10_ffff
  const UINT32_MAX: nat := 0xffff_ffff
  const CAPTURE_COUNT_MAX: nat := 255
  const REGISTER_COUNT_MAX: nat := 255

  /** One-character matchers. `Class` holds the boundary points of the set left by the class
    * parser, already canonicalised when `icase` is set. */
  datatype CharTest =
    | Literal(c: nat, icase: bool)
    | Dot(dotAll: bool)
    | Space(negated: bool)
    | Class(points: seq<nat>, icase: bool)

  /** Capture indices are not stored: a group takes the next free one, in textual order. */
  datatype Node =
    | Empty
    | Single(test: CharTest)
    | LineStart(multi: bool)
    | LineEnd(multi: bool)
    | WordBoundary(negated: bool, icase: bool)
    | Cat(first: Node, second: Node)
    | Alt(first: Node, second: Node)
    | Group(body: Node)
    | Quant(body: Node, min: nat, max: nat, greedy: bool)
    | Look(negated: bool, behind: bool, body: Node)
    | BackRef(refs: seq<nat>, icase: bool)

  /** What the engine takes from its surroundings: the subject, the case canonicalisation and
    * the white-space test. */
  datatype Env = Env(input: seq<nat>, canon: nat -> nat, isSpace: nat -> bool)

  ghost predicate ValidEnv(e: Env) {
    && (forall i :: 0 <= i < |e.input| ==> e.input[i] <= CODE_POINT_MAX)
    && (forall c: nat :: e.canon(c) <= CODE_POINT_MAX || e.canon(c) == c)
  }

  /** The bound a quantifier stands for: the parser writes INT32_MAX for none. */
  function Upper(max: nat): nat { if max == INT32_MAX then INFINITE else max }

  /** Number of capture groups in a pattern. */
  function Groups(n: Node): nat {
    match n
    case Cat(a, b) => Groups(a) + Groups(b)
    case Alt(a, b) => Groups(a) + Groups(b)
    case Group(b) => 1 + Groups(b)
    case Quant(b, _, _, _) => Groups(b)
    case Look(_, _, b) => Groups(b)
    case _ => 0
  }

  /** Boundary points of a canonical set: [p0,p1) + [p2,p3) + ... */
  predicate CanonicalPoints(p: seq<nat>) {
    && |p| % 2 == 0
    && (forall i :: 0 <= i < |p| ==> p[i] <= UINT32_MAX)
    && (forall i, j :: 0 <= i < j < |p| ==> p[i] < p[j])
  }

  predicate InPoints(p: seq<nat>, c: nat) {
    exists k :: 0 <= k < |p| / 2 && p[2 * k] <= c < p[2 * k + 1]
  }

  predicate ValidTest(t: CharTest) {
    match t
    case Literal(c, _) => c <= CODE_POINT_MAX
    case Class(p, _) => CanonicalPoints(p)
    case _ => true
  }

  /** What the parser guarantees of a pattern it accepts. */
  predicate ValidNode(n: Node) {
    match n
    case Single(t) => ValidTest(t)
    case Cat(a, b) => ValidNode(a) && ValidNode(b)
    case Alt(a, b) => ValidNode(a) && ValidNode(b)
    case Group(b) => ValidNode(b)
    case Quant(b, min, max, _) => ValidNode(b) && min <= max <= INT32_MAX
    case Look(_, _, b) => ValidNode(b)
    case BackRef(refs, _) => |refs| <= 255 && forall i :: 0 <= i < |refs| ==> 1 <= refs[i] < 255
    case _ => true
  }

  lemma ValidParts(n: Node)
    requires ValidNode(n)
    ensures match n
      case Cat(a, b) => ValidNode(a) && ValidNode(b)
      case Alt(a, b) => ValidNode(a) && ValidNode(b)
      case Group(b) => ValidNode(b)
      case Quant(b, min, max, _) => ValidNode(b) && min <= max <= INT32_MAX
      case Look(_, _, b) => ValidNode(b)
      case _ => true
  {
  }

  predicate IsLineTerminator(c: nat) {
    c == 10 || c == 13 || c == 0x2028 || c == 0x2029
  }

  /** Word characters; U+017F and U+212A count when case is ignored in a Unicode pattern. */
  predicate IsWordChar(c: nat, icase: bool) {
    if c < 256 then 48 <= c <= 57 || 65 <= c <= 90 || 97 <= c <= 122 || c == 95
    else icase && (c == 0x017f || c == 0x212a)
  }

  function Canon(e: Env, icase: bool, c: nat): nat {
    if icase then e.canon(c) else c
  }

  /** Does a one-character matcher accept `ch`? */
  predicate TestAccepts(e: Env, t: CharTest, ch: nat) {
    match t
    case Literal(c, icase) => Canon(e, icase, c) == Canon(e, icase, ch)
    case Dot(dotAll) => dotAll || !IsLineTerminator(ch)
    case Space(negated) => e.isSpace(ch) != negated
    case Class(p, icase) => InPoints(p, Canon(e, icase, ch))
  }

  predicate AtLineStart(e: Env, multi: bool, pos: nat)
    requires pos <= |e.input|
  {
    pos == 0 || (multi && IsLineTerminator(e.input[pos - 1]))
  }

  predicate AtLineEnd(e: Env, multi: bool, pos: nat)
    requires pos <= |e.input|
  {
    pos == |e.input| || (multi && IsLineTerminator(e.input[pos]))
  }

  predicate AtWordBoundary(e: Env, icase: bool, pos: nat)
    requires pos <= |e.input|
  {
    var before := pos != 0 && IsWordChar(e.input[pos - 1], icase);
    var after := pos < |e.input| && IsWordChar(e.input[pos], icase);
    before != after
  }

  /** `q` is reachable from `p` when reading in the given direction. */
  predicate Onward(back: bool, p: nat, q: nat) {
    if back then q <= p else p <= q
  }

  /** Characters still ahead of `p` in the given direction. */
  function Remaining(e: Env, back: bool, p: nat): nat
    requires p <= |e.input|
  {
    if back then p else |e.input| - p
  }
}
