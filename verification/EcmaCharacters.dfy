/** The tests of single characters and positions as ECMA-262 words them. */
module EcmaCharacters {
  import opened RegexSyntax

  /** LineTerminator (section 12.3): line feed, carriage return, line and paragraph separator. */
  predicate LineTerminator(c: nat) { c in {0x000a, 0x000d, 0x2028, 0x2029} }

  /** WordCharacters (section 22.2.2.9.3): letters, digits and the low line, and with ignored case in a Unicode pattern
    * the two characters that fold into them, LATIN SMALL LETTER LONG S and KELVIN SIGN. */
  predicate WordCharacter(c: nat, icase: bool) {
    || (c < 128 && var ch := c as char; 'a' <= ch <= 'z' || 'A' <= ch <= 'Z' || '0' <= ch <= '9' || ch == '_')
    || (icase && c in {0x017f, 0x212a})
  }

  /** CharacterSetMatcher: does the character set hold ch, up to Canonicalize when case is ignored? */
  predicate SetHolds(e: Env, t: CharTest, ch: nat) {
    match t
    case Literal(c, icase) => if icase then e.canon(ch) == e.canon(c) else ch == c
    case Dot(dotAll) => !LineTerminator(ch) || dotAll
    case Space(negated) => if negated then !e.isSpace(ch) else e.isSpace(ch)
    case Class(p, icase) => InPoints(p, if icase then e.canon(ch) else ch)
  }

  /** The assertion ^. */
  predicate StartOfLine(e: Env, multiline: bool, x: nat)
    requires x <= |e.input|
  {
    if x == 0 then true else if !multiline then false else LineTerminator(e.input[x - 1])
  }

  /** The assertion $. */
  predicate EndOfLine(e: Env, multiline: bool, x: nat)
    requires x <= |e.input|
  {
    if x == |e.input| then true else if !multiline then false else LineTerminator(e.input[x])
  }

  /** IsWordChar. */
  predicate WordAt(e: Env, icase: bool, x: int) { 0 <= x < |e.input| && WordCharacter(e.input[x], icase) }

  /** The assertion \b. */
  predicate Boundary(e: Env, icase: bool, x: nat) {
    var a, b := WordAt(e, icase, x - 1), WordAt(e, icase, x);
    (a && !b) || (!a && b)
  }

  lemma SameWord(c: nat, icase: bool)
    ensures WordCharacter(c, icase) <==> IsWordChar(c, icase)
  {
  }

  /** The machine's tests are those of the standard. */
  lemma SameTests(e: Env, t: CharTest, ch: nat)
    ensures SetHolds(e, t, ch) <==> TestAccepts(e, t, ch)
  {
    hide InPoints;
  }

  lemma SamePositions(e: Env, multiline: bool, icase: bool, x: nat)
    requires x <= |e.input|
    ensures StartOfLine(e, multiline, x) <==> AtLineStart(e, multiline, x)
    ensures EndOfLine(e, multiline, x) <==> AtLineEnd(e, multiline, x)
    ensures Boundary(e, icase, x) <==> AtWordBoundary(e, icase, x)
  {
    hide WordCharacter, IsWordChar;
    if x > 0 { SameWord(e.input[x - 1], icase); }
    if x < |e.input| { SameWord(e.input[x], icase); }
  }
}
