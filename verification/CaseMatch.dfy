/** Classes that ignore case: what the class parser computes is what the machine has to test. */
module CaseMatch {
  import opened RegexSyntax
  import CharSets
  import CaseTables
  import CaseClosure

  /** The matcher's reading of boundary points is membership in the set. */
  lemma PointsAreSet(p: seq<nat>, c: nat)
    requires CharSets.Boundaries(p)
    ensures InPoints(p, c) <==> CharSets.In(p, c)
  {
    CharSets.InIntervals(p, c);
  }

  /** On what cr_regexp_canonicalize makes of a parsed class p, the machine accepts ch exactly when some member of p has
    * the canonical form of ch. */
  lemma AcceptsImage(t: CaseTables.Tables, unicode: bool, e: Env, p: seq<nat>, q: seq<nat>, ch: nat)
    requires forall i :: 0 <= i < |t.runs| ==> CaseTables.DataValid(t, t.runs[i])
    requires forall c: nat :: e.canon(c) == CaseTables.Canonicalize(t, unicode, c)
    requires CharSets.Boundaries(p) && CharSets.Canonical(q)
    requires forall d: nat :: CharSets.In(q, d) <==> exists c: nat :: CharSets.In(p, c) && CaseTables.Canonicalize(t, unicode, c) == d
    ensures TestAccepts(e, Class(q, true), ch) <==> exists c: nat :: InPoints(p, c) && e.canon(c) == e.canon(ch)
  {
    hide CharSets.In, InPoints, CaseTables.Canonicalize, CaseTables.DataValid, CharSets.Boundaries, CharSets.Canonical;
    CaseClosure.CanonicalIsBoundaries(q);
    PointsAreSet(q, e.canon(ch));
    if c: nat :| InPoints(p, c) && e.canon(c) == e.canon(ch) {
      PointsAreSet(p, c);
      assert CharSets.In(p, c) && CaseTables.Canonicalize(t, unicode, c) == e.canon(ch);
    }
    if c: nat :| CharSets.In(p, c) && CaseTables.Canonicalize(t, unicode, c) == e.canon(ch) {
      PointsAreSet(p, c);
      assert InPoints(p, c) && e.canon(c) == e.canon(ch);
    }
  }
}
