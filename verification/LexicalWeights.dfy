/** What the weights of the lexical score are chosen for, on the score as it is returned
    (src/raku_rag/core/hybrid_retrieval.py). */
module LexicalWeights {
  import opened Common
  import opened Text
  import opened Lexical
  import Identifiers

  /** A query and a chunk with the identifier matches found in them; `ageDays` is the age of the
      chunk's newest metadata date. */
  datatype Query = Query(text: string, found: seq<string>)

  datatype Chunk = Chunk(text: string, found: seq<string>, ageDays: Option<real>)

  function Named(u: Alphabet, q: Query, c: Chunk): nat {
    Identifiers.TextIdentifierMatchCount(u, q.found, c.found)
  }

  /** The whole scorer. */
  function Score(u: Alphabet, q: Query, c: Chunk, expansions: seq<SynonymExpansion>): real {
    LexicalMatchScore(u, q.text, c.text, expansions, RecencyBoost(c.ageDays), Named(u, q, c))
  }

  predicate Hits(u: Alphabet, q: Query, c: Chunk, expansions: seq<SynonymExpansion>) {
    Hit(u, q.text, c.text, expansions)
  }

  function Raw(u: Alphabet, q: Query, c: Chunk, expansions: seq<SynonymExpansion>): real
    requires LexicalQueryTerms(u, q.text) != []
  {
    RawScore(u, q.text, c.text, expansions, RecencyBoost(c.ageDays), Named(u, q, c))
  }

  /** The chunk dated today, the chunk with no date. */
  function Newest(c: Chunk): Chunk {
    c.(ageDays := Some(0.0))
  }

  function Undated(c: Chunk): Chunk {
    c.(ageDays := None)
  }

  function CoverageOf(u: Alphabet, q: Query, c: Chunk, expansions: seq<SynonymExpansion>): real
    requires LexicalQueryTerms(u, q.text) != []
  {
    var terms := LexicalQueryTerms(u, q.text);
    Coverage(|terms|, |Matched(terms, RetrievalTokens(u, c.text))|, |SynonymCovered(u, terms, c.text, expansions)|)
  }

  function DensityOf(u: Alphabet, q: Query, c: Chunk): real {
    Density(Matched(LexicalQueryTerms(u, q.text), RetrievalTokens(u, c.text)), RetrievalTokens(u, c.text))
  }

  /** The score before the cap of a text, with any date. */
  lemma RawOf(u: Alphabet, q: Query, c: Chunk, age: Option<real>, expansions: seq<SynonymExpansion>)
    requires LexicalQueryTerms(u, q.text) != []
    ensures Raw(u, q, c.(ageDays := age), expansions)
         == Blend(CoverageOf(u, q, c, expansions), DensityOf(u, q, c), RecencyBoost(age), Named(u, q, c))
  {
    hide Hit, RetrievalTokens, LexicalQueryTerms, SynonymCovered, Matched, Coverage, Density, Blend, RecencyBoost;
    RawScoreIsBlend(u, q.text, c.text, expansions, RecencyBoost(age), Named(u, q, c));
  }

  lemma ScoreOfChunk(u: Alphabet, q: Query, c: Chunk, age: Option<real>, expansions: seq<SynonymExpansion>)
    requires LexicalQueryTerms(u, q.text) != []
    ensures if Hits(u, q, c, expansions) then CappedScore(u, q, c.(ageDays := age), expansions)
            else Score(u, q, c.(ageDays := age), expansions) == 0.0
  {
    hide Hit, RetrievalTokens, LexicalQueryTerms, RawScore, LexicalMatchScore, RecencyBoost;
    if Hits(u, q, c, expansions) {
      ScoreOfHit(u, q.text, c.text, expansions, RecencyBoost(age), Named(u, q, c));
    } else {
      ScoreRange(u, q.text, c.text, expansions, age, Named(u, q, c));
    }
  }

  /** By how much one chunk leads another before the cap. */
  lemma Lead(u: Alphabet, q: Query, first: Chunk, second: Chunk, expansions: seq<SynonymExpansion>, a: Option<real>, b: Option<real>)
    requires LexicalQueryTerms(u, q.text) != []
    ensures Raw(u, q, first.(ageDays := a), expansions) - Raw(u, q, second.(ageDays := b), expansions)
         == 0.35 * (CoverageOf(u, q, first, expansions) - CoverageOf(u, q, second, expansions))
          + 0.06 * (DensityOf(u, q, first) - DensityOf(u, q, second))
          + RecencyBoost(a) - RecencyBoost(b)
          + 0.18 * (Named(u, q, first) - Named(u, q, second)) as real
  {
    hide Raw, CoverageOf, DensityOf, Named, RecencyBoost;
    RawOf(u, q, first, a, expansions);
    RawOf(u, q, second, b, expansions);
    BlendDifference(CoverageOf(u, q, first, expansions), DensityOf(u, q, first), RecencyBoost(a), Named(u, q, first),
                    CoverageOf(u, q, second, expansions), DensityOf(u, q, second), RecencyBoost(b), Named(u, q, second));
  }

  lemma BlendDifference(c: real, d: real, r: real, n: nat, e: real, f: real, s: real, m: nat)
    ensures Blend(c, d, r, n) - Blend(e, f, s, m)
         == 0.35 * (c - e) + 0.06 * (d - f) + r - s + 0.18 * (n - m) as real
  {
  }

  lemma NewerEarnsMore(newer: real, older: real)
    ensures RecencyBoost(Some(newer)) > RecencyBoost(Some(older)) <==> newer < older && older > 0.0 && newer < 3650.0
  {
  }

  /** Dates break ties strictly below the cap: of two ages in days of one hit the smaller scores higher
      exactly when the larger is a past date's, the smaller is below ten years, and the older form has
      not reached the cap. */
  lemma NewerScoresHigherExactly(u: Alphabet, q: Query, c: Chunk, expansions: seq<SynonymExpansion>, newer: real, older: real)
    requires LexicalQueryTerms(u, q.text) != [] && Hits(u, q, c, expansions)
    ensures Score(u, q, c.(ageDays := Some(newer)), expansions) > Score(u, q, c.(ageDays := Some(older)), expansions) <==>
            && newer < older && older > 0.0 && newer < 3650.0
            && Raw(u, q, c.(ageDays := Some(older)), expansions) < LEXICAL_MATCH_MAX_SCORE
  {
    hide Score, Raw, Hits, CoverageOf, DensityOf, Named, RecencyBoost;
    NewerEarnsMore(newer, older);
    Lead(u, q, c, c, expansions, Some(newer), Some(older));
    ScoreOfChunk(u, q, c, Some(newer), expansions);
    ScoreOfChunk(u, q, c, Some(older), expansions);
  }

  /** Whatever their dates, a hit outranks another chunk exactly when the other is no hit, or the
      undated first leads the newest second and the newest second is below the cap. */
  lemma OutranksAtAllDatesExactly(u: Alphabet, q: Query, first: Chunk, second: Chunk, expansions: seq<SynonymExpansion>)
    requires LexicalQueryTerms(u, q.text) != [] && Hits(u, q, first, expansions)
    ensures (forall a, b :: Score(u, q, first.(ageDays := a), expansions) > Score(u, q, second.(ageDays := b), expansions)) <==>
            || !Hits(u, q, second, expansions)
            || (Raw(u, q, Undated(first), expansions) > Raw(u, q, Newest(second), expansions)
                && Raw(u, q, Newest(second), expansions) < LEXICAL_MATCH_MAX_SCORE)
  {
    hide Score, Raw, Hits, CoverageOf, DensityOf, Named, RecencyBoost;
    forall a, b
      ensures Raw(u, q, first.(ageDays := a), expansions) >= Raw(u, q, Undated(first), expansions)
      ensures Raw(u, q, second.(ageDays := b), expansions) <= Raw(u, q, Newest(second), expansions)
      ensures Score(u, q, first.(ageDays := a), expansions) > 0.0
    {
      BoostRange(a);
      BoostRange(b);
      Lead(u, q, first, first, expansions, a, None);
      Lead(u, q, second, second, expansions, b, Some(0.0));
      PositiveHit(u, q, first, a, expansions);
    }
    forall age
      ensures Hits(u, q, second, expansions) ==> CappedScore(u, q, second.(ageDays := age), expansions)
      ensures !Hits(u, q, second, expansions) ==> Score(u, q, second.(ageDays := age), expansions) == 0.0
      ensures CappedScore(u, q, first.(ageDays := age), expansions)
    {
      ScoreOfChunk(u, q, first, age, expansions);
      ScoreOfChunk(u, q, second, age, expansions);
    }
    assert CappedScore(u, q, Undated(first), expansions);
    assert Hits(u, q, second, expansions) ==> CappedScore(u, q, Newest(second), expansions);
    if Hits(u, q, second, expansions) && !(Raw(u, q, Undated(first), expansions) > Raw(u, q, Newest(second), expansions)
         && Raw(u, q, Newest(second), expansions) < LEXICAL_MATCH_MAX_SCORE) {
      assert !(Score(u, q, first.(ageDays := None), expansions) > Score(u, q, second.(ageDays := Some(0.0)), expansions));
    }
  }

  predicate CappedScore(u: Alphabet, q: Query, c: Chunk, expansions: seq<SynonymExpansion>)
    requires LexicalQueryTerms(u, q.text) != []
  {
    Score(u, q, c, expansions) == if Raw(u, q, c, expansions) < 1.20 then Raw(u, q, c, expansions) else 1.20
  }

  lemma BoostRange(age: Option<real>)
    ensures RecencyBoost(None) == 0.0 <= RecencyBoost(age) <= 0.02 == RecencyBoost(Some(0.0))
  {
  }

  lemma PositiveHit(u: Alphabet, q: Query, c: Chunk, age: Option<real>, expansions: seq<SynonymExpansion>)
    requires Hits(u, q, c, expansions)
    ensures Score(u, q, c.(ageDays := age), expansions) > 0.0
  {
    hide Hit, LexicalMatchScore, RecencyBoost;
    ScoreRange(u, q.text, c.text, expansions, age, Named(u, q, c));
  }

  /** Covering one more query term directly, other things equal, outweighs every difference in dates
      exactly for queries of at most 17 terms, as long as the newest chunk with fewer terms is below
      the cap; and always over a chunk that is no hit. */
  lemma OneTermOutweighsDatesExactly(u: Alphabet, q: Query, more: Chunk, fewer: Chunk, expansions: seq<SynonymExpansion>)
    requires LexicalQueryTerms(u, q.text) != []
    requires var terms := LexicalQueryTerms(u, q.text);
      && |Matched(terms, RetrievalTokens(u, more.text))| == |Matched(terms, RetrievalTokens(u, fewer.text))| + 1
      && |SynonymCovered(u, terms, more.text, expansions)| == |SynonymCovered(u, terms, fewer.text, expansions)|
    requires DensityOf(u, q, more) == DensityOf(u, q, fewer) && Named(u, q, more) == Named(u, q, fewer)
    ensures (forall a, b :: Score(u, q, more.(ageDays := a), expansions) > Score(u, q, fewer.(ageDays := b), expansions)) <==>
            || !Hits(u, q, fewer, expansions)
            || (|LexicalQueryTerms(u, q.text)| <= 17 && Raw(u, q, Newest(fewer), expansions) < LEXICAL_MATCH_MAX_SCORE)
  {
    hide Raw, Score, DensityOf, Named, RecencyBoost, RetrievalTokens, LexicalQueryTerms, SynonymCovered;
    MatchedIsHit(u, q, more, expansions);
    OutranksAtAllDatesExactly(u, q, more, fewer, expansions);
    Lead(u, q, more, fewer, expansions, None, Some(0.0));
    BoostRange(None);
    var terms := LexicalQueryTerms(u, q.text);
    OneTermCoverage(|terms|, |Matched(terms, RetrievalTokens(u, fewer.text))|, |SynonymCovered(u, terms, fewer.text, expansions)|);
    SeventeenTerms(|terms|);
  }

  lemma MatchedIsHit(u: Alphabet, q: Query, c: Chunk, expansions: seq<SynonymExpansion>)
    requires |Matched(LexicalQueryTerms(u, q.text), RetrievalTokens(u, c.text))| > 0
    ensures Hits(u, q, c, expansions)
  {
    var matched := Matched(LexicalQueryTerms(u, q.text), RetrievalTokens(u, c.text));
    assert matched[0] in matched;
  }

  lemma OneTermCoverage(n: nat, direct: nat, synonyms: nat)
    requires n > 0
    ensures 0.35 * (Coverage(n, direct + 1, synonyms) - Coverage(n, direct, synonyms)) == 0.35 / n as real
  {
    var before := direct as real + SYNONYM_COVERAGE_WEIGHT * synonyms as real;
    assert (before + 1.0) / n as real == before / n as real + 1.0 / n as real;
    assert (direct + 1) as real + SYNONYM_COVERAGE_WEIGHT * synonyms as real == before + 1.0;
  }

  lemma SeventeenTerms(n: nat)
    requires n > 0
    ensures n <= 17 <==> 0.35 / n as real > 0.02
  {
    var x := 0.35 / n as real;
    assert x * n as real == 0.35;
    ScaleOrder(x, 0.02, n as real);
  }

  lemma ScaleOrder(x: real, y: real, n: real)
    requires n > 0.0
    ensures x > y <==> x * n > y * n
  {
    assert (x - y) * n == x * n - y * n;
  }

  /** A chunk that names more of the query's identifiers verbatim, and whose coverage is less
      than two sevenths short, outranks another hit, whatever their densities and dates, exactly when the
      newest form of the other is below the cap. */
  lemma IdentifierOutweighsExactly(u: Alphabet, q: Query, naming: Chunk, other: Chunk, expansions: seq<SynonymExpansion>)
    requires LexicalQueryTerms(u, q.text) != []
    requires Hits(u, q, naming, expansions) && Hits(u, q, other, expansions)
    requires Named(u, q, naming) > Named(u, q, other)
    requires CoverageOf(u, q, other, expansions) - CoverageOf(u, q, naming, expansions) < 2.0 / 7.0
    ensures (forall a, b :: Score(u, q, naming.(ageDays := a), expansions) > Score(u, q, other.(ageDays := b), expansions)) <==>
            Raw(u, q, Newest(other), expansions) < LEXICAL_MATCH_MAX_SCORE
  {
    hide Raw, Score, Hits, Named, CoverageOf, RecencyBoost;
    OutranksAtAllDatesExactly(u, q, naming, other, expansions);
    Lead(u, q, naming, other, expansions, None, Some(0.0));
    BoostRange(None);
    assert 0.0 <= DensityOf(u, q, naming) && DensityOf(u, q, other) <= 1.0;
    var gap, names := CoverageOf(u, q, naming, expansions) - CoverageOf(u, q, other, expansions), (Named(u, q, naming) - Named(u, q, other)) as real;
    assert names >= 1.0 && 0.35 * gap > -0.10;
  }

  /** Where the weights stop deciding: a hit that names three identifiers scores the cap, so any two
      of them tie. */
  lemma ThreeIdentifiersReachTheCap(u: Alphabet, q: Query, c: Chunk, expansions: seq<SynonymExpansion>)
    requires Hits(u, q, c, expansions) && Named(u, q, c) >= 3
    ensures Score(u, q, c, expansions) == LEXICAL_MATCH_MAX_SCORE
  {
    HitHasTerms(u, q.text, c.text, expansions);
    hide Raw, Score, Hits, Named, RecencyBoost, RetrievalTokens, LexicalQueryTerms, SynonymCovered, Matched;
    RawOf(u, q, c, c.ageDays, expansions);
    ScoreOfChunk(u, q, c, c.ageDays, expansions);
    assert c.(ageDays := c.ageDays) == c;
    BoostRange(c.ageDays);
    var terms := LexicalQueryTerms(u, q.text);
    var m, s := |Matched(terms, RetrievalTokens(u, c.text))|, |SynonymCovered(u, terms, c.text, expansions)|;
    CoverageBounds(|terms|, m, s, s);
  }
}
