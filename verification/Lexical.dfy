/** Query terms, synonym expansions and the bounded lexical score
    (src/raku_rag/core/hybrid_retrieval.py). */
module Lexical {
  import opened Common
  import opened Text

  const METADATA_EXACT_MATCH_SCORE: real := 1.25
  const LEXICAL_MATCH_BASE_SCORE: real := 0.70
  const LEXICAL_MATCH_MAX_SCORE: real := 1.20
  const LEXICAL_RECENCY_BOOST_MAX: real := 0.02
  const LEXICAL_IDENTIFIER_MATCH_WEIGHT: real := 0.18
  const SYNONYM_COVERAGE_WEIGHT: real := 0.9

  datatype SynonymExpansion = SynonymExpansion(sourceTerms: seq<string>, alternatives: seq<string>)

  // Narrower than Text.CjkChar: compatibility ideographs do not count.
  predicate ContainsCjk(s: string) {
    exists i | 0 <= i < |s| :: '\U{3040}' <= s[i] <= '\U{30FF}' || '\U{3400}' <= s[i] <= '\U{9FFF}'
  }

  predicate IsSignal(u: Alphabet, term: string) {
    |term| >= 3 || ContainsCjk(term) || (|term| >= 2 && exists i | 0 <= i < |term| :: u.digit(term[i]))
  }

  /** The distinct signal tokens, case-folded. */
  function SignalTerms(u: Alphabet, tokens: seq<string>): (terms: seq<string>)
    ensures forall i, j | 0 <= i < j < |terms| :: terms[i] != terms[j]
    ensures forall t :: t in terms <==> exists k | k in tokens :: IsSignal(u, k) && Lower(u, k) == t
  {
    if tokens == [] then []
    else
      var rest := SignalTerms(u, tokens[1..]);
      var first := Lower(u, tokens[0]);
      assert forall k :: k in tokens <==> k == tokens[0] || k in tokens[1..];
      if IsSignal(u, tokens[0]) && first !in rest then [first] + rest else rest
  }

  function LexicalQueryTerms(u: Alphabet, query: string): (terms: seq<string>)
    ensures forall i, j | 0 <= i < j < |terms| :: terms[i] != terms[j]
  {
    SignalTerms(u, RetrievalTokens(u, query))
  }

  /** A CJK phrase is searched as a substring, any other phrase token by token. */
  predicate PhrasePresent(u: Alphabet, phrase: string, haystack: string, haystackTokens: seq<string>) {
    if ContainsCjk(phrase) then Occurs(phrase, haystack)
    else
      var tokens := RetrievalTokens(u, phrase);
      tokens != [] && forall t | t in tokens :: t in haystackTokens
  }

  predicate AlternativePresent(u: Alphabet, e: SynonymExpansion, text: string) {
    exists alt | alt in e.alternatives ::
      PhrasePresent(u, alt, Lower(u, text), RetrievalTokens(u, text))
  }

  function Matched(terms: seq<string>, tokens: seq<string>): (m: seq<string>)
    ensures forall t :: t in m <==> t in terms && t in tokens
  {
    if terms == [] then []
    else
      assert forall t :: t in terms <==> t == terms[0] || t in terms[1..];
      (if terms[0] in tokens then [terms[0]] else []) + Matched(terms[1..], tokens)
  }

  /** The unmatched query terms that some expansion covers through a present alternative. */
  function SynonymCovered(u: Alphabet, terms: seq<string>, text: string, expansions: seq<SynonymExpansion>): set<string> {
    set t | t in terms && t !in RetrievalTokens(u, text)
         && exists e | e in expansions :: t in e.sourceTerms && AlternativePresent(u, e, text)
  }

  lemma SynonymCoveredStep(u: Alphabet, terms: seq<string>, text: string, before: seq<SynonymExpansion>, e: SynonymExpansion)
    ensures SynonymCovered(u, terms, text, before + [e])
         == SynonymCovered(u, terms, text, before)
            + (if AlternativePresent(u, e, text)
               then set t | t in terms && t !in RetrievalTokens(u, text) && t in e.sourceTerms else {})
  {
    assert forall x :: x in before + [e] <==> x in before || x == e;
  }

  /** The loop over expansions that grows the covered set, skipping an expansion that has
      nothing left to cover. */
  method SynonymCoveredLoop(u: Alphabet, terms: seq<string>, text: string, expansions: seq<SynonymExpansion>)
    returns (covered: set<string>)
    ensures covered == SynonymCovered(u, terms, text, expansions)
  {
    covered := {};
    var unmatched := set t | t in terms && t !in RetrievalTokens(u, text);
    for k := 0 to |expansions|
      invariant covered == SynonymCovered(u, terms, text, expansions[..k])
    {
      var e := expansions[k];
      assert expansions[..k + 1] == expansions[..k] + [e];
      SynonymCoveredStep(u, terms, text, expansions[..k], e);
      var coverable := (set t | t in unmatched && t in e.sourceTerms) - covered;
      if coverable != {} && AlternativePresent(u, e, text) {
        covered := covered + coverable;
      }
    }
    assert expansions[..|expansions|] == expansions;
  }

  function Occurrences(tokens: seq<string>, t: string): nat {
    if tokens == [] then 0
    else (if tokens[0] == t then 1 else 0) + Occurrences(tokens[1..], t)
  }

  function Frequency(matched: seq<string>, tokens: seq<string>): nat {
    if matched == [] then 0
    else (if Occurrences(tokens, matched[0]) < 3 then Occurrences(tokens, matched[0]) else 3)
         + Frequency(matched[1..], tokens)
  }

  function Density(matched: seq<string>, tokens: seq<string>): (d: real)
    ensures 0.0 <= d <= 1.0
    ensures matched == [] ==> d == 0.0
  {
    var length: nat := if |tokens| > 1 then |tokens| else 1;
    var d := Frequency(matched, tokens) as real / length as real;
    if d < 1.0 then d else 1.0
  }

  function Coverage(terms: nat, direct: nat, synonyms: nat): real
    requires terms > 0
  {
    (direct as real + SYNONYM_COVERAGE_WEIGHT * synonyms as real) / terms as real
  }

  function Blend(coverage: real, density: real, recency: real, identifiers: nat): real {
    LEXICAL_MATCH_BASE_SCORE + 0.35 * coverage + 0.06 * density + recency
    + LEXICAL_IDENTIFIER_MATCH_WEIGHT * identifiers as real
  }

  /** The score before the cap. */
  function RawScore(u: Alphabet, query: string, text: string, expansions: seq<SynonymExpansion>, recency: real, identifiers: nat): real
    requires LexicalQueryTerms(u, query) != []
  {
    var terms := LexicalQueryTerms(u, query);
    var tokens := RetrievalTokens(u, text);
    var matched := Matched(terms, tokens);
    var covered := SynonymCovered(u, terms, text, expansions);
    Blend(Coverage(|terms|, |matched|, |covered|), Density(matched, tokens), recency, identifiers)
  }

  /** Some query term is covered, directly or by a synonym. */
  predicate Hit(u: Alphabet, query: string, text: string, expansions: seq<SynonymExpansion>) {
    var terms := LexicalQueryTerms(u, query);
    RetrievalTokens(u, text) != []
    && (Matched(terms, RetrievalTokens(u, text)) != [] || SynonymCovered(u, terms, text, expansions) != {})
  }

  /** `recency` is the recency boost of the metadata and `identifiers` the number of query
      identifiers named in the text. */
  function LexicalMatchScore(u: Alphabet, query: string, text: string, expansions: seq<SynonymExpansion>, recency: real, identifiers: nat): real {
    if LexicalQueryTerms(u, query) == [] || RetrievalTokens(u, text) == [] then 0.0
    else if !Hit(u, query, text, expansions) then 0.0
    else
      var raw := RawScore(u, query, text, expansions, recency, identifiers);
      if raw < LEXICAL_MATCH_MAX_SCORE then raw else LEXICAL_MATCH_MAX_SCORE
  }

  /** Age in days of the newest metadata date, if one parses. */
  function RecencyBoost(ageDays: Option<real>): (r: real)
    ensures 0.0 <= r <= LEXICAL_RECENCY_BOOST_MAX
  {
    match ageDays
    case None => 0.0
    case Some(age) =>
      var clamped := if age < 0.0 then 0.0 else age;
      var left := 1.0 - clamped / 3650.0;
      (if left < 0.0 then 0.0 else left) * LEXICAL_RECENCY_BOOST_MAX
  }

  // ----- Range, order independence and monotonicity -----

  lemma CoverageBounds(terms: nat, direct: nat, synonyms: nat, more: nat)
    requires terms > 0 && synonyms <= more
    ensures 0.0 <= Coverage(terms, direct, synonyms) <= Coverage(terms, direct, more)
  {
    var n := terms as real;
    var a := direct as real + SYNONYM_COVERAGE_WEIGHT * synonyms as real;
    var b := direct as real + SYNONYM_COVERAGE_WEIGHT * more as real;
    assert 0.0 <= a <= b;
    DivideMonotone(0.0, a, n);
    DivideMonotone(a, b, n);
  }

  lemma DivideMonotone(a: real, b: real, n: real)
    requires n > 0.0
    ensures a <= b ==> a / n <= b / n
    ensures a < b ==> a / n < b / n
  {
  }

  /** The score is 0 without a covered term, otherwise it lies between the base score and the cap,
      below every metadata-exact match. */
  lemma ScoreRange(u: Alphabet, query: string, text: string, expansions: seq<SynonymExpansion>, ageDays: Option<real>, identifiers: nat)
    ensures var s := LexicalMatchScore(u, query, text, expansions, RecencyBoost(ageDays), identifiers);
            && (s > 0.0 <==> Hit(u, query, text, expansions))
            && (s == 0.0 || LEXICAL_MATCH_BASE_SCORE <= s <= LEXICAL_MATCH_MAX_SCORE)
            && s < METADATA_EXACT_MATCH_SCORE
  {
    var terms := LexicalQueryTerms(u, query);
    if Hit(u, query, text, expansions) {
      assert terms != [];
      var m := |Matched(terms, RetrievalTokens(u, text))|;
      var c := |SynonymCovered(u, terms, text, expansions)|;
      CoverageBounds(|terms|, m, c, c);
      var r := RecencyBoost(ageDays);
    }
  }

  lemma SubsetSize<T>(a: set<T>, b: set<T>)
    requires a <= b
    ensures |a| <= |b|
  {
    assert b == a + (b - a);
  }

  /** Adding expansions never lowers a score. */
  lemma ScoreGrowsWithExpansions(u: Alphabet, query: string, text: string, few: seq<SynonymExpansion>, many: seq<SynonymExpansion>, recency: real, identifiers: nat)
    requires forall e | e in few :: e in many
    requires 0.0 <= recency
    ensures LexicalMatchScore(u, query, text, few, recency, identifiers)
         <= LexicalMatchScore(u, query, text, many, recency, identifiers)
  {
    var terms := LexicalQueryTerms(u, query);
    if terms != [] {
      var m := |Matched(terms, RetrievalTokens(u, text))|;
      var a, b := SynonymCovered(u, terms, text, few), SynonymCovered(u, terms, text, many);
      assert a <= b;
      SubsetSize(a, b);
      CoverageBounds(|terms|, m, |a|, |b|);
    }
  }

  /** Only the set of expansions matters, not their order or repetition. */
  lemma ScoreIgnoresExpansionOrder(u: Alphabet, query: string, text: string, one: seq<SynonymExpansion>, other: seq<SynonymExpansion>, recency: real, identifiers: nat)
    requires forall e :: e in one <==> e in other
    ensures LexicalMatchScore(u, query, text, one, recency, identifiers)
         == LexicalMatchScore(u, query, text, other, recency, identifiers)
  {
    var terms := LexicalQueryTerms(u, query);
    assert SynonymCovered(u, terms, text, one) == SynonymCovered(u, terms, text, other);
  }

  // ----- Synonym hits against direct hits -----

  /** At an equal covered set, recency and identifier count, an all-direct text leads a mixed text by
      the synonym discount less the mixed text's density advantage. */
  lemma EqualCoverageMargin(u: Alphabet, query: string, direct: string, mixed: string, expansions: seq<SynonymExpansion>, recency: real, identifiers: nat)
    requires LexicalQueryTerms(u, query) != []
    requires CoveredTerms(u, query, direct, expansions) == CoveredTerms(u, query, mixed, expansions)
    requires SynonymCovered(u, LexicalQueryTerms(u, query), direct, expansions) == {}
    ensures var terms := LexicalQueryTerms(u, query);
            var synonyms := |SynonymCovered(u, terms, mixed, expansions)|;
            var advantage := Density(Matched(terms, RetrievalTokens(u, mixed)), RetrievalTokens(u, mixed))
                           - Density(Matched(terms, RetrievalTokens(u, direct)), RetrievalTokens(u, direct));
            RawScore(u, query, direct, expansions, recency, identifiers)
              - RawScore(u, query, mixed, expansions, recency, identifiers)
            == 0.035 * (synonyms as real / |terms| as real) - 0.06 * advantage
  {
    hide *;
    var terms := LexicalQueryTerms(u, query);
    var d, m := Matched(terms, RetrievalTokens(u, direct)), Matched(terms, RetrievalTokens(u, mixed));
    var s := SynonymCovered(u, terms, mixed, expansions);
    CoveredCount(u, query, direct, mixed, expansions);
    RawScoreIsBlend(u, query, direct, expansions, recency, identifiers);
    RawScoreIsBlend(u, query, mixed, expansions, recency, identifiers);
    BlendMargin(|terms|, |m|, |s|, Density(m, RetrievalTokens(u, mixed)), Density(d, RetrievalTokens(u, direct)),
               recency, identifiers, RawScore(u, query, mixed, expansions, recency, identifiers),
               RawScore(u, query, direct, expansions, recency, identifiers));
  }

  lemma RawScoreIsBlend(u: Alphabet, query: string, text: string, expansions: seq<SynonymExpansion>, recency: real, identifiers: nat)
    requires LexicalQueryTerms(u, query) != []
    ensures var terms := LexicalQueryTerms(u, query);
            var matched := Matched(terms, RetrievalTokens(u, text));
            && RawScore(u, query, text, expansions, recency, identifiers)
            == Blend(Coverage(|terms|, |matched|, |SynonymCovered(u, terms, text, expansions)|),
                     Density(matched, RetrievalTokens(u, text)), recency, identifiers)
  {
  }

  /** Equal covered sets, counted: direct terms of one text against direct plus synonym terms of
      the other. */
  lemma CoveredCount(u: Alphabet, query: string, direct: string, mixed: string, expansions: seq<SynonymExpansion>)
    requires CoveredTerms(u, query, direct, expansions) == CoveredTerms(u, query, mixed, expansions)
    requires SynonymCovered(u, LexicalQueryTerms(u, query), direct, expansions) == {}
    ensures var terms := LexicalQueryTerms(u, query);
            && |Matched(terms, RetrievalTokens(u, direct))|
            == |Matched(terms, RetrievalTokens(u, mixed))| + |SynonymCovered(u, terms, mixed, expansions)|
  {
    var terms := LexicalQueryTerms(u, query);
    var s := SynonymCovered(u, terms, mixed, expansions);
    var direct' := set t | t in terms && t in RetrievalTokens(u, direct);
    var mixed' := set t | t in terms && t in RetrievalTokens(u, mixed);
    MatchedDistinct(terms, RetrievalTokens(u, direct));
    MatchedDistinct(terms, RetrievalTokens(u, mixed));
    assert direct' == mixed' + s && mixed' !! s;
  }

  ghost function CoveredTerms(u: Alphabet, query: string, text: string, expansions: seq<SynonymExpansion>): set<string> {
    var terms := LexicalQueryTerms(u, query);
    (set t | t in terms && t in RetrievalTokens(u, text)) + SynonymCovered(u, terms, text, expansions)
  }

  lemma MatchedDistinct(terms: seq<string>, tokens: seq<string>)
    requires forall i, j | 0 <= i < j < |terms| :: terms[i] != terms[j]
    ensures |set t | t in terms && t in tokens| == |Matched(terms, tokens)|
  {
    assert (set t | t in terms && t in tokens) == set t | t in Matched(terms, tokens);
    MatchedAsSet(terms, tokens);
  }

  lemma {:induction false} MatchedAsSet(terms: seq<string>, tokens: seq<string>)
    requires forall i, j | 0 <= i < j < |terms| :: terms[i] != terms[j]
    ensures |set t | t in Matched(terms, tokens)| == |Matched(terms, tokens)|
  {
    if terms != [] {
      var rest := Matched(terms[1..], tokens);
      MatchedAsSet(terms[1..], tokens);
      var all := Matched(terms, tokens);
      if terms[0] in tokens {
        assert terms[0] !in rest;
        assert (set t | t in all) == {terms[0]} + set t | t in rest;
      } else {
        assert all == rest;
      }
    }
  }

  lemma BlendMargin(terms: nat, direct: nat, synonyms: nat, mixedDensity: real, directDensity: real, recency: real, identifiers: nat, mixed: real, all: real)
    requires terms > 0
    requires mixed == Blend(Coverage(terms, direct, synonyms), mixedDensity, recency, identifiers)
    requires all == Blend(Coverage(terms, direct + synonyms, 0), directDensity, recency, identifiers)
    ensures all - mixed == 0.035 * (synonyms as real / terms as real) - 0.06 * (mixedDensity - directDensity)
  {
    CoverageGap(terms, direct, synonyms);
  }

  lemma SplitShare(a: real, b: real, n: real)
    requires n > 0.0
    ensures (a + b) / n == a / n + b / n
  {
  }

  lemma ScaledShare(k: real, a: real, n: real)
    requires n > 0.0
    ensures (k * a) / n == k * (a / n)
  {
    var x := a / n;
    assert x * n == a;
    assert k * a == (k * x) * n;
  }

  lemma CoverageGap(terms: nat, direct: nat, synonyms: nat)
    requires terms > 0
    ensures 0.35 * Coverage(terms, direct + synonyms, 0) - 0.35 * Coverage(terms, direct, synonyms)
         == 0.035 * (synonyms as real / terms as real)
  {
    var m, s := direct as real, synonyms as real;
    SplitShare(m, s, terms as real);
    SplitShare(m, 0.9 * s, terms as real);
    ScaledShare(0.9, s, terms as real);
    assert (direct + synonyms) as real + SYNONYM_COVERAGE_WEIGHT * 0.0 == m + s;
  }

  lemma HitOfCovered(u: Alphabet, query: string, text: string, expansions: seq<SynonymExpansion>, t: string)
    requires t in LexicalQueryTerms(u, query) && t in RetrievalTokens(u, text)
    ensures Hit(u, query, text, expansions)
  {
    assert t in Matched(LexicalQueryTerms(u, query), RetrievalTokens(u, text));
  }

  /** The promised ranking rule, for a text that covers a non-empty term set only through
      synonyms: strictly below every direct text on that set, up to the cap. */
  lemma SynonymHitBelowDirectHit(u: Alphabet, query: string, direct: string, synonym: string, expansions: seq<SynonymExpansion>, recency: real, identifiers: nat)
    requires Matched(LexicalQueryTerms(u, query), RetrievalTokens(u, synonym)) == []
    requires Hit(u, query, synonym, expansions)
    requires CoveredTerms(u, query, direct, expansions) == CoveredTerms(u, query, synonym, expansions)
    requires SynonymCovered(u, LexicalQueryTerms(u, query), direct, expansions) == {}
    ensures RawScore(u, query, synonym, expansions, recency, identifiers)
          < RawScore(u, query, direct, expansions, recency, identifiers)
    ensures var s := LexicalMatchScore(u, query, synonym, expansions, recency, identifiers);
            var d := LexicalMatchScore(u, query, direct, expansions, recency, identifiers);
            s <= d && (s < d <==> s < 1.20)
  {
    PureSynonymBelow(u, query, direct, synonym, expansions, recency, identifiers);
    DirectHit(u, query, direct, synonym, expansions);
    hide *;
    ScoreOfHit(u, query, direct, expansions, recency, identifiers);
    ScoreOfHit(u, query, synonym, expansions, recency, identifiers);
  }

  lemma ScoreOfHit(u: Alphabet, query: string, text: string, expansions: seq<SynonymExpansion>, recency: real, identifiers: nat)
    requires Hit(u, query, text, expansions) && LexicalQueryTerms(u, query) != []
    ensures var s, raw := LexicalMatchScore(u, query, text, expansions, recency, identifiers),
                          RawScore(u, query, text, expansions, recency, identifiers);
            s == if raw < 1.20 then raw else 1.20
  {
  }

  lemma DirectHit(u: Alphabet, query: string, direct: string, synonym: string, expansions: seq<SynonymExpansion>)
    requires Matched(LexicalQueryTerms(u, query), RetrievalTokens(u, synonym)) == []
    requires SynonymCovered(u, LexicalQueryTerms(u, query), synonym, expansions) != {}
    requires CoveredTerms(u, query, direct, expansions) == CoveredTerms(u, query, synonym, expansions)
    requires SynonymCovered(u, LexicalQueryTerms(u, query), direct, expansions) == {}
    ensures Hit(u, query, direct, expansions)
  {
    var t :| t in SynonymCovered(u, LexicalQueryTerms(u, query), synonym, expansions);
    assert t in CoveredTerms(u, query, direct, expansions);
    HitOfCovered(u, query, direct, expansions, t);
  }

  lemma PureSynonymBelow(u: Alphabet, query: string, direct: string, synonym: string, expansions: seq<SynonymExpansion>, recency: real, identifiers: nat)
    requires Matched(LexicalQueryTerms(u, query), RetrievalTokens(u, synonym)) == []
    requires LexicalQueryTerms(u, query) != []
    requires SynonymCovered(u, LexicalQueryTerms(u, query), synonym, expansions) != {}
    requires CoveredTerms(u, query, direct, expansions) == CoveredTerms(u, query, synonym, expansions)
    requires SynonymCovered(u, LexicalQueryTerms(u, query), direct, expansions) == {}
    ensures RawScore(u, query, synonym, expansions, recency, identifiers)
          < RawScore(u, query, direct, expansions, recency, identifiers)
  {
    hide *;
    EqualCoverageMargin(u, query, direct, synonym, expansions, recency, identifiers);
    var terms := LexicalQueryTerms(u, query);
    var covered := SynonymCovered(u, terms, synonym, expansions);
    assert |covered| > 0;
    DivideMonotone(0.0, |covered| as real, |terms| as real);
  }

  /** When a mixed hit outranks an all-direct hit on the same covered set: exactly when its density
      advantage outweighs the synonym discount and the direct hit is below the cap. */
  lemma MixedOutranksExactly(u: Alphabet, query: string, direct: string, mixed: string, expansions: seq<SynonymExpansion>, recency: real, identifiers: nat)
    requires Hit(u, query, mixed, expansions) && Hit(u, query, direct, expansions)
    requires CoveredTerms(u, query, direct, expansions) == CoveredTerms(u, query, mixed, expansions)
    requires SynonymCovered(u, LexicalQueryTerms(u, query), direct, expansions) == {}
    ensures LexicalQueryTerms(u, query) != []
    ensures var terms := LexicalQueryTerms(u, query);
            var synonyms := |SynonymCovered(u, terms, mixed, expansions)|;
            var advantage := Density(Matched(terms, RetrievalTokens(u, mixed)), RetrievalTokens(u, mixed))
                           - Density(Matched(terms, RetrievalTokens(u, direct)), RetrievalTokens(u, direct));
            LexicalMatchScore(u, query, mixed, expansions, recency, identifiers)
              > LexicalMatchScore(u, query, direct, expansions, recency, identifiers) <==>
            && 0.06 * advantage > 0.035 * (synonyms as real / |terms| as real)
            && RawScore(u, query, direct, expansions, recency, identifiers) < LEXICAL_MATCH_MAX_SCORE
  {
    HitHasTerms(u, query, mixed, expansions);
    hide *;
    EqualCoverageMargin(u, query, direct, mixed, expansions, recency, identifiers);
    ScoreOfHit(u, query, direct, expansions, recency, identifiers);
    ScoreOfHit(u, query, mixed, expansions, recency, identifiers);
    assert LEXICAL_MATCH_MAX_SCORE == 1.20;
  }

  lemma HitHasTerms(u: Alphabet, query: string, text: string, expansions: seq<SynonymExpansion>)
    requires Hit(u, query, text, expansions)
    ensures LexicalQueryTerms(u, query) != []
  {
  }
}
