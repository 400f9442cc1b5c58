/** The lexical score in closed form, over sets and positions instead of the loops that compute it
    (src/raku_rag/core/hybrid_retrieval.py). */
module ScoreFormula {
  import opened Common
  import opened Text
  import opened Lexical
  import opened Tokenizer

  /** Kana or an ideograph outside the compatibility block, the narrower class of the scorer. */
  predicate HasKanaOrIdeograph(s: string) {
    exists c | c in s :: Japanese(c) && !('\U{F900}' <= c <= '\U{FAFF}')
  }

  /** A term of the query is one of its tokens: one with three characters or more, one with a kana
      or an ideograph, or one of two characters with a digit. */
  lemma TermsExactly(u: Alphabet, query: string, t: string)
    requires u.Valid()
    ensures t in LexicalQueryTerms(u, query) <==>
            && t in RetrievalTokens(u, query)
            && (|t| > 2 || HasKanaOrIdeograph(t) || (|t| == 2 && (u.digit(t[0]) || u.digit(t[1]))))
  {
    hide RetrievalTokens;
    forall k | k in RetrievalTokens(u, query) ensures Lower(u, k) == k { TokensAreLower(u, query, k); }
    SignalExactly(u, t);
  }

  lemma SignalExactly(u: Alphabet, t: string)
    ensures IsSignal(u, t) <==>
            |t| > 2 || HasKanaOrIdeograph(t) || (|t| == 2 && (u.digit(t[0]) || u.digit(t[1])))
  {
    ContainsCjkExactly(t);
  }

  lemma ContainsCjkExactly(t: string)
    ensures ContainsCjk(t) <==> HasKanaOrIdeograph(t)
  {
    if ContainsCjk(t) {
      var i :| 0 <= i < |t| && ('\U{3040}' <= t[i] <= '\U{30FF}' || '\U{3400}' <= t[i] <= '\U{9FFF}');
      assert t[i] in t;
    }
  }

  /** A phrase with kana or ideographs is present where it stands in the text; any other phrase when
      it has tokens and each of them is one of the text's. */
  lemma PhrasePresentExactly(u: Alphabet, phrase: string, text: string)
    ensures PhrasePresent(u, phrase, Lower(u, text), RetrievalTokens(u, text)) <==>
            if HasKanaOrIdeograph(phrase)
            then exists a, b :: Lower(u, text) == a + phrase + b
            else RetrievalTokens(u, phrase) != []
                 && (set t | t in RetrievalTokens(u, phrase)) <= set t | t in RetrievalTokens(u, text)
  {
    hide RetrievalTokens, Occurs;
    ContainsCjkExactly(phrase);
    OccursExactly(phrase, Lower(u, text));
    var wanted, held := set t | t in RetrievalTokens(u, phrase), set t | t in RetrievalTokens(u, text);
    assert wanted <= held <==> forall t | t in RetrievalTokens(u, phrase) :: t in held;
  }

  // ----- The density as a share of positions -----

  /** The positions that hold one of the first three occurrences of a token of the set. */
  ghost function EarlyPositions(tokens: seq<string>, wanted: set<string>): set<nat> {
    set i: nat | i < |tokens| && tokens[i] in wanted && multiset(tokens[..i])[tokens[i]] < 3
  }

  lemma {:induction false} OccurrencesIsMultiplicity(tokens: seq<string>, t: string)
    ensures Occurrences(tokens, t) == multiset(tokens)[t]
  {
    if tokens != [] {
      OccurrencesIsMultiplicity(tokens[1..], t);
      assert tokens == [tokens[0]] + tokens[1..];
    }
  }

  lemma {:induction false} EarlyOfOne(tokens: seq<string>, t: string)
    ensures var n := multiset(tokens)[t];
            && |EarlyPositions(tokens, {t})| == if n < 3 then n else 3
  {
    if tokens != [] {
      var k := |tokens| - 1;
      EarlyOfOne(tokens[..k], t);
      assert tokens == tokens[..k] + [tokens[k]];
      EarlyStep(tokens, t);
    }
  }

  lemma EarlyStep(tokens: seq<string>, t: string)
    requires tokens != []
    ensures var k := |tokens| - 1;
            && EarlyPositions(tokens, {t}) == EarlyPositions(tokens[..k], {t})
               + if tokens[k] == t && multiset(tokens[..k])[t] < 3 then {k} else {}
  {
    var k := |tokens| - 1;
    forall i: nat | i < k ensures tokens[..k][..i] == tokens[..i] {}
  }

  lemma {:induction false} FrequencyIsEarly(matched: seq<string>, tokens: seq<string>)
    requires forall i, j | 0 <= i < j < |matched| :: matched[i] != matched[j]
    ensures Frequency(matched, tokens) == |EarlyPositions(tokens, set t | t in matched)|
  {
    if matched == [] {
      assert EarlyPositions(tokens, set t | t in matched) == {};
    } else {
      var first, rest := matched[0], set t | t in matched[1..];
      FrequencyIsEarly(matched[1..], tokens);
      OccurrencesIsMultiplicity(tokens, first);
      EarlyOfOne(tokens, first);
      assert (set t | t in matched) == {first} + rest;
      EarlyApart(tokens, first, rest);
    }
  }

  lemma EarlyApart(tokens: seq<string>, t: string, rest: set<string>)
    requires t !in rest
    ensures |EarlyPositions(tokens, {t} + rest)| == |EarlyPositions(tokens, {t})| + |EarlyPositions(tokens, rest)|
  {
    assert EarlyPositions(tokens, {t} + rest) == EarlyPositions(tokens, {t}) + EarlyPositions(tokens, rest);
    assert EarlyPositions(tokens, {t}) !! EarlyPositions(tokens, rest);
  }

  lemma {:induction false} PositionsBound(s: set<nat>, n: nat)
    requires forall i | i in s :: i < n
    ensures |s| <= n
  {
    if n > 0 {
      PositionsBound(s - {n - 1}, n - 1);
      SubsetSize(s, s - {n - 1} + {n - 1});
    }
  }

  /** The density is the share of the text's positions that hold one of the first three occurrences
      of a matched term, so its cap at 1 never takes effect. */
  lemma DensityExactly(matched: seq<string>, tokens: seq<string>)
    requires tokens != [] && forall i, j | 0 <= i < j < |matched| :: matched[i] != matched[j]
    ensures Density(matched, tokens)
         == |EarlyPositions(tokens, set t | t in matched)| as real / |tokens| as real
  {
    var early := EarlyPositions(tokens, set t | t in matched);
    FrequencyIsEarly(matched, tokens);
    PositionsBound(early, |tokens|);
    DivideMonotone(|early| as real, |tokens| as real, |tokens| as real);
  }

  // ----- The score -----

  ghost function DirectTerms(u: Alphabet, query: string, text: string): set<string> {
    set t | t in LexicalQueryTerms(u, query) && t in RetrievalTokens(u, text)
  }

  /** The terms no token of the text matches and an expansion with a present alternative stands for. */
  ghost function SynonymTerms(u: Alphabet, query: string, text: string, expansions: seq<SynonymExpansion>): set<string> {
    set t | t in LexicalQueryTerms(u, query) && t !in RetrievalTokens(u, text)
         && exists e, alt :: e in expansions && t in e.sourceTerms && alt in e.alternatives
                          && PhrasePresent(u, alt, Lower(u, text), RetrievalTokens(u, text))
  }

  /** The score of a text: 0 when it has no token or nothing is covered; otherwise 0.70, a share of
      0.35 for the covered terms, synonyms counting nine tenths, a share of 0.06 for the density,
      the recency boost and 0.18 for each identifier, up to 1.20. */
  lemma ScoreExactly(u: Alphabet, query: string, text: string, expansions: seq<SynonymExpansion>, recency: real, identifiers: nat)
    ensures var terms, tokens := LexicalQueryTerms(u, query), RetrievalTokens(u, text);
            var direct, synonyms := DirectTerms(u, query, text), SynonymTerms(u, query, text, expansions);
            var score := LexicalMatchScore(u, query, text, expansions, recency, identifiers);
            if tokens == [] || direct + synonyms == {} then score == 0.0
            else
              var coverage := (|direct| as real + 0.9 * |synonyms| as real) / |terms| as real;
              var density := |EarlyPositions(tokens, direct)| as real / |tokens| as real;
              var raw := 0.70 + 0.35 * coverage + 0.06 * density + recency + 0.18 * identifiers as real;
              score == if raw <= 1.20 then raw else 1.20
  {
    hide *;
    CoveredExactly(u, query, text, expansions);
    ScoreByHit(u, query, text, expansions, recency, identifiers);
    var terms, tokens := LexicalQueryTerms(u, query), RetrievalTokens(u, text);
    if terms != [] && tokens != [] {
      var matched := Matched(terms, tokens);
      MatchedKeepsOrder(terms, tokens);
      DensityExactly(matched, tokens);
      RawScoreIsBlend(u, query, text, expansions, recency, identifiers);
      BlendExactly(|terms|, |matched|, |SynonymTerms(u, query, text, expansions)|, Density(matched, tokens), recency, identifiers);
    }
  }

  lemma ScoreByHit(u: Alphabet, query: string, text: string, expansions: seq<SynonymExpansion>, recency: real, identifiers: nat)
    ensures var score := LexicalMatchScore(u, query, text, expansions, recency, identifiers);
            if !Hit(u, query, text, expansions) then score == 0.0
            else
              && LexicalQueryTerms(u, query) != []
              && var raw := RawScore(u, query, text, expansions, recency, identifiers);
              score == if raw <= 1.20 then raw else 1.20
  {
    hide RetrievalTokens, LexicalQueryTerms, PhrasePresent, RawScore;
  }

  lemma BlendExactly(terms: nat, direct: nat, synonyms: nat, density: real, recency: real, identifiers: nat)
    requires terms > 0
    ensures Blend(Coverage(terms, direct, synonyms), density, recency, identifiers)
         == 0.70 + 0.35 * ((direct as real + 0.9 * synonyms as real) / terms as real) + 0.06 * density + recency
            + 0.18 * identifiers as real
  {
  }

  lemma CoveredExactly(u: Alphabet, query: string, text: string, expansions: seq<SynonymExpansion>)
    ensures var terms, tokens := LexicalQueryTerms(u, query), RetrievalTokens(u, text);
            var matched := Matched(terms, tokens);
            && DirectTerms(u, query, text) == (set t | t in matched)
            && |DirectTerms(u, query, text)| == |matched|
            && SynonymTerms(u, query, text, expansions) == SynonymCovered(u, terms, text, expansions)
            && (Hit(u, query, text, expansions) <==>
                  tokens != [] && DirectTerms(u, query, text) + SynonymTerms(u, query, text, expansions) != {})
  {
    hide RetrievalTokens, LexicalQueryTerms, SynonymCovered, SynonymTerms;
    var terms, tokens := LexicalQueryTerms(u, query), RetrievalTokens(u, text);
    MatchedDistinct(terms, tokens);
    SynonymTermsAreCovered(u, query, text, expansions);
    assert DirectTerms(u, query, text) == set t | t in Matched(terms, tokens);
  }

  lemma SynonymTermsAreCovered(u: Alphabet, query: string, text: string, expansions: seq<SynonymExpansion>)
    ensures SynonymTerms(u, query, text, expansions) == SynonymCovered(u, LexicalQueryTerms(u, query), text, expansions)
  {
    hide RetrievalTokens, LexicalQueryTerms, PhrasePresent;
  }

  lemma {:induction false} MatchedKeepsOrder(terms: seq<string>, tokens: seq<string>)
    requires forall i, j | 0 <= i < j < |terms| :: terms[i] != terms[j]
    ensures forall i, j | 0 <= i < j < |Matched(terms, tokens)| :: Matched(terms, tokens)[i] != Matched(terms, tokens)[j]
  {
    if terms != [] {
      var rest := Matched(terms[1..], tokens);
      assert forall i, j | 0 <= i < j < |terms[1..]| :: terms[1..][i] != terms[1..][j];
      MatchedKeepsOrder(terms[1..], tokens);
      assert terms[0] !in terms[1..];
      if terms[0] in tokens { Prepended(terms[0], rest); }
    }
  }

  lemma Prepended(x: string, rest: seq<string>)
    requires x !in rest && forall i, j | 0 <= i < j < |rest| :: rest[i] != rest[j]
    ensures var all := [x] + rest; forall i, j | 0 <= i < j < |all| :: all[i] != all[j]
  {
    var all := [x] + rest;
    assert forall k | 0 < k < |all| :: all[k] == rest[k - 1] && rest[k - 1] in rest;
  }

  /** Metadata without a date gives no boost, a date of today or later 0.02, and from there the boost
      falls in a straight line to nothing at ten years of 365 days. */
  lemma RecencyExactly(age: real)
    ensures RecencyBoost(None) == 0.0
    ensures age <= 0.0 ==> RecencyBoost(Some(age)) == 0.02
    ensures 0.0 <= age <= 3650.0 ==> 3650.0 * RecencyBoost(Some(age)) == 0.02 * (3650.0 - age)
    ensures age >= 3650.0 ==> RecencyBoost(Some(age)) == 0.0
  {
  }
}
