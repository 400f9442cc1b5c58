/** Where the documented contracts for synonym hits stop holding
    (src/raku_rag/core/hybrid_retrieval.py). */
module SynonymRanking {
  import opened Common
  import opened Text
  import opened Lexical
  import opened Synonyms

  /** A word the tokenizer emits as it stands. */
  ghost predicate PlainWord(u: Alphabet, w: string) {
    w != "" && (forall i | 0 <= i < |w| :: u.word(w[i]) && !CjkChar(w[i])) && w !in u.stopwords
  }

  lemma {:induction false} RunLengthOfWord(u: Alphabet, w: string, rest: string)
    requires forall i | 0 <= i < |w| :: u.word(w[i])
    requires rest == "" || !u.word(rest[0])
    ensures RunLength(u, w + rest) == |w|
  {
    if w == "" {
      assert w + rest == rest;
    } else {
      assert (w + rest)[1..] == w[1..] + rest;
      RunLengthOfWord(u, w[1..], rest);
    }
  }

  lemma OneRun(u: Alphabet, w: string, rest: string)
    requires w != "" && (forall i | 0 <= i < |w| :: u.word(w[i])) && (rest == "" || !u.word(rest[0]))
    ensures Runs(u, w + rest) == [w] + Runs(u, rest)
  {
    var s := w + rest;
    RunLengthOfWord(u, w, rest);
    assert s[0] == w[0] && s[..|w|] == w && s[|w|..] == rest;
  }

  lemma SkipSpace(u: Alphabet, rest: string)
    requires !u.word(' ')
    ensures Runs(u, "") == [] && Runs(u, " " + rest) == Runs(u, rest)
  {
    assert (" " + rest)[1..] == rest;
  }

  lemma {:induction false} RunsOfJoin(u: Alphabet, words: seq<string>)
    requires !u.word(' ') && forall w | w in words :: PlainWord(u, w)
    ensures Runs(u, JoinSpaced(words)) == words
  {
    hide Runs;
    if words == [] {
      SkipSpace(u, "");
    } else {
      assert words[0] in words;
      var w, rest := words[0], JoinSpaced(words[1..]);
      SkipSpace(u, rest);
      if |words| == 1 {
        OneRun(u, w, "");
        assert w + "" == w && [w] + [] == words;
      } else {
        OneRun(u, w, " " + rest);
        assert w + (" " + rest) == w + " " + rest;
        RunsOfJoin(u, words[1..]);
        assert [w] + words[1..] == words;
      }
    }
  }

  lemma {:induction false} PlainRuns(u: Alphabet, words: seq<string>)
    requires forall w | w in words :: PlainWord(u, w)
    ensures TokensOfRuns(u, words) == words
  {
    if words != [] {
      assert words[0] in words && !HasCjk(words[0]);
      PlainRuns(u, words[1..]);
    }
  }

  /** Tokenizing inverts joining plain lower-case words by spaces. */
  lemma TokensOfJoin(u: Alphabet, words: seq<string>)
    requires u.Valid() && forall w | w in words :: PlainWord(u, w)
    requires Lower(u, JoinSpaced(words)) == JoinSpaced(words)
    ensures RetrievalTokens(u, JoinSpaced(words)) == words
  {
    RunsOfJoin(u, words);
    PlainRuns(u, words);
  }

  // ----- Words of a single letter -----

  function Q(n: nat): string {
    seq(n, _ => 'q')
  }

  ghost predicate IsQ(w: string) {
    |w| >= 7 && forall i | 0 <= i < |w| :: w[i] == 'q'
  }

  /** A lower-case word that the tokenizer emits as it stands. */
  ghost predicate LowerWord(u: Alphabet, w: string) {
    PlainWord(u, w) && Lower(u, w) == w
  }

  lemma {:induction false} LowerOfJoin(u: Alphabet, words: seq<string>)
    requires u.Valid() && forall w | w in words :: Lower(u, w) == w
    ensures Lower(u, JoinSpaced(words)) == JoinSpaced(words)
  {
    if words != [] {
      var w, rest := words[0], JoinSpaced(words[1..]);
      assert w in words;
      if |words| > 1 {
        LowerOfJoin(u, words[1..]);
        assert Lower(u, " ") == " ";
        LowerConcat(u, w, " ");
        LowerConcat(u, w + " ", rest);
      }
    }
  }

  lemma LowerWords(u: Alphabet, words: seq<string>)
    requires u.Valid() && forall w | w in words :: LowerWord(u, w)
    ensures RetrievalTokens(u, JoinSpaced(words)) == words
  {
    LowerOfJoin(u, words);
    TokensOfJoin(u, words);
  }

  lemma QWords(u: Alphabet, words: seq<string>)
    requires u.Valid() && forall w | w in words :: IsQ(w)
    ensures RetrievalTokens(u, JoinSpaced(words)) == words
  {
    forall w | w in words ensures LowerWord(u, w) { QIsLowerWord(u, w); }
    LowerWords(u, words);
  }

  lemma QIsLowerWord(u: Alphabet, w: string)
    requires u.Valid() && IsQ(w)
    ensures LowerWord(u, w)
  {
  }

  lemma TwoTerms(u: Alphabet, a: string, b: string)
    requires u.Valid() && IsQ(a) && IsQ(b) && a != b
    ensures LexicalQueryTerms(u, JoinSpaced([a, b])) == [a, b]
  {
    QWords(u, [a, b]);
    assert Lower(u, a) == a && Lower(u, b) == b;
    assert SignalTerms(u, [b]) == [b];
    assert [a, b][1..] == [b];
  }

  lemma QTokens(u: Alphabet, w: string)
    requires u.Valid() && IsQ(w)
    ensures RetrievalTokens(u, w) == [w] && Lower(u, w) == w && !ContainsCjk(w)
  {
    QWords(u, [w]);
  }

  lemma PresentWord(u: Alphabet, w: string, haystack: string, tokens: seq<string>)
    requires u.Valid() && IsQ(w)
    ensures PhrasePresent(u, w, haystack, tokens) <==> w in tokens
  {
    QTokens(u, w);
    hide RetrievalTokens, ContainsCjk;
  }

  lemma SplitPair(u: Alphabet, query: string, x: string, y: string)
    requires x != y && Present(u, query, x) && !Present(u, query, y)
    ensures MembersPresent(u, query, [x, y]) == [x] && Without([x, y], [x]) == [y]
  {
    hide Present;
    assert [x, y][1..] == [y] && [y][1..] == [];
    assert MembersPresent(u, query, [y]) == [] && Without([y], [x]) == [y];
  }

  lemma ExpandParts(u: Alphabet, query: string, g: Group, x: string, y: string)
    requires Members(u, g) == [x, y] && MembersPresent(u, query, [x, y]) == [x] && Without([x, y], [x]) == [y]
    ensures var sources := TermsInside(LexicalQueryTerms(u, query), [x]);
      Expand(u, query, g) == if sources == [] then [] else [SynonymExpansion(sources, [y])]
  {
    hide Members, MembersPresent, Without, TermsInside, LexicalQueryTerms;
  }

  lemma PresentAsWord(u: Alphabet, query: string, w: string)
    requires u.Valid() && IsQ(w)
    ensures Present(u, query, w) <==> w in RetrievalTokens(u, query)
  {
    hide RetrievalTokens, PhrasePresent, Lower;
    PresentWord(u, w, Lower(u, query), RetrievalTokens(u, query));
  }

  /** What an entry of two such words contributes to a query that uses the first. */
  lemma ExpandTwo(u: Alphabet, query: string, x: string, y: string)
    requires u.Valid() && IsQ(x) && IsQ(y) && x != y
    requires x in RetrievalTokens(u, query) && y !in RetrievalTokens(u, query)
    ensures var sources := TermsInside(LexicalQueryTerms(u, query), [x]);
      Expand(u, query, Group(x, [y])) == if sources == [] then [] else [SynonymExpansion(sources, [y])]
  {
    hide *;
    TwoMembers(u, x, y);
    PresentAsWord(u, query, x);
    PresentAsWord(u, query, y);
    SplitPair(u, query, x, y);
    ExpandParts(u, query, Group(x, [y]), x, y);
  }

  lemma TwoMembers(u: Alphabet, x: string, y: string)
    requires u.Valid() && IsQ(x) && IsQ(y) && x != y
    ensures Members(u, Group(x, [y])) == [x, y]
  {
    hide RetrievalTokens;
    QTokens(u, x);
    QTokens(u, y);
    assert Strip(u.space, x) == x && Strip(u.space, y) == y;
    assert [x] + [y] == [x, y] && [x, y][..1] == [x] && [x][..0] == [];
    assert FoldedOnce(u, [x]) == [x];
  }

  lemma ExpandOnly(u: Alphabet, query: string, g: Group)
    ensures ExpandAll(u, query, [g]) == Expand(u, query, g)
  {
    hide Expand;
    assert [g][..0] == [];
  }

  lemma NonBlankExpansions(u: Alphabet, query: string, groups: seq<Group>)
    requires u.Valid() && groups != [] && LexicalQueryTerms(u, query) != []
    ensures SynonymExpansions(u, query, groups) == ExpandAll(u, query, groups)
  {
    hide ExpandAll, LexicalQueryTerms, Lower, Strip;
    if Strip(u.space, Lower(u, query)) == "" { BlankHasNoTerms(u, query); }
  }

  /** The expansions of a two-word query by one such entry. */
  lemma ExpansionsOfTwo(u: Alphabet, a: string, b: string, x: string, y: string)
    requires u.Valid() && IsQ(a) && IsQ(b) && IsQ(x) && IsQ(y) && a != b && x != y && x in [a, b] && y !in [a, b]
    ensures var sources := TermsInside([a, b], [x]);
      SynonymExpansions(u, JoinSpaced([a, b]), [Group(x, [y])]) == if sources == [] then [] else [SynonymExpansion(sources, [y])]
  {
    hide *;
    var query := JoinSpaced([a, b]);
    TwoTerms(u, a, b);
    QWords(u, [a, b]);
    ExpandTwo(u, query, x, y);
    ExpandOnly(u, query, Group(x, [y]));
    NonBlankExpansions(u, query, [Group(x, [y])]);
  }

  lemma {:induction false} LongerNeverInside(t: string, m: string)
    requires |t| > |m|
    ensures !Occurs(t, m)
  {
  }

  lemma ShorterInside(a: string, b: string)
    requires IsQ(a) && IsQ(b) && |a| <= |b|
    ensures Occurs(a, b)
  {
    assert OccursAt(a, b, 0);
  }

  // ----- Source terms are found as substrings -----

  /** No stop word holds a digit, as in the source's list. */
  ghost predicate DigitFreeStops(u: Alphabet) {
    forall w, i | w in u.stopwords && 0 <= i < |w| :: !u.digit(w[i])
  }

  /** Every source term an entry gives to any query is a whole token of a member that query uses. */
  ghost predicate SourceTermsAreTokens(u: Alphabet, g: Group) {
    forall query, e, t | e in SynonymExpansions(u, query, [g]) && t in e.sourceTerms :: TokenOfPresent(u, query, g, t)
  }

  predicate TokenOfPresent(u: Alphabet, query: string, g: Group, t: string) {
    exists m | m in Members(u, g) && Present(u, query, m) :: t in RetrievalTokens(u, m)
  }

  /** Nothing that could be a query term lies inside a member, except members themselves. */
  ghost predicate NoTermInside(u: Alphabet, g: Group) {
    forall m, t | m in Members(u, g) && Occurs(t, m) && IsSignal(u, t) && t !in Members(u, g) :: t in u.stopwords
  }

  lemma WordIsItsToken(u: Alphabet, w: string)
    requires u.Valid() && LowerWord(u, w)
    ensures RetrievalTokens(u, w) == [w] && !ContainsCjk(w)
  {
    LowerWords(u, [w]);
  }

  lemma WordIsPresent(u: Alphabet, query: string, w: string)
    requires u.Valid() && LowerWord(u, w)
    ensures Present(u, query, w) <==> w in RetrievalTokens(u, query)
  {
    WordIsItsToken(u, w);
    hide RetrievalTokens, ContainsCjk, LowerWord, Lower;
  }

  lemma PartOfWord(u: Alphabet, t: string, m: string)
    requires LowerWord(u, m) && Occurs(t, m) && t != "" && t !in u.stopwords
    ensures LowerWord(u, t)
  {
    var at: nat :| at <= |m| && OccursAt(t, m, at);
    assert forall i {:trigger t[i]} | 0 <= i < |t| :: t[i] == m[at + i] && Lower(u, m)[at + i] == m[at + i];
    assert Lower(u, t) == t;
  }

  lemma NoCjkInside(u: Alphabet, t: string, m: string)
    requires LowerWord(u, m) && Occurs(t, m)
    ensures !HasCjk(t)
  {
    var at: nat :| at <= |m| && OccursAt(t, m, at);
    assert forall i {:trigger t[i]} | 0 <= i < |t| :: t[i] == m[at + i];
  }

  /** A query term without a CJK character is no stop word. */
  lemma TermIsNoStopWord(u: Alphabet, query: string, t: string)
    requires u.Valid() && DigitFreeStops(u) && t in LexicalQueryTerms(u, query) && !HasCjk(t)
    ensures t in RetrievalTokens(u, query) && IsSignal(u, t) && t !in u.stopwords
  {
    var k :| k in RetrievalTokens(u, query) && IsSignal(u, k) && Lower(u, k) == t;
    TokensAreLower(u, query, k);
    TokenIffRun(u, query, t);
    hide RetrievalTokens, LexicalQueryTerms, Lower, MaximalRun;
    var s := Lower(u, query);
    var i: nat, j: nat :| MaximalRun(u, s, i, j) && t in RunTokens(u, s[i..j]);
    PlainTokenOfRun(u, s[i..j], t);
  }

  lemma PlainTokenOfRun(u: Alphabet, run: string, t: string)
    requires DigitFreeStops(u) && t in RunTokens(u, run) && IsSignal(u, t) && !HasCjk(t)
    ensures t !in u.stopwords
  {
    if HasCjk(run) && |run| > 1 {
      assert |t| == 2 && !ContainsCjk(t);
    }
  }

  /** Members of an entry are promised to match on whole tokens, but source terms are found as plain
      substrings. For an entry of lower-case words without CJK characters, every source term of every
      query is a whole token of a member exactly when no possible query term lies inside a member. */
  lemma SourceTermsAreTokensExactly(u: Alphabet, g: Group)
    requires u.Valid() && DigitFreeStops(u) && forall m | m in Members(u, g) :: LowerWord(u, m)
    ensures SourceTermsAreTokens(u, g) <==> |Members(u, g)| < 2 || NoTermInside(u, g)
  {
    hide SynonymExpansions, Members, LexicalQueryTerms, RetrievalTokens, LowerWord, IsSignal, Occurs, Present, DigitFreeStops;
    if |Members(u, g)| < 2 || NoTermInside(u, g) {
      forall query, e, t | e in SynonymExpansions(u, query, [g]) && t in e.sourceTerms
        ensures TokenOfPresent(u, query, g, t)
      {
        InsideIsToken(u, query, g, e, t);
      }
    } else {
      var m, t :| m in Members(u, g) && Occurs(t, m) && IsSignal(u, t) && t !in Members(u, g) && t !in u.stopwords;
      var query, e := TermInside(u, g, m, t);
    }
  }

  lemma InsideIsToken(u: Alphabet, query: string, g: Group, e: SynonymExpansion, t: string)
    requires u.Valid() && DigitFreeStops(u) && forall m | m in Members(u, g) :: LowerWord(u, m)
    requires |Members(u, g)| < 2 || NoTermInside(u, g)
    requires e in SynonymExpansions(u, query, [g]) && t in e.sourceTerms
    ensures TokenOfPresent(u, query, g, t)
  {
    ExpansionsExactly(u, query, [g], e);
    SmallGroup(u, query, g);
    hide SynonymExpansions, Members, Expand, LexicalQueryTerms, RetrievalTokens, LowerWord, IsSignal, Occurs, Present, DigitFreeStops, HasCjk;
    ExpansionFacts(u, query, g, e);
    var m :| m in Members(u, g) && Present(u, query, m) && Occurs(t, m);
    NoCjkInside(u, t, m);
    TermIsNoStopWord(u, query, t);
    assert t in Members(u, g);
    WordIsPresent(u, query, t);
    WordIsItsToken(u, t);
  }

  lemma SmallGroup(u: Alphabet, query: string, g: Group)
    ensures |Members(u, g)| < 2 ==> Expand(u, query, g) == []
  {
  }

  /** The query "m t" for a possible term t inside the member m: t becomes a source term. */
  lemma TermInside(u: Alphabet, g: Group, m: string, t: string) returns (query: string, e: SynonymExpansion)
    requires u.Valid() && |Members(u, g)| >= 2 && forall w | w in Members(u, g) :: LowerWord(u, w)
    requires m in Members(u, g) && Occurs(t, m) && IsSignal(u, t) && t !in Members(u, g) && t !in u.stopwords
    ensures e in SynonymExpansions(u, query, [g]) && t in e.sourceTerms && !TokenOfPresent(u, query, g, t)
  {
    hide Members, LexicalQueryTerms, RetrievalTokens, LowerWord, Occurs, Present, SynonymExpansions, Expand, TermsInside, Without;
    assert t != "" by { SignalNotEmpty(u, t); }
    PartOfWord(u, t, m);
    query := JoinSpaced([m, t]);
    LowerWords(u, [m, t]);
    TermOfQuery(u, query, t);
    forall w | w in Members(u, g)
      ensures Present(u, query, w) <==> w == m
      ensures t !in RetrievalTokens(u, w)
    {
      WordIsPresent(u, query, w);
      WordIsItsToken(u, w);
    }
    e := ExpandUsing(u, query, g, m, t);
    assert g in [g];
    ExpansionsExactly(u, query, [g], e);
  }

  lemma SignalNotEmpty(u: Alphabet, t: string)
    requires IsSignal(u, t)
    ensures t != ""
  {
  }

  lemma TermOfQuery(u: Alphabet, query: string, t: string)
    requires t in RetrievalTokens(u, query) && IsSignal(u, t) && LowerWord(u, t)
    ensures t in LexicalQueryTerms(u, query)
  {
    hide RetrievalTokens, IsSignal;
  }

  lemma ExpandUsing(u: Alphabet, query: string, g: Group, m: string, t: string) returns (e: SynonymExpansion)
    requires |Members(u, g)| >= 2 && m in Members(u, g) && t in LexicalQueryTerms(u, query) && Occurs(t, m)
    requires forall w | w in Members(u, g) :: Present(u, query, w) <==> w == m
    ensures e in Expand(u, query, g) && t in e.sourceTerms
  {
    TwoDistinct(u, g, m);
    hide Members, LexicalQueryTerms, Occurs, Present;
    var members := Members(u, g);
    var matched := MembersPresent(u, query, members);
    assert m in matched;
    var sources := TermsInside(LexicalQueryTerms(u, query), matched);
    assert t in sources;
    e := SynonymExpansion(sources, Without(members, matched));
  }

  lemma TwoDistinct(u: Alphabet, g: Group, m: string)
    requires |Members(u, g)| >= 2
    ensures exists w | w in Members(u, g) :: w != m
  {
    var members := Members(u, g);
    var w := if members[0] == m then members[1] else members[0];
    assert members[0] != members[1] && w in members;
  }

  /** The consequence for scores: a text with the synonym alone covers a query term that is a token of
      no member. */
  lemma TermInsideMemberIsCovered(u: Alphabet)
    requires u.Valid()
    ensures exists query, text, g, t ::
      && t in SynonymCovered(u, LexicalQueryTerms(u, query), text, SynonymExpansions(u, query, [g]))
      && forall m | m in Members(u, g) :: t !in RetrievalTokens(u, m)
  {
    hide *;
    var query, text, g, t := SubstringSetup(u);
  }

  lemma SubstringSetup(u: Alphabet) returns (query: string, text: string, g: Group, t: string)
    requires u.Valid()
    ensures t in SynonymCovered(u, LexicalQueryTerms(u, query), text, SynonymExpansions(u, query, [g]))
    ensures forall m | m in Members(u, g) :: t !in RetrievalTokens(u, m)
  {
    hide *;
    var a, b, c := Q(7), Q(8), Q(9);
    FourWords();
    query, text, g, t := JoinSpaced([a, b]), c, Group(b, [c]), a;
    TwoTerms(u, a, b);
    QTokens(u, b);
    QTokens(u, c);
    TwoMembers(u, b, c);
    ExpansionsOfTwo(u, a, b, b, c);
    BothInside(a, b);
    AloneCovered(u, a, b, c);
    NotAToken(u, a, b, c);
  }

  lemma NotAToken(u: Alphabet, a: string, b: string, c: string)
    requires a != b && a != c && RetrievalTokens(u, b) == [b] && RetrievalTokens(u, c) == [c]
    ensures forall m | m in [b, c] :: a !in RetrievalTokens(u, m)
  {
    hide RetrievalTokens;
  }

  lemma AloneCovered(u: Alphabet, a: string, b: string, c: string)
    requires u.Valid() && IsQ(c) && a != c && RetrievalTokens(u, c) == [c]
    ensures a in SynonymCovered(u, [a, b], c, [SynonymExpansion([a, b], [c])])
  {
    PresentWord(u, c, Lower(u, c), [c]);
    hide PhrasePresent, RetrievalTokens, Lower;
    var e := SynonymExpansion([a, b], [c]);
    assert c in e.alternatives && AlternativePresent(u, e, c);
    assert e in [e] && a in e.sourceTerms && a in [a, b];
  }

  lemma BothInside(a: string, b: string)
    requires IsQ(a) && IsQ(b) && |a| <= |b|
    ensures TermsInside([a, b], [b]) == [a, b]
  {
    ShorterInside(a, b);
    ShorterInside(b, b);
    hide Occurs;
    assert b in [b] && [a, b][1..] == [b] && [b][1..] == [];
    assert TermsInside([b], [b]) == [b];
  }

  lemma OnlyShorterInside(a: string, b: string)
    requires IsQ(a) && IsQ(b) && |a| < |b|
    ensures TermsInside([a, b], [a]) == [a]
  {
    ShorterInside(a, a);
    LongerNeverInside(b, a);
    hide Occurs;
    assert a in [a] && [a, b][1..] == [b] && [b][1..] == [];
    assert TermsInside([b], [a]) == [];
  }

  // ----- A mixed hit that outranks a direct hit -----

  /** With one term covered directly and one by a synonym, a short text scores above a long text that
      has both terms, neither at the cap, for expansions that a lexicon entry gives: the documented
      contract fails at mixed coverage (`Lexical.MixedOutranksExactly` says when). */
  lemma MixedHitCanOutrankDirectHit(u: Alphabet)
    requires u.Valid()
    ensures exists query, direct, mixed, g ::
      && var expansions := SynonymExpansions(u, query, [g]);
      && CoveredTerms(u, query, direct, expansions) == CoveredTerms(u, query, mixed, expansions)
      && SynonymCovered(u, LexicalQueryTerms(u, query), direct, expansions) == {}
      && LexicalMatchScore(u, query, direct, expansions, 0.0, 0) == 1.062
      && LexicalMatchScore(u, query, mixed, expansions, 0.0, 0) == 1.0625
  {
    hide *;
    var query, direct, mixed, g, terms := MixedSetup(u);
    var expansions := SynonymExpansions(u, query, [g]);
    MixedScores(u, query, direct, mixed, expansions, terms);
  }

  lemma MixedScores(u: Alphabet, query: string, direct: string, mixed: string, expansions: seq<SynonymExpansion>, terms: seq<string>)
    requires LexicalQueryTerms(u, query) == terms && |terms| == 2
    requires |Matched(terms, RetrievalTokens(u, direct))| == 2 && |Matched(terms, RetrievalTokens(u, mixed))| == 1
    requires SynonymCovered(u, terms, direct, expansions) == {} && |SynonymCovered(u, terms, mixed, expansions)| == 1
    requires Density(Matched(terms, RetrievalTokens(u, mixed)), RetrievalTokens(u, mixed)) == 0.5
    requires Density(Matched(terms, RetrievalTokens(u, direct)), RetrievalTokens(u, direct)) == 0.2
    ensures LexicalMatchScore(u, query, direct, expansions, 0.0, 0) == 1.062
    ensures LexicalMatchScore(u, query, mixed, expansions, 0.0, 0) == 1.0625
  {
    MatchedHit(u, query, direct, expansions);
    MatchedHit(u, query, mixed, expansions);
    hide RetrievalTokens, LexicalQueryTerms, SynonymCovered, Matched, Density, Hit, LexicalMatchScore, RawScore;
    ScoreOfHit(u, query, direct, expansions, 0.0, 0);
    ScoreOfHit(u, query, mixed, expansions, 0.0, 0);
    RawScoreIsBlend(u, query, direct, expansions, 0.0, 0);
    RawScoreIsBlend(u, query, mixed, expansions, 0.0, 0);
  }

  lemma MatchedHit(u: Alphabet, query: string, text: string, expansions: seq<SynonymExpansion>)
    requires |Matched(LexicalQueryTerms(u, query), RetrievalTokens(u, text))| > 0
    ensures Hit(u, query, text, expansions)
  {
    var matched := Matched(LexicalQueryTerms(u, query), RetrievalTokens(u, text));
    assert matched[0] in matched;
  }

  lemma MixedExpansions(u: Alphabet, a: string, b: string, c: string)
    requires u.Valid() && IsQ(a) && IsQ(b) && IsQ(c) && |a| < |b| && c != a && c != b
    ensures SynonymExpansions(u, JoinSpaced([a, b]), [Group(a, [c])]) == [SynonymExpansion([a], [c])]
  {
    hide *;
    assert a in [a, b] && c !in [a, b];
    ExpansionsOfTwo(u, a, b, a, c);
    OnlyShorterInside(a, b);
  }

  lemma MixedSetup(u: Alphabet)
    returns (query: string, direct: string, mixed: string, g: Group, terms: seq<string>)
    requires u.Valid()
    ensures LexicalQueryTerms(u, query) == terms && |terms| == 2
    ensures |Matched(terms, RetrievalTokens(u, direct))| == 2 && |Matched(terms, RetrievalTokens(u, mixed))| == 1
    ensures var expansions := SynonymExpansions(u, query, [g]);
      && CoveredTerms(u, query, direct, expansions) == CoveredTerms(u, query, mixed, expansions)
      && SynonymCovered(u, terms, direct, expansions) == {} && |SynonymCovered(u, terms, mixed, expansions)| == 1
    ensures Density(Matched(terms, RetrievalTokens(u, mixed)), RetrievalTokens(u, mixed)) == 0.5
    ensures Density(Matched(terms, RetrievalTokens(u, direct)), RetrievalTokens(u, direct)) == 0.2
  {
    hide *;
    var a, b, c, d := Q(7), Q(8), Q(9), Q(10);
    FourWords();
    query, direct, mixed := MixedTexts(u, a, b, c, d);
    terms, g := [a, b], Group(a, [c]);
    var expansions := [SynonymExpansion([a], [c])];
    MixedExpansions(u, a, b, c);
    MixedCovered(u, a, b, c, direct, mixed);
    CoveredPair(u, query, direct, mixed, expansions, a, b);
    MixedNumbers(a, b, c, d);
    MixedMatches(a, b, c, Long(a, b, d));
  }

  lemma FourWords()
    ensures IsQ(Q(7)) && IsQ(Q(8)) && IsQ(Q(9)) && IsQ(Q(10))
    ensures |Q(7)| == 7 && |Q(8)| == 8 && |Q(9)| == 9 && |Q(10)| == 10
    ensures Q(7) != Q(8) && Q(7) != Q(9) && Q(8) != Q(9) && Q(7) != Q(10) && Q(8) != Q(10)
  {
    assert |Q(7)| != |Q(8)| && |Q(7)| != |Q(9)| && |Q(8)| != |Q(9)| && |Q(7)| != |Q(10)| && |Q(8)| != |Q(10)|;
  }

  function Long(a: string, b: string, d: string): (words: seq<string>)
    ensures a in words && b in words && forall w | w in words :: w == a || w == b || w == d
  {
    [a, b, d, d, d, d, d, d, d, d]
  }

  lemma MixedTexts(u: Alphabet, a: string, b: string, c: string, d: string)
    returns (query: string, direct: string, mixed: string)
    requires u.Valid() && IsQ(a) && IsQ(b) && IsQ(c) && IsQ(d) && a != b
    ensures query == JoinSpaced([a, b]) && LexicalQueryTerms(u, query) == [a, b]
    ensures RetrievalTokens(u, direct) == Long(a, b, d) && RetrievalTokens(u, mixed) == [b, c]
  {
    hide *;
    query, direct, mixed := JoinSpaced([a, b]), JoinSpaced(Long(a, b, d)), JoinSpaced([b, c]);
    QWords(u, Long(a, b, d));
    QWords(u, [b, c]);
    TwoTerms(u, a, b);
  }

  lemma CoveredPair(u: Alphabet, query: string, direct: string, mixed: string, expansions: seq<SynonymExpansion>, a: string, b: string)
    requires LexicalQueryTerms(u, query) == [a, b]
    requires a in RetrievalTokens(u, direct) && b in RetrievalTokens(u, direct) && b in RetrievalTokens(u, mixed)
    requires SynonymCovered(u, [a, b], mixed, expansions) == {a}
    requires SynonymCovered(u, [a, b], direct, expansions) == {}
    ensures CoveredTerms(u, query, direct, expansions) == CoveredTerms(u, query, mixed, expansions)
  {
    hide RetrievalTokens, LexicalQueryTerms, SynonymCovered;
    assert CoveredTerms(u, query, direct, expansions) == {a, b};
    assert CoveredTerms(u, query, mixed, expansions) == {a, b};
  }

  lemma MixedCovered(u: Alphabet, a: string, b: string, c: string, direct: string, mixed: string)
    requires u.Valid() && IsQ(c) && a != b && a != c && b != c
    requires RetrievalTokens(u, mixed) == [b, c] && a in RetrievalTokens(u, direct) && b in RetrievalTokens(u, direct)
    ensures SynonymCovered(u, [a, b], mixed, [SynonymExpansion([a], [c])]) == {a}
    ensures SynonymCovered(u, [a, b], direct, [SynonymExpansion([a], [c])]) == {}
  {
    var e := SynonymExpansion([a], [c]);
    PresentWord(u, c, Lower(u, mixed), [b, c]);
    assert c in e.alternatives && PhrasePresent(u, c, Lower(u, mixed), [b, c]);
    assert AlternativePresent(u, e, mixed);
    assert e in [e];
  }

  lemma MixedMatches(a: string, b: string, c: string, long: seq<string>)
    requires a != b && a != c && a in long && b in long
    ensures Matched([a, b], long) == [a, b] && Matched([a, b], [b, c]) == [b]
  {
    assert [a, b][1..] == [b] && [b][1..] == [];
    assert Matched([], long) == [] && Matched([], [b, c]) == [];
    assert Matched([b], long) == [b] && Matched([b], [b, c]) == [b];
  }

  lemma Pair(x: string, y: string)
    requires x != y
    ensures Occurrences([x, y], x) == 1 && Occurrences([x, y], y) == 1
  {
    assert [x, y][1..] == [y] && [y][1..] == [];
    assert Occurrences([y], x) == 0 && Occurrences([y], y) == 1;
  }

  lemma MixedNumbers(a: string, b: string, c: string, d: string)
    requires a != b && a != d && b != d && b != c
    ensures Density([b], [b, c]) == 0.5
    ensures Density([a, b], Long(a, b, d)) == 0.2
  {
    Pair(a, b);
    Pair(b, c);
    var tail := [d, d, d, d, d, d, d, d];
    DroppedOccurrences([a, b], tail, a);
    DroppedOccurrences([a, b], tail, b);
    assert [a, b, d, d, d, d, d, d, d, d] == [a, b] + tail;
    assert [a, b][1..] == [b] && [b][1..] == [];
    assert Frequency([], [a, b] + tail) == 0 && Frequency([], [b, c]) == 0;
    assert Frequency([b], [a, b] + tail) == 1;
  }

  lemma {:induction false} DroppedOccurrences(front: seq<string>, tail: seq<string>, t: string)
    requires t !in tail
    ensures Occurrences(front + tail, t) == Occurrences(front, t)
    decreases |front| + |tail|
  {
    if front != [] {
      assert (front + tail)[1..] == front[1..] + tail;
      DroppedOccurrences(front[1..], tail, t);
    } else if tail != [] {
      assert front + tail == tail && [] + tail[1..] == tail[1..];
      DroppedOccurrences([], tail[1..], t);
    }
  }
}
