/** The lexical candidate pool: token and hash eligibility against the exact scorer
    (src/raku_rag/core/hybrid_retrieval.py). */
module Candidates {
  import opened Common
  import opened Text
  import opened Lexical

  function AlternativeTokens(u: Alphabet, alternatives: seq<string>): set<string> {
    set alt, t | alt in alternatives && t in RetrievalTokens(u, alt) :: t
  }

  /** Any-of set used for pool eligibility: the query terms and every token of every alternative. */
  function CandidateTokens(u: Alphabet, terms: seq<string>, expansions: seq<SynonymExpansion>): set<string> {
    (set t | t in terms && t != "") + set e, t | e in expansions && t in AlternativeTokens(u, e.alternatives) :: t
  }

  function TokenSet(u: Alphabet, text: string): set<string> {
    set t | t in RetrievalTokens(u, text)
  }

  // ----- Which alternatives force one of their own tokens into the text -----

  /** Some run of the phrase keeps a token whatever surrounds the phrase: a CJK-bearing run of at
      least two characters, or a token-bearing run with a non-word character on both sides. */
  ghost predicate Robust(u: Alphabet, phrase: string) {
    exists i: int, j: int :: MaximalRun(u, phrase, i, j) && Survives(u, phrase, i, j)
  }

  predicate Survives(u: Alphabet, phrase: string, i: int, j: int)
    requires 0 <= i <= j <= |phrase|
  {
    || (HasCjk(phrase[i..j]) && j - i >= 2)
    || (0 < i && j < |phrase| && RunTokens(u, phrase[i..j]) != [])
  }

  /** A run that contains a CJK-bearing block of two or more characters emits the block's first
      bigram. */
  lemma BigramOfBlock(u: Alphabet, run: string, block: string, at: nat)
    requires OccursAt(block, run, at) && HasCjk(block) && |block| >= 2
    ensures block[..2] in RunTokens(u, run)
  {
    var c :| 0 <= c < |block| && CjkChar(block[c]);
    assert run[at + c] == block[c];
    assert run[at..at + |block|][..2] == run[at..at + 2];
    assert RunTokens(u, run)[at] == block[..2];
  }

  /** The run of `s` around a run of a phrase that occurs in `s` at `k`. */
  lemma EnclosingRun(u: Alphabet, phrase: string, s: string, k: nat, i: nat, j: nat) returns (a: nat, b: nat)
    requires OccursAt(phrase, s, k) && MaximalRun(u, phrase, i, j)
    ensures MaximalRun(u, s, a, b) && a <= k + i && k + j <= b
    ensures i > 0 ==> a == k + i
    ensures j < |phrase| ==> b == k + j
  {
    assert forall x {:trigger phrase[x]} | 0 <= x < |phrase| :: phrase[x] == s[k + x];
    a, b := RunAround(u, s, k + i, k + j);
  }

  lemma OccurringIsLower(u: Alphabet, phrase: string, text: string)
    requires u.Valid() && Occurs(phrase, Lower(u, text))
    ensures Lower(u, phrase) == phrase
  {
    var s := Lower(u, text);
    var k: nat :| k <= |s| && OccursAt(phrase, s, k);
    assert forall x {:trigger phrase[x]} | 0 <= x < |phrase| :: phrase[x] == s[k + x];
  }

  /** A surviving run and its enclosing run in the text share a token. */
  lemma SharedToken(u: Alphabet, phrase: string, s: string, k: nat, i: nat, j: nat) returns (a: nat, b: nat, t: string)
    requires OccursAt(phrase, s, k) && MaximalRun(u, phrase, i, j) && Survives(u, phrase, i, j)
    ensures MaximalRun(u, s, a, b) && t in RunTokens(u, phrase[i..j]) && t in RunTokens(u, s[a..b])
  {
    a, b := EnclosingRun(u, phrase, s, k, i, j);
    SubSlice(s, k, k + |phrase|, i, j);
    SubSlice(s, a, b, k + i - a, k + j - a);
    t := TokenOfBlock(u, phrase[i..j], s[a..b], k + i - a);
  }

  lemma TokenOfBlock(u: Alphabet, block: string, run: string, at: nat) returns (t: string)
    requires OccursAt(block, run, at)
    requires (HasCjk(block) && |block| >= 2) || (block == run && RunTokens(u, block) != [])
    ensures t in RunTokens(u, block) && t in RunTokens(u, run)
  {
    if HasCjk(block) && |block| >= 2 {
      t := block[..2];
      BigramOfBlock(u, block, block, 0);
      BigramOfBlock(u, run, block, at);
    } else {
      t := RunTokens(u, block)[0];
    }
  }

  /** A robust phrase inside a text puts one of its own tokens among the tokens of the text. */
  lemma RobustPhraseLeavesToken(u: Alphabet, phrase: string, text: string) returns (t: string)
    requires u.Valid() && Robust(u, phrase) && Occurs(phrase, Lower(u, text))
    ensures t in RetrievalTokens(u, phrase) && t in RetrievalTokens(u, text)
  {
    var s := Lower(u, text);
    var k: nat :| k <= |s| && OccursAt(phrase, s, k);
    OccurringIsLower(u, phrase, text);
    var i: nat, j: nat :| MaximalRun(u, phrase, i, j) && Survives(u, phrase, i, j);
    hide *;
    var a, b;
    a, b, t := SharedToken(u, phrase, s, k, i, j);
    TokenIffRun(u, phrase, t);
    TokenIffRun(u, text, t);
  }

  // ----- A fragile phrase can hide in a text that has none of its tokens -----

  /** Padding that fuses with a word at the edge of the phrase into a token of another shape. */
  function Padding(u: Alphabet, phrase: string, edge: char): string {
    if u.word(edge) && !CjkChar(edge) then seq(|phrase| + 7, _ => 'q') else "\U{4E00}\U{4E00}"
  }

  function Padded(u: Alphabet, phrase: string): string
    requires phrase != ""
  {
    Padding(u, phrase, phrase[0]) + phrase + Padding(u, phrase, phrase[|phrase| - 1])
  }

  /** The shape of the tokens of a fragile phrase. */
  lemma FragileToken(u: Alphabet, phrase: string, t: string)
    requires u.Valid() && Lower(u, phrase) == phrase && !Robust(u, phrase) && t in RetrievalTokens(u, phrase)
    ensures |t| <= |phrase| && (HasCjk(t) ==> |t| == 1)
  {
    TokenIffRun(u, phrase, t);
    var i: nat, j: nat :| MaximalRun(u, phrase, i, j) && t in RunTokens(u, phrase[i..j]);
    assert !Survives(u, phrase, i, j);
    assert t == phrase[i..j];
  }

  lemma TokenShape(u: Alphabet, run: string, n: nat, t: string)
    requires t in RunTokens(u, run)
    requires (!HasCjk(run) && |run| > n) || (|run| >= 2 && forall x | 0 <= x < |run| :: CjkChar(run[x]))
    ensures |t| > n || (HasCjk(t) && |t| == 2)
  {
    assert run != "" && CjkChar(run[0]) ==> HasCjk(run);
    if HasCjk(run) {
      var i :| 0 <= i < |run| - 1 && t == run[i..i + 2];
      assert t[0] == run[i];
    }
  }

  function Kept(keep: bool, s: string): string {
    if keep then s else ""
  }

  lemma TakeOfConcat(l: string, q: string, n: nat)
    requires n <= |q|
    ensures (l + q)[..|l| + n] == l + q[..n]
  {
  }

  lemma DropOfConcat(l: string, q: string, n: nat)
    requires n <= |q|
    ensures (l + q)[|l| + n..] == q[n..]
  {
  }

  lemma ConcatSlice(l: string, p: string, r: string, i: nat, j: nat, a: nat, b: nat)
    requires i <= j <= |p| && a <= b <= |l + p + r|
    requires a == if i == 0 then 0 else |l| + i
    requires b == if j == |p| then |l + p + r| else |l| + j
    ensures (l + p + r)[a..b] == Kept(i == 0, l) + p[i..j] + Kept(j == |p|, r)
  {
    var s := l + p + r;
    var front := if j == |p| then s else l + p[..j];
    assert s == l + (p + r);
    assert s[..b] == front by {
      if j < |p| {
        TakeOfConcat(l, p + r, j);
        assert (p + r)[..j] == p[..j];
      }
    }
    var tail := p[..j] + Kept(j == |p|, r);
    assert front == l + tail by {
      if j == |p| { assert p[..j] == p; } else { assert tail == p[..j]; }
    }
    assert tail[i..] == p[i..j] + Kept(j == |p|, r);
    if i > 0 {
      DropOfConcat(l, tail, i);
    } else {
      assert tail[0..] == tail;
    }
    assert s[a..b] == front[a..];
  }

  /** A run of a phrase between two word paddings is a padding next to a non-word edge, or a run of
      the phrase that swallows the padding on each edge it touches. */
  lemma PaddedRun(u: Alphabet, left: string, phrase: string, right: string, a: nat, b: nat) returns (i: nat, j: nat)
    requires left != "" && right != "" && phrase != ""
    requires forall x | 0 <= x < |left| :: u.word(left[x])
    requires forall x | 0 <= x < |right| :: u.word(right[x])
    requires MaximalRun(u, left + phrase + right, a, b)
    ensures (i < j && MaximalRun(u, phrase, i, j)
             && (left + phrase + right)[a..b] == Kept(i == 0, left) + phrase[i..j] + Kept(j == |phrase|, right))
         || (i == j == 0 && !u.word(phrase[0]) && (left + phrase + right)[a..b] == left)
         || (i == j == 1 && !u.word(phrase[|phrase| - 1]) && (left + phrase + right)[a..b] == right)
  {
    var s := left + phrase + right;
    forall x | 0 <= x < |s| && !(|left| <= x < |left| + |phrase|) ensures u.word(s[x]) {
      assert s[x] == if x < |left| then left[x] else right[x - |left| - |phrase|];
    }
    i, j := PaddedBounds(u, s, phrase, |left|, a, b);
    if i < j {
      ConcatSlice(left, phrase, right, i, j, a, b);
    }
  }

  lemma PaddedBounds(u: Alphabet, s: string, phrase: string, k: nat, a: nat, b: nat) returns (i: nat, j: nat)
    requires phrase != "" && 0 < k && k + |phrase| < |s| && OccursAt(phrase, s, k)
    requires forall x | 0 <= x < |s| && !(k <= x < k + |phrase|) :: u.word(s[x])
    requires MaximalRun(u, s, a, b)
    ensures (i < j && MaximalRun(u, phrase, i, j)
             && a == (if i == 0 then 0 else k + i)
             && b == if j == |phrase| then |s| else k + j)
         || (i == j == 0 && !u.word(phrase[0]) && a == 0 && b == k)
         || (i == j == 1 && !u.word(phrase[|phrase| - 1]) && a == k + |phrase| && b == |s|)
  {
    var e := k + |phrase|;
    assert forall x {:trigger phrase[x]} | 0 <= x < |phrase| :: phrase[x] == s[k + x];
    assert !(0 < a < k) && !(e < a) && !(b < k) && !(e < b < |s|);
    if b == k {
      i, j := 0, 0;
      assert s[k] == phrase[0];
    } else if a == e {
      i, j := 1, 1;
      assert s[e - 1] == phrase[|phrase| - 1];
    } else {
      i, j := if a < k then 0 else a - k, if b > e then |phrase| else b - k;
      assert a != k && b != e;
    }
  }

  /** A fragile run of the phrase together with the padding it swallows. */
  lemma SwallowedRun(u: Alphabet, phrase: string, i: nat, j: nat, run: string)
    requires i < j && MaximalRun(u, phrase, i, j) && !Survives(u, phrase, i, j)
    requires i == 0 || j == |phrase|
    requires run == Kept(i == 0, Padding(u, phrase, phrase[0])) + phrase[i..j]
                    + Kept(j == |phrase|, Padding(u, phrase, phrase[|phrase| - 1]))
    ensures (!HasCjk(run) && |run| > |phrase|) || (|run| >= 2 && forall x | 0 <= x < |run| :: CjkChar(run[x]))
  {
    var core := phrase[i..j];
    assert i == 0 ==> core[0] == phrase[0];
    assert j == |phrase| ==> core[|core| - 1] == phrase[|phrase| - 1];
    if HasCjk(core) {
      assert |core| == 1 && CjkChar(core[0]);
    }
  }

  /** The shape of the tokens of the padded phrase. */
  lemma PaddedToken(u: Alphabet, phrase: string, t: string)
    requires u.Valid() && phrase != "" && Lower(u, phrase) == phrase && !Robust(u, phrase)
    requires t in RetrievalTokens(u, Padded(u, phrase))
    ensures |t| > |phrase| || (HasCjk(t) && |t| == 2)
  {
    var s := Padded(u, phrase);
    assert Lower(u, s) == s;
    TokenIffRun(u, s, t);
    var a: nat, b: nat :| MaximalRun(u, s, a, b) && t in RunTokens(u, s[a..b]);
    PaddedRunToken(u, phrase, a, b, t);
  }

  lemma FragileRun(u: Alphabet, phrase: string, i: nat, j: nat)
    requires i < j && MaximalRun(u, phrase, i, j) && !Robust(u, phrase)
    ensures !Survives(u, phrase, i, j)
    ensures 0 < i && j < |phrase| ==> RunTokens(u, phrase[i..j]) == []
  {
  }

  lemma OpenEdgePadding(u: Alphabet, phrase: string, edge: char)
    requires !u.word(edge)
    ensures var run := Padding(u, phrase, edge); |run| >= 2 && forall x | 0 <= x < |run| :: CjkChar(run[x])
  {
  }

  lemma PaddingIsWord(u: Alphabet, phrase: string, edge: char)
    requires u.Valid()
    ensures var run := Padding(u, phrase, edge); run != "" && forall x | 0 <= x < |run| :: u.word(run[x])
  {
  }

  lemma PaddedRunToken(u: Alphabet, phrase: string, a: nat, b: nat, t: string)
    requires u.Valid() && phrase != "" && !Robust(u, phrase)
    requires MaximalRun(u, Padded(u, phrase), a, b) && t in RunTokens(u, Padded(u, phrase)[a..b])
    ensures |t| > |phrase| || (HasCjk(t) && |t| == 2)
  {
    hide Padding, Robust, Survives, RunTokens, HasCjk, CjkChar;
    var left, right := Padding(u, phrase, phrase[0]), Padding(u, phrase, phrase[|phrase| - 1]);
    PaddingIsWord(u, phrase, phrase[0]);
    PaddingIsWord(u, phrase, phrase[|phrase| - 1]);
    var run := (left + phrase + right)[a..b];
    var i, j := PaddedRun(u, left, phrase, right, a, b);
    if i < j {
      FragileRun(u, phrase, i, j);
      assert "" + phrase[i..j] + "" == phrase[i..j];
      if i == 0 || j == |phrase| {
        SwallowedRun(u, phrase, i, j, run);
        TokenShape(u, run, |phrase|, t);
      }
    } else {
      OpenEdgePadding(u, phrase, phrase[if i == 0 then 0 else |phrase| - 1]);
      TokenShape(u, run, |phrase|, t);
    }
  }

  /** A phrase can be trusted to leave one of its own tokens in every text that contains it exactly
      when it is robust. */
  lemma RobustExactly(u: Alphabet, phrase: string)
    requires u.Valid() && Lower(u, phrase) == phrase
    ensures Robust(u, phrase) <==>
            forall text | Occurs(phrase, Lower(u, text)) ::
              TokenSet(u, phrase) * TokenSet(u, text) != {}
  {
    if Robust(u, phrase) {
      forall text | Occurs(phrase, Lower(u, text)) ensures TokenSet(u, phrase) * TokenSet(u, text) != {} {
        var t := RobustPhraseLeavesToken(u, phrase, text);
        assert t in TokenSet(u, phrase) * TokenSet(u, text);
      }
    } else {
      var text := FragileEscape(u, phrase);
    }
  }

  function Escape(u: Alphabet, phrase: string): string {
    if phrase == "" then "" else Padded(u, phrase)
  }

  /** A text that contains a fragile phrase and none of its tokens. */
  lemma FragileEscape(u: Alphabet, phrase: string) returns (text: string)
    requires u.Valid() && Lower(u, phrase) == phrase && !Robust(u, phrase)
    ensures text == Escape(u, phrase)
    ensures Occurs(phrase, Lower(u, text)) && TokenSet(u, phrase) * TokenSet(u, text) == {}
  {
    text := Escape(u, phrase);
    assert Lower(u, text) == text;
    if phrase == "" {
      assert OccursAt(phrase, text, 0);
    } else {
      OccursMiddle(Padding(u, phrase, phrase[0]), phrase, Padding(u, phrase, phrase[|phrase| - 1]));
      forall t | t in TokenSet(u, phrase) && t in TokenSet(u, text) ensures false {
        FragileToken(u, phrase, t);
        PaddedToken(u, phrase, t);
      }
    }
  }

  // ----- Pool eligibility against the exact score -----

  ghost predicate Eligible(u: Alphabet, query: string, text: string, expansions: seq<SynonymExpansion>) {
    CandidateTokens(u, LexicalQueryTerms(u, query), expansions) * TokenSet(u, text) != {}
  }

  ghost predicate NeverUnderSelects(u: Alphabet, query: string, text: string, expansions: seq<SynonymExpansion>, ageDays: Option<real>, identifiers: nat) {
    LexicalMatchScore(u, query, text, expansions, RecencyBoost(ageDays), identifiers) > 0.0
    ==> Eligible(u, query, text, expansions)
  }

  /** A text the scorer gives any score to is in the candidate pool, when every CJK alternative is
      robust. */
  lemma CandidatesNeverUnderSelect(u: Alphabet, query: string, text: string, expansions: seq<SynonymExpansion>, ageDays: Option<real>, identifiers: nat)
    requires u.Valid()
    requires forall e, alt | e in expansions && alt in e.alternatives :: ContainsCjk(alt) ==> Robust(u, alt)
    ensures NeverUnderSelects(u, query, text, expansions, ageDays, identifiers)
  {
    hide RetrievalTokens, LexicalQueryTerms, LexicalMatchScore, RecencyBoost, Robust, ContainsCjk, AlternativePresent;
    ScoreRange(u, query, text, expansions, ageDays, identifiers);
    if Hit(u, query, text, expansions) {
      var terms := LexicalQueryTerms(u, query);
      var t: string;
      if Matched(terms, RetrievalTokens(u, text)) != [] {
        t := Matched(terms, RetrievalTokens(u, text))[0];
        assert t in Matched(terms, RetrievalTokens(u, text));
        TokensAreLower(u, text, t);
      } else {
        var covered :| covered in SynonymCovered(u, terms, text, expansions);
        var e :| e in expansions && AlternativePresent(u, e, text);
        var alt;
        alt, t := PresentAlternativeLeavesToken(u, e, text);
        assert t in AlternativeTokens(u, e.alternatives);
      }
      assert t in CandidateTokens(u, terms, expansions) * TokenSet(u, text);
    }
  }

  lemma PresentAlternativeLeavesToken(u: Alphabet, e: SynonymExpansion, text: string) returns (alt: string, t: string)
    requires u.Valid() && AlternativePresent(u, e, text)
    requires forall alt | alt in e.alternatives :: ContainsCjk(alt) ==> Robust(u, alt)
    ensures alt in e.alternatives && t in RetrievalTokens(u, alt) && t in RetrievalTokens(u, text)
  {
    hide RetrievalTokens, Lower, PhrasePresent, Robust, ContainsCjk;
    alt :| alt in e.alternatives && PhrasePresent(u, alt, Lower(u, text), RetrievalTokens(u, text));
    t := PresentPhraseLeavesToken(u, alt, text);
  }

  lemma PresentPhraseLeavesToken(u: Alphabet, phrase: string, text: string) returns (t: string)
    requires u.Valid() && (ContainsCjk(phrase) ==> Robust(u, phrase))
    requires PhrasePresent(u, phrase, Lower(u, text), RetrievalTokens(u, text))
    ensures t in RetrievalTokens(u, phrase) && t in RetrievalTokens(u, text)
  {
    if ContainsCjk(phrase) {
      t := RobustPhraseLeavesToken(u, phrase, text);
    } else {
      t := RetrievalTokens(u, phrase)[0];
    }
  }

  /** For one CJK alternative the pool is complete over all queries, texts and source terms exactly
      when the alternative is robust; a one-character alternative, for one, is not. */
  lemma UnderSelectionExactly(u: Alphabet, alternative: string, ageDays: Option<real>, identifiers: nat)
    requires u.Valid() && Lower(u, alternative) == alternative && ContainsCjk(alternative)
    ensures Robust(u, alternative) <==>
            forall query, text, source ::
              NeverUnderSelects(u, query, text, [SynonymExpansion(source, [alternative])], ageDays, identifiers)
  {
    if Robust(u, alternative) {
      forall query, text, source
        ensures NeverUnderSelects(u, query, text, [SynonymExpansion(source, [alternative])], ageDays, identifiers)
      {
        CandidatesNeverUnderSelect(u, query, text, [SynonymExpansion(source, [alternative])], ageDays, identifiers);
      }
    } else {
      var query, text, source := UnderSelected(u, alternative, ageDays, identifiers);
    }
  }

  /** A one-character alternative is fragile. */
  lemma OneCharacterIsFragile(u: Alphabet, c: char)
    ensures !Robust(u, [c])
  {
  }

  function LongWord(n: nat): (w: string)
    ensures |w| == n && forall i | 0 <= i < n :: w[i] == 'q'
  {
    seq(n, _ => 'q')
  }

  lemma LongWordTokens(u: Alphabet, n: nat)
    requires u.Valid() && n >= 10
    ensures RetrievalTokens(u, LongWord(n)) == [LongWord(n)] && LexicalQueryTerms(u, LongWord(n)) == [LongWord(n)]
  {
    hide LongWord;
    var w := LongWord(n);
    assert Lower(u, w) == w;
    assert RunLength(u, w) == n && w[..n] == w && w[n..] == "";
    assert Runs(u, w) == [w];
    assert RunTokens(u, w) == [w];
    assert TokensOfRuns(u, [w]) == RunTokens(u, w) + TokensOfRuns(u, [w][1..]);
    assert RetrievalTokens(u, w) == [w];
    assert SignalTerms(u, [w]) == [w];
  }

  lemma TokenNoLonger(u: Alphabet, text: string, t: string)
    requires t in RetrievalTokens(u, text)
    ensures |t| <= |text|
  {
    TokenIffRun(u, text, t);
  }

  lemma LongWordIsNoToken(u: Alphabet, text: string)
    ensures LongWord(|text| + 10) !in RetrievalTokens(u, text)
  {
    hide RetrievalTokens, LongWord;
    if LongWord(|text| + 10) in RetrievalTokens(u, text) {
      TokenNoLonger(u, text, LongWord(|text| + 10));
    }
  }

  lemma PaddedHasTokens(u: Alphabet, phrase: string)
    requires u.Valid() && phrase != "" && Lower(u, phrase) == phrase
    ensures RetrievalTokens(u, Padded(u, phrase)) != []
  {
    var s := Padded(u, phrase);
    assert Lower(u, s) == s;
    var a, b := RunAround(u, s, 0, 1);
    var run := s[a..b];
    assert run[0] == s[0];
    if !CjkChar(s[0]) {
      var k := |phrase| + 6;
      assert forall x | 0 <= x <= k :: s[x] == 'q';
      assert !(b <= k);
    }
    var t := RunTokens(u, run)[0];
    assert t in RunTokens(u, run);
    TokenIffRun(u, s, t);
  }

  /** A text with tokens that contains a fragile alternative and none of its tokens. */
  lemma MissedText(u: Alphabet, alternative: string) returns (text: string)
    requires u.Valid() && Lower(u, alternative) == alternative && ContainsCjk(alternative) && !Robust(u, alternative)
    ensures RetrievalTokens(u, text) != [] && Occurs(alternative, Lower(u, text))
    ensures TokenSet(u, alternative) * TokenSet(u, text) == {}
  {
    EscapeIsPadded(u, alternative);
    hide *;
    text := FragileEscape(u, alternative);
    PaddedHasTokens(u, alternative);
  }

  /** A query and a text that the scorer matches through a fragile alternative and the pool drops. */
  lemma UnderSelected(u: Alphabet, alternative: string, ageDays: Option<real>, identifiers: nat)
    returns (query: string, text: string, source: seq<string>)
    requires u.Valid() && Lower(u, alternative) == alternative && ContainsCjk(alternative)
    requires !Robust(u, alternative)
    ensures !NeverUnderSelects(u, query, text, [SynonymExpansion(source, [alternative])], ageDays, identifiers)
  {
    hide *;
    text := MissedText(u, alternative);
    query := LongWord(|text| + 10);
    source := [query];
    LongWordTokens(u, |text| + 10);
    LongWordIsNoToken(u, text);
    HitThroughAlternative(u, query, text, alternative);
    MissedByPool(u, query, text, alternative, ageDays, identifiers);
  }

  lemma EscapeIsPadded(u: Alphabet, phrase: string)
    requires ContainsCjk(phrase)
    ensures phrase != "" && Escape(u, phrase) == Padded(u, phrase)
  {
  }

  lemma MissedByPool(u: Alphabet, query: string, text: string, alternative: string, ageDays: Option<real>, identifiers: nat)
    requires LexicalQueryTerms(u, query) == [query] && query !in RetrievalTokens(u, text)
    requires Hit(u, query, text, [SynonymExpansion([query], [alternative])])
    requires TokenSet(u, alternative) * TokenSet(u, text) == {}
    ensures !NeverUnderSelects(u, query, text, [SynonymExpansion([query], [alternative])], ageDays, identifiers)
  {
    hide RetrievalTokens, LexicalQueryTerms, Hit, RecencyBoost, LexicalMatchScore;
    var e := SynonymExpansion([query], [alternative]);
    ScoreRange(u, query, text, [SynonymExpansion([query], [alternative])], ageDays, identifiers);
    forall t | t in CandidateTokens(u, [query], [e]) ensures t !in TokenSet(u, text) {
      if t != query {
        var x: SynonymExpansion :| x in [e] && t in AlternativeTokens(u, x.alternatives);
        assert t in AlternativeTokens(u, [alternative]);
        assert t in RetrievalTokens(u, alternative);
        assert t !in TokenSet(u, alternative) * TokenSet(u, text);
      } else {
        assert query !in RetrievalTokens(u, text);
      }
    }
  }

  lemma HitThroughAlternative(u: Alphabet, query: string, text: string, alternative: string)
    requires LexicalQueryTerms(u, query) == [query] && query !in RetrievalTokens(u, text)
    requires RetrievalTokens(u, text) != []
    requires ContainsCjk(alternative) && Occurs(alternative, Lower(u, text))
    ensures Hit(u, query, text, [SynonymExpansion([query], [alternative])])
  {
    hide RetrievalTokens, LexicalQueryTerms, ContainsCjk, Occurs;
    var e := SynonymExpansion([query], [alternative]);
    assert alternative in e.alternatives && PhrasePresent(u, alternative, Lower(u, text), RetrievalTokens(u, text));
    assert AlternativePresent(u, e, text);
    assert query in [query] && e in [e] && query in e.sourceTerms;
    assert query in SynonymCovered(u, [query], text, [e]);
  }

  // ----- The hashed pool refines the token pool, for every hash -----

  function Hashed(h: string -> int, tokens: set<string>): set<int> {
    set t | t in tokens :: h(t)
  }

  /** The stored hashes of a text; a token-less text with visible characters gets the marker 0. */
  function LexicalTokenHashes(u: Alphabet, h: string -> int, text: string): set<int> {
    var hashes := Hashed(h, TokenSet(u, text));
    if hashes == {} && exists i | 0 <= i < |text| :: !u.space(text[i]) then {0} else hashes
  }

  ghost predicate HashedEligible(u: Alphabet, h: string -> int, query: string, text: string, expansions: seq<SynonymExpansion>) {
    Hashed(h, CandidateTokens(u, LexicalQueryTerms(u, query), expansions)) * LexicalTokenHashes(u, h, text) != {}
  }

  /** Hash eligibility never drops a row that token eligibility keeps. */
  lemma HashedPoolRefines(u: Alphabet, h: string -> int, query: string, text: string, expansions: seq<SynonymExpansion>)
    requires Eligible(u, query, text, expansions)
    ensures HashedEligible(u, h, query, text, expansions)
  {
    hide CandidateTokens, LexicalQueryTerms, TokenSet;
    var candidates := CandidateTokens(u, LexicalQueryTerms(u, query), expansions);
    var tokens := TokenSet(u, text);
    var t :| t in candidates * tokens;
    assert h(t) in Hashed(h, tokens);
    assert h(t) in Hashed(h, candidates);
    assert LexicalTokenHashes(u, h, text) == Hashed(h, tokens);
    assert h(t) in Hashed(h, candidates) * LexicalTokenHashes(u, h, text);
  }

  /** What the SQL pool needs: a row the scorer gives any score to has a stored hash among the
      candidate hashes, when every CJK alternative is robust. */
  lemma ScoredRowsAreHashEligible(u: Alphabet, h: string -> int, query: string, text: string, expansions: seq<SynonymExpansion>, ageDays: Option<real>, identifiers: nat)
    requires u.Valid()
    requires forall e, alt | e in expansions && alt in e.alternatives :: ContainsCjk(alt) ==> Robust(u, alt)
    requires LexicalMatchScore(u, query, text, expansions, RecencyBoost(ageDays), identifiers) > 0.0
    ensures HashedEligible(u, h, query, text, expansions)
  {
    hide Robust, ContainsCjk, LexicalMatchScore, RecencyBoost, Eligible, HashedEligible;
    CandidatesNeverUnderSelect(u, query, text, expansions, ageDays, identifiers);
    HashedPoolRefines(u, h, query, text, expansions);
  }

  function QueryTerms(u: Alphabet, query: string): set<string> {
    set t | t in LexicalQueryTerms(u, query)
  }

  /** The pool-ordering key on real tokens, and the one computed on the stored hashes. */
  function DirectMatchCount(u: Alphabet, query: string, text: string): nat {
    |QueryTerms(u, query) * TokenSet(u, text)|
  }

  function HashedMatchCount(u: Alphabet, h: string -> int, query: string, text: string): nat {
    |Hashed(h, QueryTerms(u, query)) * LexicalTokenHashes(u, h, text)|
  }

  ghost predicate InjectiveOn(h: string -> int, s: set<string>) {
    forall a, b | a in s && b in s && h(a) == h(b) :: a == b
  }

  lemma {:induction false} HashedSize(h: string -> int, s: set<string>)
    ensures |Hashed(h, s)| <= |s|
    ensures |Hashed(h, s)| == |s| <==> InjectiveOn(h, s)
  {
    if s != {} {
      var x :| x in s;
      var rest := s - {x};
      HashedSize(h, rest);
      HashedStep(h, rest, x);
      assert rest + {x} == s;
    }
  }

  lemma HashedStep(h: string -> int, rest: set<string>, x: string)
    requires x !in rest
    ensures |Hashed(h, rest + {x})| == |Hashed(h, rest)| + if h(x) in Hashed(h, rest) then 0 else 1
    ensures InjectiveOn(h, rest + {x}) <==> InjectiveOn(h, rest) && h(x) !in Hashed(h, rest)
  {
    assert Hashed(h, rest + {x}) == Hashed(h, rest) + {h(x)};
    if h(x) in Hashed(h, rest) {
      assert Hashed(h, rest) + {h(x)} == Hashed(h, rest);
    }
  }

  /** Every query term is a token of the query itself. */
  lemma TermsAreTokens(u: Alphabet, query: string)
    requires u.Valid()
    ensures QueryTerms(u, query) <= TokenSet(u, query)
  {
    forall t | t in QueryTerms(u, query) ensures t in TokenSet(u, query) {
      var k :| k in RetrievalTokens(u, query) && IsSignal(u, k) && Lower(u, k) == t;
      TokensAreLower(u, query, k);
    }
  }

  /** Hashing never merges the shared tokens of injectively hashed terms. */
  lemma SharedHashes(h: string -> int, terms: set<string>, tokens: set<string>)
    requires InjectiveOn(h, terms)
    ensures |Hashed(h, terms) * Hashed(h, tokens)| >= |terms * tokens|
  {
    HashedSize(h, terms * tokens);
    SubsetSize(Hashed(h, terms * tokens), Hashed(h, terms) * Hashed(h, tokens));
  }

  /** For a query, the count over the stored column is never below the direct one, in any text,
      exactly when no two of its terms collide; the query itself, stored as a text, shows a collision. */
  lemma HashedCountExactly(u: Alphabet, h: string -> int, query: string)
    requires u.Valid()
    ensures InjectiveOn(h, QueryTerms(u, query)) <==>
            forall text :: HashedMatchCount(u, h, query, text) >= DirectMatchCount(u, query, text)
  {
    hide QueryTerms, TokenSet;
    var terms := QueryTerms(u, query);
    if InjectiveOn(h, terms) {
      forall text ensures HashedMatchCount(u, h, query, text) >= DirectMatchCount(u, query, text) {
        SharedHashes(h, terms, TokenSet(u, text));
        StoredHashesExtend(u, h, text);
        SubsetSize(Hashed(h, terms) * Hashed(h, TokenSet(u, text)), Hashed(h, terms) * LexicalTokenHashes(u, h, text));
      }
    } else {
      CollisionUnderCounts(u, h, query);
    }
  }

  lemma StoredHashesExtend(u: Alphabet, h: string -> int, text: string)
    ensures Hashed(h, TokenSet(u, text)) <= LexicalTokenHashes(u, h, text)
    ensures TokenSet(u, text) != {} ==> Hashed(h, TokenSet(u, text)) == LexicalTokenHashes(u, h, text) != {}
  {
    hide TokenSet;
    if TokenSet(u, text) != {} {
      var t :| t in TokenSet(u, text);
      assert h(t) in Hashed(h, TokenSet(u, text));
    }
  }

  /** A row whose text is the query misses at least one of two colliding terms. */
  lemma CollisionUnderCounts(u: Alphabet, h: string -> int, query: string)
    requires u.Valid() && !InjectiveOn(h, QueryTerms(u, query))
    ensures HashedMatchCount(u, h, query, query) < DirectMatchCount(u, query, query)
  {
    hide QueryTerms, TokenSet;
    var terms, tokens := QueryTerms(u, query), TokenSet(u, query);
    TermsAreTokens(u, query);
    HashedSize(h, terms);
    assert terms * tokens == terms;
    SubsetSize(Hashed(h, terms) * LexicalTokenHashes(u, h, query), Hashed(h, terms));
  }

  /** Without a collision among query terms and text tokens, the two counts agree exactly when the
      stored marker of a token-less visible text is not taken for the hash of a query term. */
  lemma HashedCountAgreesExactly(u: Alphabet, h: string -> int, query: string, text: string)
    requires InjectiveOn(h, QueryTerms(u, query) + TokenSet(u, text))
    ensures HashedMatchCount(u, h, query, text) == DirectMatchCount(u, query, text) <==>
            || TokenSet(u, text) != {}
            || (forall i | 0 <= i < |text| :: u.space(text[i]))
            || 0 !in Hashed(h, QueryTerms(u, query))
  {
    hide QueryTerms, TokenSet;
    var terms, tokens := QueryTerms(u, query), TokenSet(u, text);
    StoredHashesExtend(u, h, text);
    if tokens != {} {
      HashedIntersection(h, terms, tokens);
      HashedSize(h, terms * tokens);
    } else {
      NothingToHash(h);
      assert terms * tokens == {};
      assert Hashed(h, terms) * {0} == if 0 in Hashed(h, terms) then {0} else {};
      assert Hashed(h, terms) * {} == {};
    }
  }

  lemma HashedIntersection(h: string -> int, terms: set<string>, tokens: set<string>)
    requires InjectiveOn(h, terms + tokens)
    ensures Hashed(h, terms) * Hashed(h, tokens) == Hashed(h, terms * tokens)
    ensures InjectiveOn(h, terms * tokens)
  {
    forall x | x in Hashed(h, terms) * Hashed(h, tokens) ensures x in Hashed(h, terms * tokens) {
      var a :| a in terms && h(a) == x;
      var b :| b in tokens && h(b) == x;
      assert a == b;
    }
  }

  /** The failing rows: one visible character that is no word character, such as "-", and a query term
      whose hash is the marker. The row is counted as a match that it is not. */
  lemma MarkerIsCounted(u: Alphabet, h: string -> int, query: string, c: char)
    requires u.Valid() && !u.space(c) && !u.word(u.lower(c))
    requires InjectiveOn(h, QueryTerms(u, query)) && 0 in Hashed(h, QueryTerms(u, query))
    ensures InjectiveOn(h, QueryTerms(u, query) + TokenSet(u, [c]))
    ensures DirectMatchCount(u, query, [c]) == 0 && HashedMatchCount(u, h, query, [c]) == 1
  {
    hide QueryTerms, RetrievalTokens;
    NoWordNoRun(u, Lower(u, [c]));
    forall t ensures t !in RetrievalTokens(u, [c]) {
      TokenIffRun(u, [c], t);
    }
    assert TokenSet(u, [c]) == {};
    NothingToHash(h);
    var terms := QueryTerms(u, query);
    assert terms + {} == terms && terms * {} == {};
    assert !u.space([c][0]);
    assert Hashed(h, terms) * {0} == {0};
  }

  /** The stored column is empty exactly for a text without a visible character. */
  lemma StoredEmptyIffBlank(u: Alphabet, h: string -> int, text: string)
    requires u.Valid()
    ensures LexicalTokenHashes(u, h, text) == {} <==> forall i | 0 <= i < |text| :: u.space(text[i])
  {
    hide RetrievalTokens, Hashed;
    if forall i | 0 <= i < |text| :: u.space(text[i]) {
      NoWordNoRun(u, Lower(u, text));
      forall t ensures t !in RetrievalTokens(u, text) {
        TokenIffRun(u, text, t);
      }
      assert TokenSet(u, text) == {};
      NothingToHash(h);
    } 
  }

  lemma NoWordNoRun(u: Alphabet, s: string)
    requires forall i | 0 <= i < |s| :: !u.word(s[i])
    ensures forall i: nat, j: nat :: !MaximalRun(u, s, i, j)
  {
    forall i: nat, j: nat ensures !MaximalRun(u, s, i, j) {
      assert i < |s| ==> !u.word(s[i]);
    }
  }

  lemma NothingToHash(h: string -> int)
    ensures Hashed(h, {}) == {}
  {
  }

  // ----- The pool, spelled out -----

  /** A row is in the token pool exactly when one of its tokens is a query term or a token of some
      alternative. */
  lemma EligibleExactly(u: Alphabet, query: string, text: string, expansions: seq<SynonymExpansion>)
    requires u.Valid()
    ensures Eligible(u, query, text, expansions) <==>
            exists t | t in RetrievalTokens(u, text) ::
              || t in LexicalQueryTerms(u, query)
              || exists e, alt | e in expansions && alt in e.alternatives :: t in RetrievalTokens(u, alt)
  {
    hide RetrievalTokens, LexicalQueryTerms;
    var candidates := CandidateTokens(u, LexicalQueryTerms(u, query), expansions);
    forall t | t in RetrievalTokens(u, text)
      ensures t in candidates <==>
              || t in LexicalQueryTerms(u, query)
              || exists e, alt | e in expansions && alt in e.alternatives :: t in RetrievalTokens(u, alt)
    {
      TokensAreLower(u, text, t);
      CandidateExactly(u, LexicalQueryTerms(u, query), expansions, t);
    }
    hide CandidateTokens;
    assert Eligible(u, query, text, expansions) <==> exists t :: t in candidates * TokenSet(u, text);
    assert forall t :: t in candidates * TokenSet(u, text) <==> t in candidates && t in RetrievalTokens(u, text);
  }

  lemma CandidateExactly(u: Alphabet, terms: seq<string>, expansions: seq<SynonymExpansion>, t: string)
    requires t != ""
    ensures t in CandidateTokens(u, terms, expansions) <==>
            t in terms || exists e, alt | e in expansions && alt in e.alternatives :: t in RetrievalTokens(u, alt)
  {
    hide RetrievalTokens;
    if e, alt :| e in expansions && alt in e.alternatives && t in RetrievalTokens(u, alt) {
      assert t in AlternativeTokens(u, e.alternatives);
    }
  }

  /** A stored hash of a text: the hash of one of its tokens, or 0 for a visible text without tokens. */
  ghost predicate Stored(u: Alphabet, h: string -> int, text: string, x: int) {
    || (exists t | t in RetrievalTokens(u, text) :: h(t) == x)
    || (x == 0 && RetrievalTokens(u, text) == [] && exists c :: c in text && !u.space(c))
  }

  lemma StoredExactly(u: Alphabet, h: string -> int, text: string, x: int)
    ensures x in LexicalTokenHashes(u, h, text) <==> Stored(u, h, text, x)
  {
    hide RetrievalTokens;
    var tokens := RetrievalTokens(u, text);
    assert Hashed(h, TokenSet(u, text)) == {} <==> tokens == [] by {
      if tokens != [] { assert tokens[0] in TokenSet(u, text) && h(tokens[0]) in Hashed(h, TokenSet(u, text)); }
    }
    if i :| 0 <= i < |text| && !u.space(text[i]) { assert text[i] in text; }
  }

  /** A row is in the hash pool exactly when some candidate token's hash is stored for it; and the two
      ordering keys count the query terms among its tokens and their hashes among the stored ones. */
  lemma HashPoolExactly(u: Alphabet, h: string -> int, query: string, text: string, expansions: seq<SynonymExpansion>)
    ensures HashedEligible(u, h, query, text, expansions) <==>
            exists t | t in CandidateTokens(u, LexicalQueryTerms(u, query), expansions) :: Stored(u, h, text, h(t))
    ensures DirectMatchCount(u, query, text) == |set t | t in LexicalQueryTerms(u, query) && t in RetrievalTokens(u, text)|
    ensures HashedMatchCount(u, h, query, text) == |set t | t in LexicalQueryTerms(u, query) && Stored(u, h, text, h(t)) :: h(t)|
  {
    hide RetrievalTokens, LexicalQueryTerms, CandidateTokens, LexicalTokenHashes, Stored;
    forall x ensures x in LexicalTokenHashes(u, h, text) <==> Stored(u, h, text, x) { StoredExactly(u, h, text, x); }
    var candidates := CandidateTokens(u, LexicalQueryTerms(u, query), expansions);
    if t :| t in candidates && Stored(u, h, text, h(t)) {
      assert h(t) in Hashed(h, candidates) * LexicalTokenHashes(u, h, text);
    }
    assert QueryTerms(u, query) * TokenSet(u, text) == set t | t in LexicalQueryTerms(u, query) && t in RetrievalTokens(u, text);
    assert Hashed(h, QueryTerms(u, query)) * LexicalTokenHashes(u, h, text)
        == set t | t in LexicalQueryTerms(u, query) && Stored(u, h, text, h(t)) :: h(t);
  }
}
