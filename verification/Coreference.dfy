/** Referential follow-ups: detection, residual topic, the stand-alone rewrite and the resolution
    against client-supplied history (src/raku_rag/core/coreference.py). */
module Coreference {
  import opened Common
  import opened Text
  import Identifiers
  import Lexical

  /** The query planner as far as it is used here: the alphabet, the matches of the identifier regex
      in a text, and Python's `sorted` on a set of strings. */
  datatype Planner = Planner(u: Alphabet, found: string -> seq<string>, sorted: set<string> -> seq<string>) {
    ghost predicate Valid() {
      && u.Valid() && u.lower('_') == '_'
      && forall s: set<string>, t: string :: t in sorted(s) <==> t in s
    }

    function NamedIdentifiers(text: string): seq<string> {
      sorted(Identifiers.QueryIdentifiers(u, found(text)))
    }

    function NamedTerms(text: string): seq<string> {
      sorted(set t | t in Lexical.LexicalQueryTerms(u, text))
    }
  }

  // ----- Detection -----

  function AmbiguousReferents(): seq<string> {
    ["これ", "それ", "あれ", "この件", "その件"]
  }

  function ReferentialMarkers(): seq<string> {
    AmbiguousReferents()
    + ["その", "この", "あの", "上記", "同じ", "先程", "先ほど", "前述", "そちら", "こちら"]
  }

  function GenericFollowupGlue(): seq<string> {
    ["もう少し", "詳しく", "教えて", "ください", "下さい", "について", "お願いします", "でしょうか", "ですか",
     "説明して", "続けて", "もっと", "他には", "ほかには"]
  }

  const MAX_REFERENTIAL_FOLLOWUP_LENGTH := 40
  const MAX_HISTORY_TURNS := 5

  /** `str.split()`: the maximal runs of non-space characters. */
  function Words(u: Alphabet, s: string): seq<string>
    decreases |s|
  {
    if s == "" then []
    else if u.space(s[0]) then Words(u, s[1..])
    else var n := WordLength(u, s); [s[..n]] + Words(u, s[n..])
  }

  function WordLength(u: Alphabet, s: string): (n: nat)
    ensures n <= |s| && (s != "" && !u.space(s[0]) ==> n > 0)
  {
    if s == "" || u.space(s[0]) then 0 else 1 + WordLength(u, s[1..])
  }

  function Normalize(u: Alphabet, s: string): string {
    JoinSpaced(Words(u, Strip(u.space, s)))
  }

  /** `previousQuestion` is "" when there is none. */
  predicate IsReferentialFollowup(p: Planner, query: string, previousQuestion: string) {
    var normalized := Normalize(p.u, query);
    && previousQuestion != ""
    && normalized != "" && |normalized| <= MAX_REFERENTIAL_FOLLOWUP_LENGTH
    && (exists marker | marker in ReferentialMarkers() :: Occurs(marker, normalized))
    && p.NamedIdentifiers(query) == []
  }

  predicate OneWord(u: Alphabet, w: string) {
    w != "" && forall i | 0 <= i < |w| :: !u.space(w[i])
  }

  lemma {:induction false} WordLengthOf(u: Alphabet, w: string, rest: string)
    requires (forall i | 0 <= i < |w| :: !u.space(w[i])) && (rest == "" || u.space(rest[0]))
    ensures WordLength(u, w + rest) == |w|
  {
    if w == "" {
      assert w + rest == rest;
    } else {
      assert (w + rest)[1..] == w[1..] + rest;
      WordLengthOf(u, w[1..], rest);
    }
  }

  lemma WordsStep(u: Alphabet, w: string, rest: string)
    requires OneWord(u, w) && (rest == "" || u.space(rest[0]))
    ensures Words(u, w + rest) == [w] + Words(u, rest)
    ensures rest != "" ==> Words(u, rest) == Words(u, rest[1..])
  {
    var s := w + rest;
    WordLengthOf(u, w, rest);
    assert s[0] == w[0] && s[..|w|] == w && s[|w|..] == rest;
  }

  /** Splitting inverts joining words by single spaces. */
  lemma {:induction false} WordsOfJoin(u: Alphabet, words: seq<string>)
    requires u.space(' ') && forall w | w in words :: OneWord(u, w)
    ensures Words(u, JoinSpaced(words)) == words
  {
    hide Words, WordLength, OneWord;
    if words == [] {
      NoWords(u);
    } else {
      assert words[0] in words;
      var w, rest := words[0], JoinSpaced(words[1..]);
      if |words| == 1 {
        WordsStep(u, w, "");
        NoWords(u);
        assert w + "" == w && [w] + [] == words;
      } else {
        WordsStep(u, w, " " + rest);
        assert w + (" " + rest) == w + " " + rest && (" " + rest)[1..] == rest;
        WordsOfJoin(u, words[1..]);
        assert [w] + words[1..] == words;
      }
    }
  }

  lemma NoWords(u: Alphabet)
    ensures Words(u, "") == []
  {
  }

  lemma {:induction false} JoinEnds(u: Alphabet, words: seq<string>)
    requires words != [] && forall w | w in words :: OneWord(u, w)
    ensures var s := JoinSpaced(words); s != "" && !u.space(s[0]) && !u.space(s[|s| - 1])
  {
    assert words[0] in words;
    if |words| > 1 { JoinEnds(u, words[1..]); }
  }

  /** A short text of single-spaced words that starts with a marker and names no identifier is a
      referential follow-up. */
  lemma MarkerIsReferential(p: Planner, marker: string, words: seq<string>, question: string)
    requires p.Valid() && marker in ReferentialMarkers() && question != ""
    requires words != [] && words[0] == marker && forall w | w in words :: OneWord(p.u, w)
    requires |JoinSpaced(words)| <= MAX_REFERENTIAL_FOLLOWUP_LENGTH && p.NamedIdentifiers(JoinSpaced(words)) == []
    ensures IsReferentialFollowup(p, JoinSpaced(words), question)
  {
    hide ReferentialMarkers, Words, OneWord;
    var s := JoinSpaced(words);
    JoinEnds(p.u, words);
    assert Strip(p.u.space, s) == s;
    WordsOfJoin(p.u, words);
    assert s[..|marker|] == marker;
    assert OccursAt(marker, s, 0);
  }

  // ----- The stand-alone rewrite -----

  /** What the previous turn named: its identifiers, else its cited documents, else its first terms. */
  function PreviousTurnSignal(p: Planner, previousQuestion: string, previousDocumentIds: seq<string>): seq<string> {
    if p.NamedIdentifiers(previousQuestion) != [] then p.NamedIdentifiers(previousQuestion)
    else if previousDocumentIds != [] then previousDocumentIds
    else
      var terms := p.NamedTerms(previousQuestion);
      if |terms| <= 4 then terms else terms[..4]
  }

  function DropSeparators(s: string): string {
    if s == "" then ""
    else (if s[0] == '-' || s[0] == '_' then "" else [s[0]]) + DropSeparators(s[1..])
  }

  /** The query already spells the term, literally or up to separators. */
  predicate Spelled(u: Alphabet, term: string, query: string) {
    Occurs(term, Lower(u, query)) || Occurs(DropSeparators(term), DropSeparators(Lower(u, query)))
  }

  function Carry(u: Alphabet, query: string, signal: seq<string>): (c: seq<string>)
    ensures forall t :: t in c <==> t in signal && !Spelled(u, t, query)
  {
    if signal == [] then []
    else
      var rest := Carry(u, query, signal[1..]);
      assert forall t :: t in signal <==> t == signal[0] || t in signal[1..];
      (if Spelled(u, signal[0], query) then [] else [signal[0]]) + rest
  }

  function WithSignal(u: Alphabet, query: string, signal: seq<string>): string {
    if Carry(u, query, signal) == [] then query else query + " " + JoinSpaced(Carry(u, query, signal))
  }

  function StandaloneQuery(p: Planner, query: string, previousQuestion: string, previousDocumentIds: seq<string>): string {
    WithSignal(p.u, query, PreviousTurnSignal(p, previousQuestion, previousDocumentIds))
  }

  predicate Folded(u: Alphabet, s: string) {
    Lower(u, s) == s
  }

  lemma {:induction false} DropSeparatorsConcat(a: string, b: string)
    ensures DropSeparators(a + b) == DropSeparators(a) + DropSeparators(b)
  {
    if a == "" {
      assert a + b == b;
    } else {
      assert (a + b)[1..] == a[1..] + b && (a + b)[0] == a[0];
      DropSeparatorsConcat(a[1..], b);
      var head := if a[0] == '-' || a[0] == '_' then "" else [a[0]];
      assert head + (DropSeparators(a[1..]) + DropSeparators(b)) == (head + DropSeparators(a[1..])) + DropSeparators(b);
    }
  }

  /** What a query spells, every extension of it spells. */
  lemma SpelledExtends(u: Alphabet, term: string, query: string, rest: string)
    requires Spelled(u, term, query)
    ensures Spelled(u, term, query + rest)
  {
    hide Lower, DropSeparators;
    LowerConcat(u, query, rest);
    var low, more := Lower(u, query), Lower(u, rest);
    DropSeparatorsConcat(low, more);
    if Occurs(term, low) {
      OccursExtends(term, low, "", more);
      assert "" + low + more == low + more;
    } else {
      var compact, moreCompact := DropSeparators(low), DropSeparators(more);
      OccursExtends(DropSeparators(term), compact, "", moreCompact);
      assert "" + compact + moreCompact == compact + moreCompact;
    }
  }

  lemma {:induction false} JoinedTermOccurs(words: seq<string>, k: nat)
    requires k < |words|
    ensures Occurs(words[k], JoinSpaced(words))
  {
    hide Occurs;
    if |words| == 1 {
      OccursMiddle("", words[0], "");
      assert "" + words[0] + "" == words[0];
    } else if k == 0 {
      OccursMiddle("", words[0], " " + JoinSpaced(words[1..]));
      assert "" + words[0] + (" " + JoinSpaced(words[1..])) == JoinSpaced(words);
    } else {
      JoinedTermOccurs(words[1..], k - 1);
      var tail := JoinSpaced(words[1..]);
      OccursExtends(words[k], tail, words[0] + " ", "");
      assert words[0] + " " + tail + "" == JoinSpaced(words);
    }
  }

  lemma FoldedOccurs(u: Alphabet, t: string, s: string)
    requires Folded(u, t) && Occurs(t, s)
    ensures Occurs(t, Lower(u, s))
  {
    var at: nat :| at <= |s| && OccursAt(t, s, at);
    assert Lower(u, s)[at..at + |t|] == Lower(u, s[at..at + |t|]);
    assert OccursAt(t, Lower(u, s), at);
  }

  /** A carried term that is case-folded is spelled by the rewritten query. */
  lemma CarriedIsSpelled(u: Alphabet, query: string, signal: seq<string>, t: string)
    requires t in Carry(u, query, signal) && Folded(u, t)
    ensures Spelled(u, t, WithSignal(u, query, signal))
  {
    hide Lower, DropSeparators, Occurs, Carry;
    var carry := Carry(u, query, signal);
    var k :| 0 <= k < |carry| && carry[k] == t;
    JoinedTermOccurs(carry, k);
    OccursExtends(t, JoinSpaced(carry), query + " ", "");
    assert query + " " + JoinSpaced(carry) + "" == WithSignal(u, query, signal);
    FoldedOccurs(u, t, WithSignal(u, query, signal));
  }

  lemma {:induction false} DropSeparatorsKeeps(s: string, i: nat)
    requires i < |s| && s[i] != '-' && s[i] != '_'
    ensures s[i] in DropSeparators(s)
  {
    if i > 0 { DropSeparatorsKeeps(s[1..], i - 1); }
  }

  lemma {:induction false} DropSeparatorsFrom(s: string, c: char)
    requires c in DropSeparators(s)
    ensures c in s
  {
    if s != "" && c != s[0] { DropSeparatorsFrom(s[1..], c); }
  }

  lemma OccursContents(sub: string, s: string)
    requires Occurs(sub, s)
    ensures forall c | c in sub :: c in s
  {
    var at: nat :| at <= |s| && OccursAt(sub, s, at);
    forall c | c in sub ensures c in s {
      var j :| 0 <= j < |sub| && sub[j] == c;
      assert s[at..at + |sub|][j] == s[at + j];
    }
  }

  /** No query ever spells a term that is not case-folded. */
  lemma UnfoldedNeverSpelled(p: Planner, t: string, query: string)
    requires p.Valid() && !Folded(p.u, t)
    ensures !Spelled(p.u, t, query)
  {
    hide DropSeparators;
    var u := p.u;
    var low := Lower(u, query);
    var i :| 0 <= i < |t| && u.lower(t[i]) != t[i];
    assert t[i] !in low;
    if Occurs(t, low) {
      OccursContents(t, low);
    }
    if Occurs(DropSeparators(t), DropSeparators(low)) {
      OccursContents(DropSeparators(t), DropSeparators(low));
      DropSeparatorsKeeps(t, i);
      DropSeparatorsFrom(low, t[i]);
    }
  }

  /** Afterwards a signal term is spelled exactly when it is case-folded. */
  lemma SpelledAfterwardsExactly(p: Planner, query: string, signal: seq<string>, t: string)
    requires p.Valid() && t in signal
    ensures Spelled(p.u, t, WithSignal(p.u, query, signal)) <==> Folded(p.u, t)
  {
    hide Spelled, Folded;
    if !Folded(p.u, t) {
      UnfoldedNeverSpelled(p, t, WithSignal(p.u, query, signal));
    } else if Spelled(p.u, t, query) {
      if Carry(p.u, query, signal) != [] {
        SpelledExtends(p.u, t, query, " " + JoinSpaced(Carry(p.u, query, signal)));
        assert query + (" " + JoinSpaced(Carry(p.u, query, signal))) == WithSignal(p.u, query, signal);
      }
    } else {
      CarriedIsSpelled(p.u, query, signal, t);
    }
  }

  /** Rewriting a query twice is rewriting it once, exactly when every signal term is case-folded;
      a term that is not would be appended again by every rewrite. */
  lemma IdempotentExactly(p: Planner, query: string, signal: seq<string>)
    requires p.Valid()
    ensures var once := WithSignal(p.u, query, signal);
      WithSignal(p.u, once, signal) == once <==> forall t | t in signal :: Folded(p.u, t)
  {
    hide Spelled, Folded;
    var once := WithSignal(p.u, query, signal);
    forall t | t in signal
      ensures t in Carry(p.u, once, signal) <==> !Folded(p.u, t)
    {
      SpelledAfterwardsExactly(p, query, signal, t);
    }
    UnchangedExactly(p.u, once, signal);
  }

  /** The rewrite leaves a query alone exactly when it spells every signal term, and otherwise
      extends it. */
  lemma UnchangedExactly(u: Alphabet, query: string, signal: seq<string>)
    ensures query <= WithSignal(u, query, signal)
    ensures WithSignal(u, query, signal) == query <==> forall t | t in signal :: Spelled(u, t, query)
  {
    hide Spelled;
    var carry := Carry(u, query, signal);
    if carry == [] {
      assert forall t | t in signal :: t !in carry;
    } else {
      assert carry[0] in carry;
      assert |WithSignal(u, query, signal)| > |query|;
    }
  }

  /** For a fixed previous turn the rewrite is idempotent on every query exactly when its question
      names an identifier or every document it cites has a case-folded id. */
  lemma StandaloneIdempotentExactly(p: Planner, query: string, previousQuestion: string, previousDocumentIds: seq<string>)
    requires p.Valid()
    ensures var once := StandaloneQuery(p, query, previousQuestion, previousDocumentIds);
      StandaloneQuery(p, once, previousQuestion, previousDocumentIds) == once <==>
      p.NamedIdentifiers(previousQuestion) != [] || forall d | d in previousDocumentIds :: Folded(p.u, d)
  {
    hide WithSignal, Folded;
    var signal := PreviousTurnSignal(p, previousQuestion, previousDocumentIds);
    IdempotentExactly(p, query, signal);
    PlannedTermsAreFolded(p, previousQuestion);
  }

  lemma PlannedTermsAreFolded(p: Planner, text: string)
    requires p.Valid()
    ensures forall t | t in p.NamedIdentifiers(text) :: Folded(p.u, t)
    ensures forall t | t in p.NamedTerms(text) :: Folded(p.u, t)
  {
    Identifiers.QueryIdentifiersClosed(p.u, p.found(text));
    forall t | t in p.NamedTerms(text) ensures Folded(p.u, t) {
      assert t in Lexical.SignalTerms(p.u, RetrievalTokens(p.u, text));
      var k :| k in RetrievalTokens(p.u, text) && Lower(p.u, k) == t;
      assert Lower(p.u, t) == t;
    }
  }

  /** An upper-case document id is appended once more by every further rewrite. */
  lemma UppercaseIdIsAppendedAgain(p: Planner, query: string, previousQuestion: string, id: string)
    requires p.Valid() && p.NamedIdentifiers(previousQuestion) == [] && !Folded(p.u, id)
    ensures StandaloneQuery(p, query, previousQuestion, [id]) == query + " " + id
    ensures StandaloneQuery(p, query + " " + id, previousQuestion, [id]) == query + " " + id + " " + id
  {
    RewriteWithOne(p, query, id);
    RewriteWithOne(p, query + " " + id, id);
    hide WithSignal;
  }

  lemma RewriteWithOne(p: Planner, query: string, id: string)
    requires p.Valid() && !Folded(p.u, id)
    ensures WithSignal(p.u, query, [id]) == query + " " + id
  {
    UnfoldedNeverSpelled(p, id, query);
    hide Spelled, Folded;
    assert Carry(p.u, query, [id]) == [id];
  }
}
