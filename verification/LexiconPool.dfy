/** The candidate pool under the expansions a lexicon gives (src/raku_rag/core/hybrid_retrieval.py). */
module LexiconPool {
  import opened Common
  import opened Text
  import opened Lexical
  import opened Synonyms
  import opened Candidates
  import opened SynonymRanking

  /** The pool is complete for an entry: over all queries and texts it drops nothing the scorer scores. */
  ghost predicate Complete(u: Alphabet, g: Group, ageDays: Option<real>, identifiers: nat) {
    forall query, text :: NeverUnderSelects(u, query, text, SynonymExpansions(u, query, [g]), ageDays, identifiers)
  }

  /** An entry whose CJK members are all robust has a complete pool. */
  lemma RobustEntryIsComplete(u: Alphabet, g: Group, ageDays: Option<real>, identifiers: nat)
    requires u.Valid() && forall m | m in Members(u, g) :: ContainsCjk(m) ==> Robust(u, m)
    ensures Complete(u, g, ageDays, identifiers)
  {
    hide Members, Robust, ContainsCjk, SynonymExpansions, NeverUnderSelects;
    forall query, text
      ensures NeverUnderSelects(u, query, text, SynonymExpansions(u, query, [g]), ageDays, identifiers)
    {
      forall e, alt | e in SynonymExpansions(u, query, [g]) && alt in e.alternatives
        ensures ContainsCjk(alt) ==> Robust(u, alt)
      {
        AlternativeIsMember(u, query, g, e, alt);
      }
      CandidatesNeverUnderSelect(u, query, text, SynonymExpansions(u, query, [g]), ageDays, identifiers);
    }
  }

  lemma AlternativeIsMember(u: Alphabet, query: string, g: Group, e: SynonymExpansion, alt: string)
    requires u.Valid() && e in SynonymExpansions(u, query, [g]) && alt in e.alternatives
    ensures alt in Members(u, g)
  {
    hide Members, SynonymExpansions, Expand;
    ExpansionsExactly(u, query, [g], e);
    ExpansionFacts(u, query, g, e);
  }

  /** For a stripped, folded CJK synonym: every entry that gives it to a key without CJK characters has a
      complete pool exactly when the synonym is robust. */
  lemma SynonymIsSafeExactly(u: Alphabet, synonym: string, ageDays: Option<real>, identifiers: nat)
    requires u.Valid() && Synonyms.Folded(u, synonym) == synonym && ContainsCjk(synonym)
    ensures Robust(u, synonym) <==>
            forall key | !ContainsCjk(Synonyms.Folded(u, key)) :: Complete(u, Group(key, [synonym]), ageDays, identifiers)
  {
    hide Robust, ContainsCjk, Complete, Synonyms.Folded;
    if Robust(u, synonym) {
      forall key | !ContainsCjk(Synonyms.Folded(u, key)) ensures Complete(u, Group(key, [synonym]), ageDays, identifiers) {
        MembersOfPair(u, key, synonym);
        RobustEntryIsComplete(u, Group(key, [synonym]), ageDays, identifiers);
      }
    } else {
      var key := IncompleteEntry(u, synonym, ageDays, identifiers);
    }
  }

  lemma MembersOfPair(u: Alphabet, key: string, synonym: string)
    requires Synonyms.Folded(u, synonym) == synonym
    ensures forall m | m in Members(u, Group(key, [synonym])) :: m == Synonyms.Folded(u, key) || m == synonym
  {
    hide Synonyms.Folded;
  }

  /** A fragile synonym of a long plain word: that word as the query is matched through the synonym in a
      text the pool drops. */
  lemma IncompleteEntry(u: Alphabet, synonym: string, ageDays: Option<real>, identifiers: nat) returns (key: string)
    requires u.Valid() && Synonyms.Folded(u, synonym) == synonym && ContainsCjk(synonym) && !Robust(u, synonym)
    ensures !ContainsCjk(Synonyms.Folded(u, key)) && !Complete(u, Group(key, [synonym]), ageDays, identifiers)
  {
    FoldedIsLower(u, synonym);
    hide *;
    var text := MissedText(u, synonym);
    key := LongKeyFor(u, text);
    MissedThroughKey(u, key, text, synonym, ageDays, identifiers);
  }

  /** A plain word too long to be a token of the text. */
  lemma LongKeyFor(u: Alphabet, text: string) returns (key: string)
    requires u.Valid()
    ensures IsQ(key) && Synonyms.Folded(u, key) == key && !ContainsCjk(key)
    ensures LexicalQueryTerms(u, key) == [key] && RetrievalTokens(u, key) == [key] && key !in RetrievalTokens(u, text)
  {
    hide *;
    key := LongWord(|text| + 10);
    LongWordTokens(u, |text| + 10);
    LongWordIsNoToken(u, text);
    LongKey(u, |text| + 10);
  }

  lemma MissedThroughKey(u: Alphabet, key: string, text: string, synonym: string, ageDays: Option<real>, identifiers: nat)
    requires u.Valid() && IsQ(key) && Synonyms.Folded(u, key) == key && !ContainsCjk(key)
    requires LexicalQueryTerms(u, key) == [key] && RetrievalTokens(u, key) == [key] && key !in RetrievalTokens(u, text)
    requires Synonyms.Folded(u, synonym) == synonym && ContainsCjk(synonym) && Occurs(synonym, Lower(u, text))
    requires RetrievalTokens(u, text) != [] && TokenSet(u, synonym) * TokenSet(u, text) == {}
    ensures !Complete(u, Group(key, [synonym]), ageDays, identifiers)
  {
    hide *;
    KeyExpansion(u, key, synonym);
    HitThroughAlternative(u, key, text, synonym);
    MissedByPool(u, key, text, synonym, ageDays, identifiers);
    NotComplete(u, Group(key, [synonym]), key, text, ageDays, identifiers);
  }

  lemma NotComplete(u: Alphabet, g: Group, query: string, text: string, ageDays: Option<real>, identifiers: nat)
    requires !NeverUnderSelects(u, query, text, SynonymExpansions(u, query, [g]), ageDays, identifiers)
    ensures !Complete(u, g, ageDays, identifiers)
  {
    hide NeverUnderSelects, SynonymExpansions;
  }

  lemma FoldedIsLower(u: Alphabet, synonym: string)
    requires u.Valid() && Synonyms.Folded(u, synonym) == synonym
    ensures Lower(u, synonym) == synonym
  {
    assert Lower(u, Lower(u, Strip(u.space, synonym))) == Lower(u, Strip(u.space, synonym));
  }

  lemma LongKey(u: Alphabet, n: nat)
    requires u.Valid() && n >= 10
    ensures var w := LongWord(n); IsQ(w) && Synonyms.Folded(u, w) == w && !ContainsCjk(w) && |w| == n
  {
    var w := LongWord(n);
    hide LongWord;
    assert Lower(u, w) == w && Strip(u.space, w) == w;
  }

  lemma KeyExpansion(u: Alphabet, key: string, synonym: string)
    requires u.Valid() && IsQ(key) && Synonyms.Folded(u, key) == key && !ContainsCjk(key)
    requires LexicalQueryTerms(u, key) == [key] && RetrievalTokens(u, key) == [key]
    requires Synonyms.Folded(u, synonym) == synonym && ContainsCjk(synonym)
    ensures SynonymExpansions(u, key, [Group(key, [synonym])]) == [SynonymExpansion([key], [synonym])]
  {
    var g := Group(key, [synonym]);
    PairMembers(u, key, synonym);
    NotPresentInKey(u, key, synonym);
    PresentAsWord(u, key, key);
    hide *;
    SplitPair(u, key, key, synonym);
    ExpandParts(u, key, g, key, synonym);
    InsideItself(key);
    ExpandOnly(u, key, g);
    NonBlankExpansions(u, key, [g]);
  }

  lemma PairMembers(u: Alphabet, key: string, synonym: string)
    requires Synonyms.Folded(u, key) == key && Synonyms.Folded(u, synonym) == synonym && key != "" && synonym != ""
    requires key != synonym
    ensures Members(u, Group(key, [synonym])) == [key, synonym]
  {
    hide Synonyms.Folded;
    assert [key] + [synonym] == [key, synonym] && [key, synonym][..1] == [key] && [key][..0] == [];
    assert FoldedOnce(u, [key]) == [key];
  }

  lemma NotPresentInKey(u: Alphabet, key: string, synonym: string)
    requires u.Valid() && IsQ(key) && ContainsCjk(synonym)
    ensures synonym != "" && synonym != key && !Present(u, key, synonym)
  {
    hide RetrievalTokens;
    QTokens(u, key);
    if Occurs(synonym, Lower(u, key)) {
      var at: nat :| at <= |key| && OccursAt(synonym, key, at);
      var i :| 0 <= i < |synonym| && ('\U{3040}' <= synonym[i] <= '\U{30FF}' || '\U{3400}' <= synonym[i] <= '\U{9FFF}');
      SliceAt(key, synonym, at, i);
    }
  }

  lemma SliceAt(s: string, sub: string, at: nat, i: nat)
    requires OccursAt(sub, s, at) && i < |sub|
    ensures sub[i] == s[at + i]
  {
  }

  lemma InsideItself(key: string)
    ensures TermsInside([key], [key]) == [key]
  {
    assert OccursAt(key, key, 0) && key in [key];
    hide Occurs;
    assert [key][1..] == [] && TermsInside([], [key]) == [];
  }
}
