/** Synonym expansions of a query from a tenant's lexicon (`synonym_expansions`,
    src/raku_rag/core/hybrid_retrieval.py). */
module Synonyms {
  import opened Common
  import opened Text
  import opened Lexical

  /** One lexicon entry: its canonical term and the synonyms. A lexicon is the list of its entries in
      the order of their keys. */
  datatype Group = Group(key: string, values: seq<string>)

  function Folded(u: Alphabet, m: string): string {
    Lower(u, Strip(u.space, m))
  }

  /** The non-blank texts, stripped and folded, without repetition, first occurrence first. */
  function FoldedOnce(u: Alphabet, raw: seq<string>): (members: seq<string>)
    ensures forall m :: m in members <==> m != "" && exists r | r in raw :: Folded(u, r) == m
    ensures forall i, j | 0 <= i < j < |members| :: members[i] != members[j]
  {
    if raw == [] then []
    else
      var front := FoldedOnce(u, raw[..|raw| - 1]);
      var last := Folded(u, raw[|raw| - 1]);
      assert forall r :: r in raw <==> r == raw[|raw| - 1] || r in raw[..|raw| - 1];
      if last == "" || last in front then front else front + [last]
  }

  function Members(u: Alphabet, g: Group): seq<string> {
    FoldedOnce(u, [g.key] + g.values)
  }

  predicate Present(u: Alphabet, query: string, m: string) {
    PhrasePresent(u, m, Lower(u, query), RetrievalTokens(u, query))
  }

  function MembersPresent(u: Alphabet, query: string, members: seq<string>): (r: seq<string>)
    ensures forall m :: m in r <==> m in members && Present(u, query, m)
    ensures |r| <= |members| && (|r| == |members| <==> forall m | m in members :: Present(u, query, m))
  {
    if members == [] then []
    else
      assert forall m :: m in members <==> m == members[0] || m in members[1..];
      (if Present(u, query, members[0]) then [members[0]] else []) + MembersPresent(u, query, members[1..])
  }

  function Without(members: seq<string>, dropped: seq<string>): (r: seq<string>)
    ensures forall m :: m in r <==> m in members && m !in dropped
  {
    if members == [] then []
    else
      assert forall m :: m in members <==> m == members[0] || m in members[1..];
      (if members[0] in dropped then [] else [members[0]]) + Without(members[1..], dropped)
  }

  /** The terms that occur inside one of the members, as plain substrings. */
  function TermsInside(terms: seq<string>, members: seq<string>): (r: seq<string>)
    ensures forall t :: t in r <==> t in terms && exists m | m in members :: Occurs(t, m)
  {
    if terms == [] then []
    else
      assert forall t :: t in terms <==> t == terms[0] || t in terms[1..];
      (if exists m | m in members :: Occurs(terms[0], m) then [terms[0]] else []) + TermsInside(terms[1..], members)
  }

  /** What one entry contributes. */
  function Expand(u: Alphabet, query: string, g: Group): seq<SynonymExpansion> {
    var members := Members(u, g);
    var matched := MembersPresent(u, query, members);
    var sources := TermsInside(LexicalQueryTerms(u, query), matched);
    if |members| < 2 || matched == [] || |matched| == |members| || sources == [] then []
    else [SynonymExpansion(sources, Without(members, matched))]
  }

  function ExpandAll(u: Alphabet, query: string, groups: seq<Group>): seq<SynonymExpansion> {
    if groups == [] then []
    else ExpandAll(u, query, groups[..|groups| - 1]) + Expand(u, query, groups[|groups| - 1])
  }

  function SynonymExpansions(u: Alphabet, query: string, groups: seq<Group>): seq<SynonymExpansion> {
    if Strip(u.space, Lower(u, query)) == "" || groups == [] || LexicalQueryTerms(u, query) == [] then []
    else ExpandAll(u, query, groups)
  }

  method SynonymExpansionsLoop(u: Alphabet, query: string, groups: seq<Group>) returns (expansions: seq<SynonymExpansion>)
    ensures expansions == SynonymExpansions(u, query, groups)
  {
    hide Strip, LexicalQueryTerms, Lower, Present, FoldedOnce, TermsInside, Without;
    expansions := [];
    if Strip(u.space, Lower(u, query)) == "" || groups == [] { return; }
    var queryTerms := LexicalQueryTerms(u, query);
    if queryTerms == [] { return; }
    for k := 0 to |groups|
      invariant expansions == ExpandAll(u, query, groups[..k])
    {
      assert groups[..k + 1][..k] == groups[..k];
      var members := FoldedOnce(u, [groups[k].key] + groups[k].values);
      if |members| < 2 { continue; }
      var matched := MembersPresent(u, query, members);
      if matched == [] || |matched| == |members| { continue; }
      var sourceTerms := TermsInside(queryTerms, matched);
      if sourceTerms == [] { continue; }
      expansions := expansions + [SynonymExpansion(sourceTerms, Without(members, matched))];
    }
    assert groups[..|groups|] == groups;
  }

  // ----- What an expansion is -----

  lemma {:induction false} ExpandAllMember(u: Alphabet, query: string, groups: seq<Group>, e: SynonymExpansion)
    ensures e in ExpandAll(u, query, groups) <==> exists g | g in groups :: e in Expand(u, query, g)
  {
    hide Expand;
    if groups != [] {
      var front, last := groups[..|groups| - 1], groups[|groups| - 1];
      assert groups == front + [last];
      ExpandAllMember(u, query, front, e);
    }
  }

  lemma NoTermsNoExpansion(u: Alphabet, query: string, g: Group)
    requires LexicalQueryTerms(u, query) == []
    ensures Expand(u, query, g) == []
  {
  }

  lemma BlankHasNoTerms(u: Alphabet, query: string)
    requires u.Valid() && Strip(u.space, Lower(u, query)) == ""
    ensures LexicalQueryTerms(u, query) == []
  {
    var s := Lower(u, query);
    StripEmpty(u, s);
    hide Strip, RetrievalTokens, MaximalRun;
    if RetrievalTokens(u, query) != [] {
      var t := SomeMember(RetrievalTokens(u, query));
      TokenIffRun(u, query, t);
      var i: nat, j: nat :| MaximalRun(u, s, i, j) && t in RunTokens(u, s[i..j]);
      RunHasWord(u, s, i, j);
    }
  }

  lemma SomeMember(s: seq<string>) returns (t: string)
    requires s != []
    ensures t in s
  {
    t := s[0];
  }

  lemma RunHasWord(u: Alphabet, s: string, i: nat, j: nat)
    requires MaximalRun(u, s, i, j)
    ensures i < |s| && u.word(s[i])
  {
  }

  lemma {:induction false} StripEmpty(u: Alphabet, s: string)
    requires u.Valid() && Strip(u.space, s) == ""
    ensures forall i | 0 <= i < |s| :: u.space(s[i])
    decreases |s|
  {
    if s != "" && u.space(s[0]) {
      StripEmpty(u, s[1..]);
      forall i | 0 <= i < |s| ensures u.space(s[i]) { assert i > 0 ==> u.space(s[1..][i - 1]); }
    } else if s != "" {
      StripEmpty(u, s[..|s| - 1]);
      forall i | 0 <= i < |s| ensures u.space(s[i]) { assert i < |s| - 1 ==> u.space(s[..|s| - 1][i]); }
    }
  }

  /** An expansion exists exactly for an entry that contributes one: the early exits lose nothing. */
  lemma ExpansionsExactly(u: Alphabet, query: string, groups: seq<Group>, e: SynonymExpansion)
    requires u.Valid()
    ensures e in SynonymExpansions(u, query, groups) <==> exists g | g in groups :: e in Expand(u, query, g)
  {
    ExpandAllMember(u, query, groups, e);
    if Strip(u.space, Lower(u, query)) == "" { BlankHasNoTerms(u, query); }
    if LexicalQueryTerms(u, query) == [] {
      forall g | g in groups ensures Expand(u, query, g) == [] { NoTermsNoExpansion(u, query, g); }
    }
  }

  /** An expansion speaks about this query: its source terms are query terms found inside members that
      the query uses, and its alternatives are the members the query does not use; both exist. */
  lemma ExpansionFacts(u: Alphabet, query: string, g: Group, e: SynonymExpansion)
    requires e in Expand(u, query, g)
    ensures e.sourceTerms != [] && e.alternatives != []
    ensures forall t | t in e.sourceTerms ::
      t in LexicalQueryTerms(u, query) && exists m | m in Members(u, g) && Present(u, query, m) :: Occurs(t, m)
    ensures forall m :: m in e.alternatives <==> m in Members(u, g) && !Present(u, query, m)
  {
    hide FoldedOnce, Present, LexicalQueryTerms, Occurs;
    var members := Members(u, g);
    var matched := MembersPresent(u, query, members);
    assert exists m | m in members :: !Present(u, query, m);
    var m :| m in members && !Present(u, query, m);
    assert m in Without(members, matched);
  }

  /** The key or a value of the entry, stripped and folded, unless it is blank. */
  ghost predicate IsMember(u: Alphabet, g: Group, m: string) {
    m != "" && exists raw :: (raw == g.key || raw in g.values) && m == Lower(u, Strip(u.space, raw))
  }

  /** A member that the query uses. */
  ghost predicate IsUsed(u: Alphabet, query: string, g: Group, m: string) {
    IsMember(u, g, m) && PhrasePresent(u, m, Lower(u, query), RetrievalTokens(u, query))
  }

  ghost predicate IsUnused(u: Alphabet, query: string, g: Group, m: string) {
    IsMember(u, g, m) && !PhrasePresent(u, m, Lower(u, query), RetrievalTokens(u, query))
  }

  /** An entry contributes exactly when the query uses a member with one of the query's terms inside and
      leaves another member unused; what it contributes is all such terms and all unused members. */
  lemma ContributesExactly(u: Alphabet, query: string, g: Group)
    ensures Expand(u, query, g) != [] <==>
      && (exists t, m :: t in LexicalQueryTerms(u, query) && IsUsed(u, query, g, m) && Occurs(t, m))
      && (exists m :: IsUnused(u, query, g, m))
    ensures forall e | e in Expand(u, query, g) ::
      && Expand(u, query, g) == [e]
      && (forall t :: t in e.sourceTerms <==>
            t in LexicalQueryTerms(u, query) && exists m :: IsUsed(u, query, g, m) && Occurs(t, m))
      && (forall m :: m in e.alternatives <==> IsUnused(u, query, g, m))
  {
    hide FoldedOnce, PhrasePresent, LexicalQueryTerms, Occurs, IsMember;
    var members := Members(u, g);
    var matched := MembersPresent(u, query, members);
    var terms := LexicalQueryTerms(u, query);
    var sources := TermsInside(terms, matched);
    forall m ensures m in members <==> IsMember(u, g, m) { MembersExactly(u, g, m); }
    forall m ensures m in matched <==> IsUsed(u, query, g, m) {}
    forall m ensures m in Without(members, matched) <==> IsUnused(u, query, g, m) {}
    SomeSource(sources);
    SomeSource(matched);
    if m :| IsUnused(u, query, g, m) {
      assert m in members;
      assert |matched| != |members|;
      if matched != [] { AtLeastTwo(members, matched[0], m); }
    }
  }

  lemma SomeSource(sources: seq<string>)
    ensures sources != [] <==> exists t :: t in sources
  {
    if sources != [] { assert sources[0] in sources; }
  }

  lemma AtLeastTwo(members: seq<string>, a: string, b: string)
    requires a in members && b in members && a != b
    ensures |members| >= 2
  {
  }

  lemma MembersExactly(u: Alphabet, g: Group, m: string)
    ensures m in Members(u, g) <==> IsMember(u, g, m)
  {
    hide Strip, Lower, FoldedOnce;
    var raws := [g.key] + g.values;
    assert forall raw :: raw in raws <==> raw == g.key || raw in g.values;
    assert m in Members(u, g) <==> m != "" && exists raw | raw in raws :: Folded(u, raw) == m;
    if raw :| (raw == g.key || raw in g.values) && m == Lower(u, Strip(u.space, raw)) {
      assert raw in raws && Folded(u, raw) == m;
    }
  }

  // ----- The layout of an entry does not matter -----

  ghost predicate SameMembers(u: Alphabet, g: Group, k: Group) {
    forall m :: m in Members(u, g) <==> m in Members(u, k)
  }

  lemma SameMembersSameCount(u: Alphabet, g: Group, k: Group)
    requires SameMembers(u, g, k)
    ensures |Members(u, g)| == |Members(u, k)|
  {
    var a, b := Members(u, g), Members(u, k);
    hide FoldedOnce;
    DistinctSize(a);
    DistinctSize(b);
    assert (set m | m in a) == (set m | m in b);
  }

  lemma {:induction false} DistinctSize(s: seq<string>)
    requires forall i, j | 0 <= i < j < |s| :: s[i] != s[j]
    ensures |set m | m in s| == |s|
  {
    if s != [] {
      var front := s[..|s| - 1];
      DistinctSize(front);
      assert (set m | m in s) == (set m | m in front) + {s[|s| - 1]};
    }
  }

  lemma {:induction false} TermsInsideSame(terms: seq<string>, a: seq<string>, b: seq<string>)
    requires forall m :: m in a <==> m in b
    ensures TermsInside(terms, a) == TermsInside(terms, b)
  {
    hide Occurs;
    if terms != [] { TermsInsideSame(terms[1..], a, b); }
  }

  /** Alike expansions have the same source terms and the same set of alternatives. */
  ghost predicate Alike(e: SynonymExpansion, f: SynonymExpansion) {
    e.sourceTerms == f.sourceTerms && forall m :: m in e.alternatives <==> m in f.alternatives
  }

  lemma SameMembersExpandAlike(u: Alphabet, query: string, g: Group, k: Group, e: SynonymExpansion) returns (f: SynonymExpansion)
    requires SameMembers(u, g, k) && e in Expand(u, query, g)
    ensures f in Expand(u, query, k) && Alike(e, f)
  {
    hide FoldedOnce, Members, Present, LexicalQueryTerms, Occurs;
    var a, b := MembersPresent(u, query, Members(u, g)), MembersPresent(u, query, Members(u, k));
    SameMembersSameCount(u, g, k);
    assert forall m :: m in a <==> m in b;
    assert a[0] in a && b != [];
    TermsInsideSame(LexicalQueryTerms(u, query), a, b);
    f := SynonymExpansion(e.sourceTerms, Without(Members(u, k), b));
    assert |b| != |Members(u, k)|;
  }

  /** Matching is symmetric over an entry: whichever member is its key, in whichever order, spelling
      or repetition, every text scores the same for every query. */
  lemma ScoreIgnoresLayout(u: Alphabet, query: string, text: string, one: seq<Group>, other: seq<Group>, recency: real, identifiers: nat)
    requires u.Valid()
    requires forall g | g in one :: exists k | k in other :: SameMembers(u, g, k)
    requires forall k | k in other :: exists g | g in one :: SameMembers(u, k, g)
    ensures LexicalMatchScore(u, query, text, SynonymExpansions(u, query, one), recency, identifiers)
         == LexicalMatchScore(u, query, text, SynonymExpansions(u, query, other), recency, identifiers)
  {
    hide SynonymExpansions, LexicalQueryTerms, RetrievalTokens, SameMembers, Hit, AlternativePresent;
    var terms := LexicalQueryTerms(u, query);
    forall t
      ensures t in SynonymCovered(u, terms, text, SynonymExpansions(u, query, one))
         <==> t in SynonymCovered(u, terms, text, SynonymExpansions(u, query, other))
    {
      if t in SynonymCovered(u, terms, text, SynonymExpansions(u, query, one)) { CoveredEitherWay(u, query, text, one, other, t); }
      if t in SynonymCovered(u, terms, text, SynonymExpansions(u, query, other)) { CoveredEitherWay(u, query, text, other, one, t); }
    }
    var a, b := SynonymCovered(u, terms, text, SynonymExpansions(u, query, one)), SynonymCovered(u, terms, text, SynonymExpansions(u, query, other));
    assert a == b;
    ScoreByCovered(u, query, text, SynonymExpansions(u, query, one), SynonymExpansions(u, query, other), recency, identifiers);
  }

  lemma ScoreByCovered(u: Alphabet, query: string, text: string, e: seq<SynonymExpansion>, f: seq<SynonymExpansion>, recency: real, identifiers: nat)
    requires SynonymCovered(u, LexicalQueryTerms(u, query), text, e) == SynonymCovered(u, LexicalQueryTerms(u, query), text, f)
    ensures LexicalMatchScore(u, query, text, e, recency, identifiers) == LexicalMatchScore(u, query, text, f, recency, identifiers)
  {
    hide SynonymCovered, LexicalQueryTerms, RetrievalTokens, Matched, Density;
  }

  lemma CoveredEitherWay(u: Alphabet, query: string, text: string, one: seq<Group>, other: seq<Group>, t: string)
    requires u.Valid() && forall g | g in one :: exists k | k in other :: SameMembers(u, g, k)
    requires t in SynonymCovered(u, LexicalQueryTerms(u, query), text, SynonymExpansions(u, query, one))
    ensures t in SynonymCovered(u, LexicalQueryTerms(u, query), text, SynonymExpansions(u, query, other))
  {
    hide SynonymExpansions, LexicalQueryTerms, RetrievalTokens, SameMembers, Expand, PhrasePresent;
    var e :| e in SynonymExpansions(u, query, one) && t in e.sourceTerms && AlternativePresent(u, e, text);
    ExpansionsExactly(u, query, one, e);
    var g :| g in one && e in Expand(u, query, g);
    var k :| k in other && SameMembers(u, g, k);
    var f := SameMembersExpandAlike(u, query, g, k, e);
    ExpansionsExactly(u, query, other, f);
    var alt :| alt in e.alternatives && PhrasePresent(u, alt, Lower(u, text), RetrievalTokens(u, text));
    assert alt in f.alternatives;
    assert AlternativePresent(u, f, text);
  }

  /** A larger lexicon never lowers a score. */
  lemma LexiconGrowthNeverLowers(u: Alphabet, query: string, text: string, few: seq<Group>, many: seq<Group>, recency: real, identifiers: nat)
    requires u.Valid() && 0.0 <= recency && forall g | g in few :: g in many
    ensures LexicalMatchScore(u, query, text, SynonymExpansions(u, query, few), recency, identifiers)
         <= LexicalMatchScore(u, query, text, SynonymExpansions(u, query, many), recency, identifiers)
  {
    hide SynonymExpansions, Expand, LexicalMatchScore;
    forall e | e in SynonymExpansions(u, query, few) ensures e in SynonymExpansions(u, query, many) {
      ExpansionsExactly(u, query, few, e);
      ExpansionsExactly(u, query, many, e);
    }
    ScoreGrowsWithExpansions(u, query, text, SynonymExpansions(u, query, few), SynonymExpansions(u, query, many), recency, identifiers);
  }
}
