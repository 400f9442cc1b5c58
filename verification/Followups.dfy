/** Follow-up detection and rewriting in terms of the characters of the query and the turns of the
    history (src/raku_rag/core/coreference.py). */
module Followups {
  import opened Common
  import opened Text
  import opened Coreference
  import FollowupHistory
  import ResidualTopic
  import IdentifierForms
  import Identifiers

  // ----- Detection -----

  /** `str.split` splits at every space; a text without one is a single word unless it is empty. */
  lemma {:induction false} WordsSplit(u: Alphabet, a: string, c: char, b: string)
    requires u.space(c)
    ensures Words(u, a + [c] + b) == Words(u, a) + Words(u, b)
    decreases |a|
  {
    hide WordLength;
    var s := a + [c] + b;
    if a == "" {
      assert s == [c] + b && s[1..] == b;
    } else if u.space(a[0]) {
      assert s[1..] == a[1..] + [c] + b;
      WordsSplit(u, a[1..], c, b);
    } else {
      var n := WordLength(u, a);
      FirstWord(u, a, c, b);
      assert s[..n] == a[..n] && s[n..] == a[n..] + [c] + b;
      WordsSplit(u, a[n..], c, b);
    }
  }

  lemma {:induction false} FirstWord(u: Alphabet, a: string, c: char, b: string)
    requires u.space(c)
    ensures WordLength(u, a + [c] + b) == WordLength(u, a)
  {
    var s := a + [c] + b;
    if a != "" && !u.space(a[0]) {
      assert s[1..] == a[1..] + [c] + b;
      FirstWord(u, a[1..], c, b);
    }
  }

  lemma WordsOfWord(u: Alphabet, w: string)
    requires forall i | 0 <= i < |w| :: !u.space(w[i])
    ensures Words(u, w) == if w == "" then [] else [w]
  {
    if w != "" {
      WordsStep(u, w, "");
      assert w + "" == w;
    }
  }

  /** Stripping the query before splitting it makes no difference. */
  lemma {:induction false} StripIsRedundant(u: Alphabet, s: string)
    ensures Words(u, Strip(u.space, s)) == Words(u, s)
    decreases |s|
  {
    hide Words;
    if s != "" && u.space(s[0]) {
      WordsSplit(u, "", s[0], s[1..]);
      assert "" + [s[0]] + s[1..] == s;
      NoWords(u);
      StripIsRedundant(u, s[1..]);
    } else if s != "" && u.space(s[|s| - 1]) {
      var front := s[..|s| - 1];
      WordsSplit(u, front, s[|s| - 1], "");
      assert front + [s[|s| - 1]] + "" == s;
      NoWords(u);
      StripIsRedundant(u, front);
    }
  }

  /** One of the demonstratives and back-references. The longer forms of the two that name a matter
      add nothing. */
  ghost predicate RefersBack(s: string) {
    || Occurs("これ", s) || Occurs("それ", s) || Occurs("あれ", s)
    || Occurs("この", s) || Occurs("その", s) || Occurs("あの", s)
    || Occurs("上記", s) || Occurs("同じ", s) || Occurs("先程", s) || Occurs("先ほど", s) || Occurs("前述", s)
    || Occurs("そちら", s) || Occurs("こちら", s)
  }

  lemma MarkersExactly(s: string)
    ensures (exists marker | marker in ReferentialMarkers() :: Occurs(marker, s)) <==> RefersBack(s)
  {
    hide Occurs;
    LongerForms(s);
    var markers := ReferentialMarkers();
    assert |markers| == 15;
    assert forall marker :: marker in markers <==>
      || marker == markers[0] || marker == markers[1] || marker == markers[2] || marker == markers[3] || marker == markers[4]
      || marker == markers[5] || marker == markers[6] || marker == markers[7] || marker == markers[8] || marker == markers[9]
      || marker == markers[10] || marker == markers[11] || marker == markers[12] || marker == markers[13] || marker == markers[14];
  }

  lemma LongerForms(s: string)
    ensures Occurs("この件", s) ==> Occurs("この", s)
    ensures Occurs("その件", s) ==> Occurs("その", s)
  {
    hide Occurs;
    OccursMiddle("", "この", "件");
    OccursMiddle("", "その", "件");
    assert "" + "この" + "件" == "この件" && "" + "その" + "件" == "その件";
    if Occurs("この件", s) { OccursTransitive("この", "この件", s); }
    if Occurs("その件", s) { OccursTransitive("その", "その件", s); }
  }

  /** A query is a referential follow-up exactly when there is a previous question, its words joined by
      single spaces are at most 40 characters and refer back, and no match of the identifier regex in
      it is an identifier. */
  lemma ReferentialExactly(p: Planner, query: string, previousQuestion: string)
    requires p.Valid()
    ensures var text := JoinSpaced(Words(p.u, query));
            IsReferentialFollowup(p, query, previousQuestion) <==>
            && previousQuestion != "" && |text| <= 40 && RefersBack(text)
            && forall m | m in p.found(query) :: !IdentifierForms.Identifying(p.u, m)
  {
    hide Words, ReferentialMarkers, Occurs, RefersBack, IdentifierForms.Identifying;
    StripIsRedundant(p.u, query);
    MarkersExactly(JoinSpaced(Words(p.u, query)));
    NothingRefersBack();
    NamesNothing(p, query);
  }

  lemma NothingRefersBack()
    ensures !RefersBack("")
  {
  }

  lemma NamesNothing(p: Planner, text: string)
    requires p.Valid()
    ensures p.NamedIdentifiers(text) == [] <==> forall m | m in p.found(text) :: !IdentifierForms.Identifying(p.u, m)
  {
    hide IdentifierForms.Identifying, Identifiers.QueryIdentifiers;
    var names, all := p.NamedIdentifiers(text), Identifiers.QueryIdentifiers(p.u, p.found(text));
    if names != [] { assert names[0] in names; }
    forall id ensures id in all <==> exists m | m in p.found(text) ::
      IdentifierForms.Identifying(p.u, m)
      && (id == Identifiers.NormalizeIdentifier(p.u, m) || id == Identifiers.CompactIdentifier(p.u, m))
    {
      IdentifierForms.IdentifiersExactly(p.u, p.found(text), id);
    }
    forall m | m in p.found(text) && IdentifierForms.Identifying(p.u, m) ensures names != [] {
      assert Identifiers.CompactIdentifier(p.u, m) in all;
      assert Identifiers.CompactIdentifier(p.u, m) in names;
    }
  }

  // ----- The rewrite -----

  /** What is carried over: all identifiers of the previous question if it names one, else all cited
      documents if there is one, else its first four terms in sorted order. */
  lemma SignalExactly(p: Planner, question: string, ids: seq<string>)
    ensures var signal, terms := PreviousTurnSignal(p, question, ids), p.NamedTerms(question);
            if p.NamedIdentifiers(question) != [] then signal == p.NamedIdentifiers(question)
            else if ids != [] then signal == ids
            else signal <= terms && |signal| <= 4 && (|signal| < 4 ==> signal == terms)
  {
  }

  /** Terms are appended one by one, each after a space, unless the original query spells it. */
  lemma TermIsAppended(u: Alphabet, query: string, signal: seq<string>, t: string)
    ensures WithSignal(u, query, []) == query
    ensures WithSignal(u, query, signal + [t]) == WithSignal(u, query, signal) + if Spelled(u, t, query) then "" else " " + t
  {
    hide Spelled, Carry, JoinSpaced, Lower;
    CarryOfNone(u, query);
    CarryAppends(u, query, signal, t);
    if Spelled(u, t, query) {
      assert Carry(u, query, signal) + [] == Carry(u, query, signal);
      assert WithSignal(u, query, signal) + "" == WithSignal(u, query, signal);
    } else {
      var joined := JoinSpaced(Carry(u, query, signal));
      JoinAppends(Carry(u, query, signal), t);
      assert query + " " + (joined + " " + t) == query + " " + joined + (" " + t);
    }
  }

  lemma {:induction false} CarryAppends(u: Alphabet, query: string, signal: seq<string>, t: string)
    ensures Carry(u, query, signal + [t]) == Carry(u, query, signal) + if Spelled(u, t, query) then [] else [t]
  {
    hide *;
    var tail := if Spelled(u, t, query) then [] else [t];
    if signal == [] {
      assert [] + [t] == [t] && [t][1..] == [];
      CarryOfNone(u, query);
      CarryFirst(u, query, [t]);
    } else {
      var all := signal + [t];
      assert all[1..] == signal[1..] + [t] && all[0] == signal[0];
      CarryAppends(u, query, signal[1..], t);
      CarryFirst(u, query, signal);
      CarryFirst(u, query, all);
      var head := if Spelled(u, signal[0], query) then [] else [signal[0]];
      assert head + (Carry(u, query, signal[1..]) + tail) == head + Carry(u, query, signal[1..]) + tail;
    }
  }

  lemma CarryOfNone(u: Alphabet, query: string)
    ensures Carry(u, query, []) == []
  {
  }

  lemma CarryFirst(u: Alphabet, query: string, signal: seq<string>)
    requires signal != []
    ensures Carry(u, query, signal)
         == (if Spelled(u, signal[0], query) then [] else [signal[0]]) + Carry(u, query, signal[1..])
  {
  }

  lemma {:induction false} JoinAppends(words: seq<string>, t: string)
    ensures JoinSpaced(words + [t]) == if words == [] then t else JoinSpaced(words) + " " + t
  {
    if words == [] {
      assert [] + [t] == [t];
    } else if |words| == 1 {
      assert (words + [t])[1..] == [t];
    } else {
      assert (words + [t])[1..] == words[1..] + [t] && (words + [t])[0] == words[0];
      JoinAppends(words[1..], t);
      assert words[0] + " " + (JoinSpaced(words[1..]) + " " + t) == words[0] + " " + JoinSpaced(words[1..]) + " " + t;
    }
  }

  /** What a query spells: a term that stands in its case-folded text, or does once dashes and
      underscores are left out of both. */
  ghost predicate LeavesOut(s: string, r: string) {
    && (s == "" ==> r == "")
    && (s != "" ==> if s[|s| - 1] == '-' || s[|s| - 1] == '_' then LeavesOut(s[..|s| - 1], r)
                    else r != "" && r[|r| - 1] == s[|s| - 1] && LeavesOut(s[..|s| - 1], r[..|r| - 1]))
  }

  lemma {:induction false} DropSeparatorsExactly(s: string)
    ensures LeavesOut(s, DropSeparators(s))
  {
    if s != "" {
      var front, last := s[..|s| - 1], s[|s| - 1];
      assert s == front + [last];
      DropSeparatorsConcat(front, [last]);
      DropOne(last);
      DropSeparatorsExactly(front);
      if last == '-' || last == '_' {
        assert DropSeparators(front) + "" == DropSeparators(front);
      } else {
        assert (DropSeparators(front) + [last])[..|DropSeparators(front)|] == DropSeparators(front);
      }
    }
  }

  lemma DropOne(c: char)
    ensures DropSeparators([c]) == if c == '-' || c == '_' then "" else [c]
  {
    assert [c][1..] == "";
  }

  lemma SpelledExactly(u: Alphabet, term: string, query: string, shortTerm: string, shortQuery: string)
    requires LeavesOut(term, shortTerm) && LeavesOut(Lower(u, query), shortQuery)
    ensures Spelled(u, term, query) <==>
            (exists a, b :: Lower(u, query) == a + term + b) || exists a, b :: shortQuery == a + shortTerm + b
  {
    hide Occurs, LeavesOut;
    DropSeparatorsExactly(term);
    DropSeparatorsExactly(Lower(u, query));
    LeavesOutOnce(term, shortTerm, DropSeparators(term));
    LeavesOutOnce(Lower(u, query), shortQuery, DropSeparators(Lower(u, query)));
    OccursExactly(term, Lower(u, query));
    OccursExactly(shortTerm, shortQuery);
  }

  lemma {:induction false} LeavesOutOnce(s: string, a: string, b: string)
    requires LeavesOut(s, a) && LeavesOut(s, b)
    ensures a == b
  {
    if s != "" {
      var front := s[..|s| - 1];
      if s[|s| - 1] == '-' || s[|s| - 1] == '_' {
        LeavesOutOnce(front, a, b);
      } else {
        LeavesOutOnce(front, a[..|a| - 1], b[..|b| - 1]);
        assert a == a[..|a| - 1] + [a[|a| - 1]] && b == b[..|b| - 1] + [b[|b| - 1]];
      }
    }
  }

  // ----- The residual topic -----

  lemma OccursLater(s: string, word: string, j: nat)
    requires s != ""
    ensures OccursAt(word, s[1..], j) <==> OccursAt(word, s, j + 1)
  {
    if j + 1 + |word| <= |s| { assert s[1..][j..j + |word|] == s[j + 1..j + 1 + |word|]; }
  }

  lemma {:induction false} RemoveAbsent(s: string, word: string)
    requires word != "" && !Occurs(word, s)
    ensures ResidualTopic.RemoveWord(s, word) == s
  {
    if |s| >= |word| {
      assert !OccursAt(word, s, 0);
      if j: nat :| j <= |s[1..]| && OccursAt(word, s[1..], j) {
        OccursLater(s, word, j);
        assert false;
      }
      RemoveAbsent(s[1..], word);
    }
  }

  lemma {:induction false} RemoveFirst(s: string, word: string, k: nat)
    requires word != "" && OccursAt(word, s, k) && forall j: nat | j < k :: !OccursAt(word, s, j)
    ensures ResidualTopic.RemoveWord(s, word) == s[..k] + ResidualTopic.RemoveWord(s[k + |word|..], word)
  {
    hide *;
    InRange(s, word, k);
    if k > 0 {
      var rest := s[1..];
      OccursLater(s, word, k - 1);
      forall j: nat | j < k - 1 ensures !OccursAt(word, rest, j) { OccursLater(s, word, j); }
      RemoveFirst(rest, word, k - 1);
      RemoveStep(s, word);
      SplitsAlike(s, |word|, k, ResidualTopic.RemoveWord(s[k + |word|..], word));
    } else {
      RemoveAtFront(s, word);
    }
  }

  lemma SplitsAlike(s: string, n: nat, k: nat, left: string)
    requires 0 < k && k + n <= |s|
    ensures s[1..][k - 1 + n..] == s[k + n..]
    ensures [s[0]] + (s[1..][..k - 1] + left) == s[..k] + left
  {
    assert [s[0]] + s[1..][..k - 1] == s[..k];
  }

  lemma RemoveAtFront(s: string, word: string)
    requires word != "" && OccursAt(word, s, 0)
    ensures ResidualTopic.RemoveWord(s, word) == s[..0] + ResidualTopic.RemoveWord(s[0 + |word|..], word)
  {
    assert s[..|word|] == word;
    var left := ResidualTopic.RemoveWord(s[|word|..], word);
    assert s[..0] + left == left;
  }

  lemma RemoveStep(s: string, word: string)
    requires word != "" && |s| >= |word| && !OccursAt(word, s, 0)
    ensures ResidualTopic.RemoveWord(s, word) == [s[0]] + ResidualTopic.RemoveWord(s[1..], word)
  {
  }

  /** One marker or filler at a time: its first occurrence goes, and the rest is searched behind it. */
  lemma RemoveWordExactly(s: string, word: string)
    requires word != ""
    ensures !Occurs(word, s) ==> ResidualTopic.RemoveWord(s, word) == s
    ensures forall k: nat | OccursAt(word, s, k) && forall j: nat | j < k :: !OccursAt(word, s, j) ::
              ResidualTopic.RemoveWord(s, word) == s[..k] + ResidualTopic.RemoveWord(s[k + |word|..], word)
  {
    hide ResidualTopic.RemoveWord, Occurs, OccursAt;
    if !Occurs(word, s) { RemoveAbsent(s, word); }
    forall k: nat | OccursAt(word, s, k) && forall j: nat | j < k :: !OccursAt(word, s, j)
      ensures k + |word| <= |s|
      ensures ResidualTopic.RemoveWord(s, word) == s[..k] + ResidualTopic.RemoveWord(s[k + |word|..], word)
    {
      InRange(s, word, k);
      RemoveFirst(s, word, k);
    }
  }

  lemma InRange(s: string, word: string, k: nat)
    requires OccursAt(word, s, k)
    ensures k + |word| <= |s|
  {
  }

  /** The markers go first, the longer forms before the shorter ones inside them, then the fillers. */
  lemma CleanedExactly(query: string)
    ensures ResidualTopic.Cleaned(query) == ResidualTopic.RemoveAll(ResidualTopic.RemoveAll(query,
              ["これ", "それ", "あれ", "この件", "その件",
               "その", "この", "あの", "上記", "同じ", "先程", "先ほど", "前述", "そちら", "こちら"]),
              ["もう少し", "詳しく", "教えて", "ください", "下さい", "について", "お願いします", "でしょうか", "ですか",
               "説明して", "続けて", "もっと", "他には", "ほかには"])
  {
    assert ReferentialMarkers() ==
      ["これ", "それ", "あれ", "この件", "その件",
       "その", "この", "あの", "上記", "同じ", "先程", "先ほど", "前述", "そちら", "こちら"];
  }

  lemma RemovedInTurn(s: string, words: seq<string>, word: string)
    requires word != "" && "" !in words
    ensures ResidualTopic.RemoveAll(s, []) == s
    ensures ResidualTopic.RemoveAll(s, words + [word]) == ResidualTopic.RemoveWord(ResidualTopic.RemoveAll(s, words), word)
  {
    assert (words + [word])[..|words|] == words;
  }

  predicate LeadingChar(c: char) {
    c in "はをがのにでもとへや"
  }

  predicate TrailingChar(u: Alphabet, c: char) {
    u.space(c) || c in "。、！？?!,.:：" || LeadingChar(c)
  }

  lemma CharsExactly(u: Alphabet, c: char)
    ensures ResidualTopic.Particle(c) <==> LeadingChar(c)
    ensures ResidualTopic.Strippable(u)(c) <==> TrailingChar(u, c)
  {
  }

  /** The residual topic is the stripped slice of the cleaned query between the particles at its front
      and the punctuation and particles at its end; two characters of it make an own topic. */
  lemma ResidualExactly(u: Alphabet, query: string) returns (i: nat, j: nat)
    ensures i <= j <= |ResidualTopic.Cleaned(query)|
    ensures var s := ResidualTopic.Cleaned(query);
            && (forall k | 0 <= k < i :: LeadingChar(s[k])) && (forall k | j <= k < |s| :: TrailingChar(u, s[k]))
            && (i < j ==> !LeadingChar(s[i]) && !TrailingChar(u, s[j - 1]))
    ensures var topic := Strip(u.space, ResidualTopic.Cleaned(query)[i..j]);
            && ResidualTopic.ResidualTopic(u, query) == topic
            && (ResidualTopic.HasOwnTopic(u, query) <==> |topic| > 1)
  {
    hide ResidualTopic.Cleaned, ResidualTopic.Particle, ResidualTopic.Punctuation, LeadingChar, TrailingChar, ResidualTopic.Settle;
    var s := ResidualTopic.Cleaned(query);
    ResidualTopic.SettleIsOnePass(u, s);
    forall c
      ensures ResidualTopic.Particle(c) <==> LeadingChar(c)
      ensures ResidualTopic.Strippable(u)(c) <==> TrailingChar(u, c)
    {
      CharsExactly(u, c);
    }
    var kept := ResidualTopic.TrimBack(ResidualTopic.Strippable(u), s);
    var topic := ResidualTopic.TrimFront(ResidualTopic.Particle, kept);
    j := |kept|;
    i := j - |topic|;
    assert kept == s[..j] && topic == kept[i..] == s[i..j];
  }

  // ----- The history -----

  lemma {:induction false} UsableCount(history: seq<FollowupHistory.Turn>)
    ensures |FollowupHistory.Usable(history)| == |set k: nat | k < |history| && history[k].Turn?|
  {
    if history != [] {
      var front, last := history[..|history| - 1], history[|history| - 1];
      assert history == front + [last];
      UsableCount(front);
      FollowupHistory.UsableConcat(front, [last]);
      assert FollowupHistory.Usable([last]) == if last.Turn? then [last] else [];
      assert (set k: nat | k < |history| && history[k].Turn?)
          == (set k: nat | k < |front| && front[k].Turn?) + if last.Turn? then {|front|} else {};
    }
  }

  ghost predicate AsksSomething(u: Alphabet, turn: FollowupHistory.Turn) {
    turn.Turn? && exists c | c in turn.question :: !u.space(c)
  }

  /** What a turn is remembered for: its stripped question and the ids of its cited documents, stripped,
      without the blank ones. */
  lemma AnchorExactly(u: Alphabet, turn: FollowupHistory.Turn, ids: seq<string>, id: string)
    requires turn.Turn?
    ensures FollowupHistory.AnchorOf(u, turn.(ids := None)) == FollowupHistory.Anchor(Strip(u.space, turn.question), [])
    ensures FollowupHistory.AnchorOf(u, turn.(ids := Some([]))) == FollowupHistory.AnchorOf(u, turn.(ids := None))
    ensures FollowupHistory.AnchorOf(u, turn.(ids := Some(ids + [id]))).documentIds
         == FollowupHistory.AnchorOf(u, turn.(ids := Some(ids))).documentIds
            + if forall c | c in id :: u.space(c) then [] else [Strip(u.space, id)]
  {
    NonBlankAppends(u, ids, id);
    StripBlank(u.space, id);
  }

  lemma {:induction false} NonBlankAppends(u: Alphabet, ids: seq<string>, id: string)
    ensures FollowupHistory.NonBlank(u, ids + [id])
         == FollowupHistory.NonBlank(u, ids) + if Strip(u.space, id) == "" then [] else [Strip(u.space, id)]
  {
    hide Strip;
    if ids == [] {
      assert [] + [id] == [id] && [id][1..] == [];
    } else {
      assert (ids + [id])[1..] == ids[1..] + [id] && (ids + [id])[0] == ids[0];
      NonBlankAppends(u, ids[1..], id);
    }
  }

  /** The anchor is the last turn that asks something, if at most four usable turns are newer; a
      referential query is then rewritten against it, and any other query, or one that spells all of
      what the anchor named, stays as it is. */
  lemma HistoryExactly(p: Planner, query: string, older: seq<FollowupHistory.Turn>, turn: FollowupHistory.Turn, newer: seq<FollowupHistory.Turn>)
    requires AsksSomething(p.u, turn) && forall t | t in newer :: !AsksSomething(p.u, t)
    ensures var anchor := FollowupHistory.AnchorOf(p.u, turn);
            var rewritten := StandaloneQuery(p, query, anchor.question, anchor.documentIds);
            var newerTurns := set k: nat | k < |newer| && newer[k].Turn?;
            var r := FollowupHistory.FollowupFromHistory(p, query, older + [turn] + newer);
            if |newerTurns| <= 4 && IsReferentialFollowup(p, query, anchor.question) && rewritten != query
            then r == (rewritten, Some(query)) else r == (query, None)
  {
    hide IsReferentialFollowup, StandaloneQuery, FollowupHistory.AnchorOf, FollowupHistory.Asks, FollowupHistory.Usable, FollowupHistory.LastAsked, AsksSomething;
    var history := older + [turn] + newer;
    UsableCount(newer);
    AsksExactly(p.u, turn);
    FollowupHistory.UsableConcat(older + [turn], newer);
    FollowupHistory.UsableConcat(older, [turn]);
    UsableOne(turn);
    UsableKeeps(newer);
    var a, n := FollowupHistory.Usable(older), FollowupHistory.Usable(newer);
    forall t | t in n ensures !FollowupHistory.Asks(p.u, t) { AsksExactly(p.u, t); }
    RecentOf(p.u, a, turn, n);
  }

  lemma UsableOne(turn: FollowupHistory.Turn)
    requires turn.Turn?
    ensures FollowupHistory.Usable([turn]) == [turn]
  {
  }

  lemma {:induction false} UsableKeeps(turns: seq<FollowupHistory.Turn>)
    ensures forall t | t in FollowupHistory.Usable(turns) :: t in turns
  {
    if turns != [] { UsableKeeps(turns[1..]); }
  }

  lemma AsksExactly(u: Alphabet, turn: FollowupHistory.Turn)
    ensures FollowupHistory.Asks(u, turn) <==> AsksSomething(u, turn)
    ensures AsksSomething(u, turn) ==> turn.Turn?
  {
    if turn.Turn? { StripBlank(u.space, turn.question); }
  }

  /** The last five of these turns, searched from the end. */
  lemma RecentOf(u: Alphabet, a: seq<FollowupHistory.Turn>, turn: FollowupHistory.Turn, n: seq<FollowupHistory.Turn>)
    requires turn.Turn? && FollowupHistory.Asks(u, turn) && forall t | t in n :: !FollowupHistory.Asks(u, t)
    ensures var turns := a + [turn] + n;
            var recent := if |turns| <= 5 then turns else turns[|turns| - 5..];
            FollowupHistory.LastAsked(u, recent) == if |n| <= 4 then Some(FollowupHistory.AnchorOf(u, turn)) else None
  {
    hide FollowupHistory.Asks, FollowupHistory.AnchorOf, FollowupHistory.LastAsked;
    var turns := a + [turn] + n;
    var recent := if |turns| <= 5 then turns else turns[|turns| - 5..];
    if |n| <= 4 {
      var k := |recent| - |n| - 1;
      assert recent[k] == turn;
      forall j | k < j < |recent| ensures !FollowupHistory.Asks(u, recent[j]) { assert recent[j] == n[j - k - 1]; }
      FollowupHistory.LastAskedAt(u, recent, k);
    } else {
      assert recent == n[|n| - 5..];
      forall t | t in recent ensures !FollowupHistory.Asks(u, t) { assert t in n; }
      FollowupHistory.NoneAsked(u, recent);
    }
  }
}
