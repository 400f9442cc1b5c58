/** Resolving a follow-up against client-supplied prior turns (`followup_from_history`,
    src/raku_rag/core/coreference.py). */
module FollowupHistory {
  import opened Common
  import opened Text
  import opened Coreference

  /** An item of the history; `ids` is None when the ids are not a list. */
  datatype Turn = Turn(question: string, ids: Option<seq<string>>) | NotATurn

  /** The question and documents a reference is resolved against. */
  datatype Anchor = Anchor(question: string, documentIds: seq<string>)

  function Usable(history: seq<Turn>): seq<Turn> {
    if history == [] then [] else (if history[0].Turn? then [history[0]] else []) + Usable(history[1..])
  }

  function Recent(history: seq<Turn>): seq<Turn> {
    var turns := Usable(history);
    if |turns| <= MAX_HISTORY_TURNS then turns else turns[|turns| - MAX_HISTORY_TURNS..]
  }

  function NonBlank(u: Alphabet, ids: seq<string>): (r: seq<string>)
    ensures "" !in r
  {
    if ids == [] then []
    else
      var id := Strip(u.space, ids[0]);
      (if id == "" then [] else [id]) + NonBlank(u, ids[1..])
  }

  function AnchorOf(u: Alphabet, turn: Turn): Anchor
    requires turn.Turn?
  {
    Anchor(Strip(u.space, turn.question), if turn.ids.Some? then NonBlank(u, turn.ids.value) else [])
  }

  predicate Asks(u: Alphabet, turn: Turn) {
    turn.Turn? && Strip(u.space, turn.question) != ""
  }

  /** The last of the turns that asks something. */
  function LastAsked(u: Alphabet, turns: seq<Turn>): Option<Anchor> {
    if turns == [] then None
    else if Asks(u, turns[|turns| - 1]) then Some(AnchorOf(u, turns[|turns| - 1]))
    else LastAsked(u, turns[..|turns| - 1])
  }

  /** Some turn is the anchor exactly when it asks something and no later turn does. */
  lemma {:induction false} LastAskedAt(u: Alphabet, turns: seq<Turn>, k: nat)
    requires k < |turns| && Asks(u, turns[k]) && forall j | k < j < |turns| :: !Asks(u, turns[j])
    ensures LastAsked(u, turns) == Some(AnchorOf(u, turns[k]))
  {
    hide Asks, AnchorOf;
    if k < |turns| - 1 {
      assert !Asks(u, turns[|turns| - 1]);
      LastAskedAt(u, turns[..|turns| - 1], k);
    }
  }

  lemma {:induction false} NoneAsked(u: Alphabet, turns: seq<Turn>)
    ensures LastAsked(u, turns).None? <==> forall t | t in turns :: !Asks(u, t)
  {
    hide Asks, AnchorOf;
    if turns != [] {
      var last, front := turns[|turns| - 1], turns[..|turns| - 1];
      assert turns == front + [last];
      NoneAsked(u, front);
    }
  }

  /** Resolution against a given anchor: the retrieval query and, when it was rewritten, the raw one. */
  function Followup(p: Planner, query: string, anchor: Option<Anchor>): (string, Option<string>) {
    if anchor.None? || !IsReferentialFollowup(p, query, anchor.value.question) then (query, None)
    else
      var rewritten := StandaloneQuery(p, query, anchor.value.question, anchor.value.documentIds);
      if rewritten == query then (query, None) else (rewritten, Some(query))
  }

  function FollowupFromHistory(p: Planner, query: string, history: seq<Turn>): (string, Option<string>) {
    Followup(p, query, LastAsked(p.u, Recent(history)))
  }

  method FollowupFromHistoryLoop(p: Planner, query: string, history: seq<Turn>) returns (r: (string, Option<string>))
    ensures r == FollowupFromHistory(p, query, history)
  {
    hide Strip, IsReferentialFollowup, StandaloneQuery, Recent, NonBlank;
    var turns := Recent(history);
    var previousQuestion: Option<string>, previousDocumentIds: seq<string> := None, [];
    var k := |turns|;
    assert turns[..k] == turns;
    while k > 0
      invariant 0 <= k <= |turns|
      invariant LastAsked(p.u, turns) == LastAsked(p.u, turns[..k])
      invariant previousQuestion.None? && previousDocumentIds == []
    {
      assert turns[..k][..k - 1] == turns[..k - 1];
      k := k - 1;
      if !turns[k].Turn? || Strip(p.u.space, turns[k].question) == "" { continue; }
      previousQuestion := Some(Strip(p.u.space, turns[k].question));
      if turns[k].ids.Some? { previousDocumentIds := NonBlank(p.u, turns[k].ids.value); }
      break;
    }
    if previousQuestion.None? { return (query, None); }
    if !IsReferentialFollowup(p, query, previousQuestion.value) { return (query, None); }
    var rewritten := StandaloneQuery(p, query, previousQuestion.value, previousDocumentIds);
    r := if rewritten == query then (query, None) else (rewritten, Some(query));
  }

  /** The raw query is never lost: it is returned alone, or as the intent of a query that properly
      extends it; and it is rewritten exactly when it is a referential follow-up that fails to spell
      some term the anchor named. */
  lemma FollowupCarriesIntent(p: Planner, query: string, anchor: Option<Anchor>)
    ensures var r := Followup(p, query, anchor);
      if r.1.None? then r.0 == query else r.1 == Some(query) && query < r.0
    ensures Followup(p, query, anchor).1.Some? <==>
      && anchor.Some? && IsReferentialFollowup(p, query, anchor.value.question)
      && exists t | t in PreviousTurnSignal(p, anchor.value.question, anchor.value.documentIds) :: !Spelled(p.u, t, query)
  {
    hide Spelled, IsReferentialFollowup, PreviousTurnSignal, WithSignal;
    if anchor.Some? {
      UnchangedExactly(p.u, query, PreviousTurnSignal(p, anchor.value.question, anchor.value.documentIds));
    }
  }

  /** Only the last five usable turns matter: an older turn, and an item that is no turn, changes
      nothing. */
  lemma OnlyRecentTurnsMatter(p: Planner, query: string, older: seq<Turn>, recent: seq<Turn>)
    requires |Usable(recent)| >= MAX_HISTORY_TURNS
    ensures FollowupFromHistory(p, query, older + recent) == FollowupFromHistory(p, query, recent)
  {
    hide Followup, LastAsked, Usable;
    UsableConcat(older, recent);
    assert Recent(older + recent) == Recent(recent);
  }

  lemma {:induction false} UsableConcat(a: seq<Turn>, b: seq<Turn>)
    ensures Usable(a + b) == Usable(a) + Usable(b)
  {
    if a == [] {
      assert a + b == b;
    } else {
      assert (a + b)[1..] == a[1..] + b && (a + b)[0] == a[0];
      UsableConcat(a[1..], b);
    }
  }

  /** A blank turn after the anchor changes nothing while the anchor stays within reach. */
  lemma BlankTurnIsSkipped(p: Planner, query: string, history: seq<Turn>, blank: Turn)
    requires !Asks(p.u, blank) && |Usable(history)| < MAX_HISTORY_TURNS
    ensures FollowupFromHistory(p, query, history + [blank]) == FollowupFromHistory(p, query, history)
  {
    hide Followup, Asks, AnchorOf;
    UsableConcat(history, [blank]);
    assert Usable([blank]) == if blank.Turn? then [blank] else [];
    var turns := Usable(history);
    assert (turns + [blank])[..|turns|] == turns;
    assert turns + [] == turns;
  }
}
