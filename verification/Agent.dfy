/** The agentic rung L4: a bounded loop steered by an untrusted decision maker
    (src/raku_rag/chatbot/agent.py). */
module Agent {
  import opened Common
  import opened Envelope
  import opened Ladder

  /** What a decision maker returns; `Junk` is anything that is not a recognised action. */
  datatype Decision = Retrieve(query: string) | Finish | Junk | Raised

  datatype Observation = Observation(query: string, status: string, answerable: bool, citationIds: set<string>)

  /** The engine and its surroundings. The decision maker sees the observations made so far, and with
      them how often it was asked; the inner engine may remember every earlier turn it was given. */
  datatype Agent = Agent(
    lexer: Lexer,
    decide: Option<(string, DialogueContext, seq<Observation>) -> Decision>,
    highRisk: Option<string -> bool>,
    maxHops: int,
    inner: (seq<Turn>, Turn) -> Answer)

  /** Construction fails below one hop. */
  function Construct(a: Agent): Result<Agent, string> {
    if a.maxHops < 1 then Err("max_hops must be >= 1") else Ok(a)
  }

  function ObservationFrom(lx: Lexer, hopQuery: string, answer: Answer): Observation {
    Observation(hopQuery, answer.status, answer.status == "ok" && answer.citations != [], CitationIdValues(lx, answer.citations))
  }

  /** What the inner engine answered to the last of these calls. */
  function LastAnswer(a: Agent, calls: seq<Turn>): Answer
    requires calls != []
  {
    a.inner(calls[..|calls| - 1], calls[|calls| - 1])
  }

  function Observations(a: Agent, calls: seq<Turn>): seq<Observation> {
    if calls == [] then []
    else Observations(a, calls[..|calls| - 1]) + [ObservationFrom(a.lexer, calls[|calls| - 1].query, LastAnswer(a, calls))]
  }

  /** What the decision maker proposes once these calls have been made. */
  function Proposal(a: Agent, turn: Turn, calls: seq<Turn>): Decision
    requires a.decide.Some?
  {
    a.decide.value(turn.query, turn.context, Observations(a, calls))
  }

  predicate Flagged(a: Agent, query: string) {
    a.highRisk.Some? && a.highRisk.value(query)
  }

  /** The calls still to come once `calls` have been made, with `left` hops to go. */
  function Hops(a: Agent, turn: Turn, calls: seq<Turn>, left: nat): seq<Turn>
    requires a.decide.Some?
    decreases left
  {
    var settled := if calls == [] then [turn] else calls;
    if left == 0 then settled
    else
      match Proposal(a, turn, calls)
      case Retrieve(query) =>
        if Flagged(a, query) then calls + [turn]
        else Hops(a, turn, calls + [turn.(query := query)], left - 1)
      case _ => settled
  }

  /** The three ways a hop can go. */
  lemma HopsUnfold(a: Agent, turn: Turn, calls: seq<Turn>, left: nat)
    requires a.decide.Some? && left > 0
    ensures var proposal := Proposal(a, turn, calls);
      Hops(a, turn, calls, left) ==
        if !proposal.Retrieve? then (if calls == [] then [turn] else calls)
        else if Flagged(a, proposal.query) then calls + [turn]
        else Hops(a, turn, calls + [turn.(query := proposal.query)], left - 1)
  {
    hide Observations, Flagged;
  }

  lemma HopsEnd(a: Agent, turn: Turn, calls: seq<Turn>)
    requires a.decide.Some?
    ensures Hops(a, turn, calls, 0) == if calls == [] then [turn] else calls
    ensures Observations(a, []) == []
  {
  }

  lemma ObservationsStep(a: Agent, calls: seq<Turn>, next: Turn)
    ensures LastAnswer(a, calls + [next]) == a.inner(calls, next)
    ensures Observations(a, calls + [next]) == Observations(a, calls) + [ObservationFrom(a.lexer, next.query, a.inner(calls, next))]
  {
    hide ObservationFrom;
    assert (calls + [next])[..|calls|] == calls;
  }

  function Calls(a: Agent, turn: Turn): seq<Turn>
    requires Construct(a).Ok?
  {
    if a.decide.None? then [turn] else Hops(a, turn, [], a.maxHops)
  }

  /** The loop of the engine; `calls` records the turns handed to the inner engine. */
  method AnswerLoop(a: Agent, turn: Turn) returns (answer: Answer, calls: seq<Turn>)
    requires Construct(a).Ok?
    ensures calls == Calls(a, turn) && calls != [] && answer == LastAnswer(a, calls)
  {
    hide Hops, Observations, ObservationFrom;
    calls := [];
    assert [turn][..0] == [];
    if a.decide.None? {
      answer := a.inner([], turn);
      return answer, [turn];
    }
    HopsEnd(a, turn, []);
    var observations: seq<Observation> := [];
    var lastAnswer: Option<Answer> := None;
    var hop := 0;
    while hop < a.maxHops
      invariant 0 <= hop <= a.maxHops
      invariant Hops(a, turn, calls, a.maxHops - hop) == Calls(a, turn)
      invariant observations == Observations(a, calls)
      invariant lastAnswer == if calls == [] then None else Some(LastAnswer(a, calls))
    {
      var decision := a.decide.value(turn.query, turn.context, observations);
      HopsUnfold(a, turn, calls, a.maxHops - hop);
      if !decision.Retrieve? { break; }
      if a.highRisk.Some? && a.highRisk.value(decision.query) {
        answer := a.inner(calls, turn);
        return answer, calls + [turn];
      }
      var next := turn.(query := decision.query);
      var hopAnswer := a.inner(calls, next);
      ObservationsStep(a, calls, next);
      calls := calls + [next];
      lastAnswer := Some(hopAnswer);
      observations := observations + [ObservationFrom(a.lexer, decision.query, hopAnswer)];
      hop := hop + 1;
    }
    HopsEnd(a, turn, calls);
    if lastAnswer.Some? { return lastAnswer.value, calls; }
    answer := a.inner([], turn);
    calls := [turn];
  }

  // ----- What every run keeps -----

  /** Call `k` is an unflagged proposal made after the calls before it. */
  ghost predicate IsHop(a: Agent, turn: Turn, calls: seq<Turn>, k: nat)
    requires a.decide.Some? && k < |calls|
  {
    var proposal := Proposal(a, turn, calls[..k]);
    proposal.Retrieve? && !Flagged(a, proposal.query) && calls[k] == turn.(query := proposal.query)
  }

  /** After these calls the decision maker stops: it proposes nothing to retrieve. */
  ghost predicate Stops(a: Agent, turn: Turn, calls: seq<Turn>)
    requires a.decide.Some?
  {
    !Proposal(a, turn, calls).Retrieve?
  }

  ghost predicate Trips(a: Agent, turn: Turn, calls: seq<Turn>)
    requires a.decide.Some?
  {
    Proposal(a, turn, calls).Retrieve? && Flagged(a, Proposal(a, turn, calls).query)
  }

  /** What a run may be, told without the loop. Every call but the last is a hop. The last call is a
      hop after which the decision maker stops or the hops are used up; or it is the turn itself,
      because a flagged query was proposed there or nothing at all was ever retrieved. */
  ghost predicate Admissible(a: Agent, turn: Turn, calls: seq<Turn>)
    requires Construct(a).Ok? && a.decide.Some?
  {
    && 1 <= |calls| <= a.maxHops
    && (forall k | 0 <= k < |calls| - 1 :: IsHop(a, turn, calls, k))
    && var before := calls[..|calls| - 1];
      || (IsHop(a, turn, calls, |calls| - 1) && (|calls| == a.maxHops || Stops(a, turn, calls)))
      || (calls[|calls| - 1] == turn && Trips(a, turn, before))
      || (calls == [turn] && Stops(a, turn, []))
  }

  lemma {:induction false} HopsAdmissible(a: Agent, turn: Turn, calls: seq<Turn>, left: nat)
    requires Construct(a).Ok? && a.decide.Some? && |calls| + left == a.maxHops
    requires forall k | 0 <= k < |calls| :: IsHop(a, turn, calls, k)
    ensures Admissible(a, turn, Hops(a, turn, calls, left))
    decreases left
  {
    hide Observations, ObservationFrom;
    if left > 0 {
      var proposal := Proposal(a, turn, calls);
      if proposal.Retrieve? {
        var next := calls + [if Flagged(a, proposal.query) then turn else turn.(query := proposal.query)];
        assert next[..|calls|] == calls;
        forall k | 0 <= k < |calls| ensures IsHop(a, turn, next, k) {
          assert next[..k] == calls[..k] && IsHop(a, turn, calls, k);
        }
        if !Flagged(a, proposal.query) {
          HopsAdmissible(a, turn, next, left - 1);
        }
      }
    }
    if calls != [] {
      assert IsHop(a, turn, calls, |calls| - 1);
    }
    assert calls[..|calls|] == calls;
  }

  /** An admissible run is the one the loop makes, from any point of it on. */
  lemma {:induction false} AdmissibleIsRun(a: Agent, turn: Turn, run: seq<Turn>, k: nat)
    requires Construct(a).Ok? && a.decide.Some? && Admissible(a, turn, run) && k < |run|
    ensures Hops(a, turn, run[..k], a.maxHops - k) == run
    decreases |run| - k
  {
    hide Observations, ObservationFrom;
    assert run[..k] + [run[k]] == run[..k + 1];
    if k < |run| - 1 {
      assert IsHop(a, turn, run, k);
      AdmissibleIsRun(a, turn, run, k + 1);
    } else {
      assert run[..k + 1] == run;
    }
  }

  /** The description is exact: a sequence of inner calls is admissible exactly when it is the one
      the loop makes. */
  lemma RunExactly(a: Agent, turn: Turn, calls: seq<Turn>)
    requires Construct(a).Ok? && a.decide.Some?
    ensures Admissible(a, turn, calls) <==> calls == Calls(a, turn)
  {
    hide Observations, ObservationFrom, Hops, Admissible;
    HopsAdmissible(a, turn, [], a.maxHops);
    if Admissible(a, turn, calls) {
      AdmissibleNonEmpty(a, turn, calls);
      AdmissibleIsRun(a, turn, calls, 0);
      assert calls[..0] == [];
    }
  }

  lemma AdmissibleNonEmpty(a: Agent, turn: Turn, calls: seq<Turn>)
    requires Construct(a).Ok? && a.decide.Some? && Admissible(a, turn, calls)
    ensures calls != []
  {
  }

  /** Safety of every run: between one and `maxHops` inner calls, each for the turn's own principal,
      collection and context and asking the turn's query or an unflagged one. */
  lemma EveryRunIsSafe(a: Agent, turn: Turn)
    requires Construct(a).Ok?
    ensures 1 <= |Calls(a, turn)| <= a.maxHops
    ensures forall call | call in Calls(a, turn) ::
      call == turn.(query := call.query) && (call.query == turn.query || !Flagged(a, call.query))
  {
    if a.decide.Some? {
      var calls := Calls(a, turn);
      RunExactly(a, turn, calls);
      hide Observations, ObservationFrom, Hops, Calls;
      forall call | call in calls
        ensures call == turn.(query := call.query) && (call.query == turn.query || !Flagged(a, call.query))
      {
        var k :| 0 <= k < |calls| && calls[k] == call;
        assert k == |calls| - 1 || IsHop(a, turn, calls, k);
      }
    }
  }

  /** A flagged proposal ends the run there, on the inner engine's answer to the original turn. */
  lemma FlaggedProposalFallsBack(a: Agent, turn: Turn, k: nat)
    requires Construct(a).Ok? && a.decide.Some? && k <= |Calls(a, turn)| && k < a.maxHops
    requires Trips(a, turn, Calls(a, turn)[..k]) && forall i | 0 <= i < k :: IsHop(a, turn, Calls(a, turn), i)
    ensures |Calls(a, turn)| == k + 1 && Calls(a, turn)[k] == turn
    ensures LastAnswer(a, Calls(a, turn)) == a.inner(Calls(a, turn)[..k], turn)
  {
    var calls := Calls(a, turn);
    RunExactly(a, turn, calls);
    var expected := calls[..k] + [turn];
    assert expected[..k] == calls[..k];
    forall i | 0 <= i < k ensures IsHop(a, turn, expected, i) {
      assert expected[..i] == calls[..i] && IsHop(a, turn, calls, i);
    }
    hide Observations, ObservationFrom, Hops, Calls, IsHop;
    assert Admissible(a, turn, expected);
    RunExactly(a, turn, expected);
  }

  // ----- What the decision maker sees -----

  /** One observation a call, in order: the query asked, the status of its answer, whether that is an
      answer with citations, and the ids those name. */
  ghost predicate Observed(a: Agent, calls: seq<Turn>, seen: seq<Observation>) {
    && |seen| == |calls|
    && forall k | 0 <= k < |calls| ::
         var answer := a.inner(calls[..k], calls[k]);
         && seen[k].query == calls[k].query && seen[k].status == answer.status
         && (seen[k].answerable <==> answer.status == "ok" && answer.citations != [])
         && seen[k].citationIds == CitationIdValues(a.lexer, answer.citations)
  }

  lemma {:induction false} ObservedExactly(a: Agent, calls: seq<Turn>)
    ensures Observed(a, calls, Observations(a, calls))
  {
    hide CitationIdValues;
    if calls != [] {
      var front := calls[..|calls| - 1];
      ObservedExactly(a, front);
      forall k | 0 <= k < |front| ensures calls[..k] == front[..k] {}
    }
  }

  /** An agent can be built with at least one hop. The decision maker is asked with the turn's own query and
      context and these observations, and a proposal is flagged when there is a classifier that flags
      it. */
  lemma ProposalExactly(a: Agent, turn: Turn, calls: seq<Turn>, seen: seq<Observation>, query: string)
    requires a.decide.Some? && Observed(a, calls, seen)
    ensures Construct(a).Ok? <==> a.maxHops > 0
    ensures Proposal(a, turn, calls) == a.decide.value(turn.query, turn.context, seen)
    ensures !Flagged(a, query) <==> a.highRisk.None? || !a.highRisk.value(query)
  {
    hide CitationIdValues;
    ObservedExactly(a, calls);
    var made := Observations(a, calls);
    forall k | 0 <= k < |calls| ensures seen[k] == made[k] {}
    assert seen == made;
  }
}
