/** The answer-engine ladder L0 to L3: nested engines around one untrusted answerer
    (src/raku_rag/chatbot/answer_engine.py, envelope.py, coreference.py, composition.py). */
module Ladder {
  import opened Common
  import opened Coreference
  import opened Envelope
  import opened ResidualTopic
  import opened FollowupHistory

  datatype Answer = Answer(status: string, text: string, citations: seq<Citation>, other: map<string, string>)

  datatype DialogueContext = DialogueContext(
    collectionId: Option<string>, previousQuestion: Option<string>, previousAnswer: Option<string>,
    previousCitations: seq<Citation>, previousDocumentIds: seq<string>, sourcePolicyIds: seq<string>,
    previousSourceAnswerText: Option<string>, intentQuery: Option<string>)

  datatype Turn = Turn(principal: string, query: string, collectionId: Option<string>, context: DialogueContext)

  /** What reaches the answerer. */
  datatype Call = Call(principal: string, query: string, collectionId: Option<string>, intentQuery: Option<string>)

  /** A stack of engines. A language model gets the query and the answer text and returns None when it
      raises; a gate's verdict is None when it raises. */
  datatype Engine =
    | L0(acceptsIntent: bool)
    | L1(inner: Engine, llm: Option<(string, string) -> Option<string>>)
    | L2(inner: Engine)
    | L3(inner: Engine, gate: (string, seq<Citation>) -> Option<bool>)

  datatype Env = Env(planner: Planner, lexer: Lexer, answerer: Call -> Answer) {
    ghost predicate Valid() { planner.Valid() && lexer.Valid() }
  }

  /** The engine's answer and the calls it made to the answerer, in order. */
  datatype Outcome = Outcome(answer: Answer, calls: seq<Call>)

  function OrEmpty(s: Option<string>): string {
    if s.Some? then s.value else ""
  }

  function AnswerFromPreviousTurn(lx: Lexer, context: DialogueContext): Option<Answer> {
    if context.previousCitations == [] then None
    else
      var source := if OrEmpty(context.previousSourceAnswerText) != "" then OrEmpty(context.previousSourceAnswerText)
        else OrEmpty(context.previousAnswer);
      var text := Strip(lx.space, source);
      if text == "" then None else Some(Answer("ok", text, context.previousCitations, map[]))
  }

  /** The envelope around an answer, or None when the engine returns the answer as it is. */
  function Envelop(lx: Lexer, llm: Option<(string, string) -> Option<string>>, query: string, answer: Answer): Option<string> {
    if llm.None? || Strip(lx.space, answer.text) == "" then None
    else
      var raw := llm.value(query, answer.text);
      if raw.None? then None
      else
        var parsed := ParseEnvelopeResponse(lx, raw.value);
        if parsed.None? then None
        else
          var final := Assemble(parsed.value.0, answer.text, parsed.value.1);
          if IsEnvelopeGrounded(lx, final, answer.text, answer.citations) then Some(final) else None
  }

  function Enveloped(lx: Lexer, llm: Option<(string, string) -> Option<string>>, query: string, r: Outcome): Outcome {
    var final := Envelop(lx, llm, query, r.answer);
    if final.None? then r else r.(answer := r.answer.(text := final.value))
  }

  function Answered(env: Env, e: Engine, turn: Turn): Outcome
    decreases e
  {
    match e
    case L0(acceptsIntent) =>
      var call := FloorCall(acceptsIntent, turn);
      Outcome(env.answerer(call), [call])
    case L1(inner, llm) =>
      Enveloped(env.lexer, llm, turn.query, Answered(env, inner, turn))
    case L2(inner) =>
      var previous := OrEmpty(turn.context.previousQuestion);
      if !IsReferentialFollowup(env.planner, turn.query, previous) then Answered(env, inner, turn)
      else
        var reused := if HasOwnTopic(env.planner.u, turn.query) then None
          else AnswerFromPreviousTurn(env.lexer, turn.context);
        if reused.Some? then Outcome(reused.value, [])
        else
          var rewritten := StandaloneQuery(env.planner, turn.query, previous, turn.context.previousDocumentIds);
          if rewritten == turn.query then Answered(env, inner, turn)
          else Answered(env, inner, turn.(query := rewritten, context := turn.context.(intentQuery := Some(turn.query))))
    case L3(inner, gate) =>
      var r := Answered(env, inner, turn);
      if r.answer.status != "ok" || Strip(env.lexer.space, r.answer.text) == "" then r
      else
        // Passing, failing and raising all leave the answer alone.
        match gate(r.answer.text, r.answer.citations)
        case _ => r
  }

  function FloorCall(acceptsIntent: bool, turn: Turn): Call {
    var intent := turn.context.intentQuery;
    Call(turn.principal, turn.query, turn.collectionId,
         if acceptsIntent && intent.Some? && intent.value != turn.query then intent else None)
  }

  function Floor(e: Engine): bool {
    match e
    case L0(acceptsIntent) => acceptsIntent
    case L1(inner, _) => Floor(inner)
    case L2(inner) => Floor(inner)
    case L3(inner, _) => Floor(inner)
  }

  function Rewriters(e: Engine): nat {
    match e
    case L0(_) => 0
    case L1(inner, _) => Rewriters(inner)
    case L2(inner) => 1 + Rewriters(inner)
    case L3(inner, _) => Rewriters(inner)
  }

  // ----- The raw intent survives -----

  function Previous(turn: Turn): Anchor {
    Anchor(OrEmpty(turn.context.previousQuestion), turn.context.previousDocumentIds)
  }

  function Signal(p: Planner, turn: Turn): seq<string> {
    PreviousTurnSignal(p, Previous(turn).question, Previous(turn).documentIds)
  }

  /** A turn that the rewriters of the stack leave alone: there is none, or the query already spells
      the whole signal. */
  ghost predicate LeftAlone(env: Env, e: Engine, turn: Turn) {
    Rewriters(e) == 0 || WithSignal(env.planner.u, turn.query, Signal(env.planner, turn)) == turn.query
  }

  lemma {:induction false} LeftAloneCalls(env: Env, e: Engine, turn: Turn)
    requires LeftAlone(env, e, turn)
    ensures Answered(env, e, turn).calls in {[], [FloorCall(Floor(e), turn)]}
    ensures Rewriters(e) == 0 ==> Answered(env, e, turn).calls != []
    decreases e
  {
    hide IsReferentialFollowup, HasOwnTopic, AnswerFromPreviousTurn, Envelop, PreviousTurnSignal, WithSignal;
    match e {
      case L0(_) =>
      case L1(inner, _) => LeftAloneCalls(env, inner, turn);
      case L2(inner) => LeftAloneCalls(env, inner, turn);
      case L3(inner, _) => LeftAloneCalls(env, inner, turn);
    }
  }

  /** What the floor of the stack is told: the query and intent that `Followup` computes for the same
      previous turn, the intent only if the answerer takes one. */
  function ResolvedCall(env: Env, e: Engine, turn: Turn): Call {
    var f := Followup(env.planner, turn.query, Some(Previous(turn)));
    Call(turn.principal, f.0, turn.collectionId, if Floor(e) then f.1 else None)
  }

  /** Repeated rewriting cannot go wrong: there is at most one rewriter, or every signal term is
      case-folded, so that rewriting is idempotent. */
  ghost predicate RewritesOnce(env: Env, e: Engine, turn: Turn) {
    Rewriters(e) <= 1 || forall t | t in Signal(env.planner, turn) :: Folded(env.planner.u, t)
  }

  lemma RewrittenIsLeftAlone(env: Env, inner: Engine, turn: Turn, next: Turn)
    requires env.Valid() && RewritesOnce(env, L2(inner), turn)
    requires next == turn.(query := WithSignal(env.planner.u, turn.query, Signal(env.planner, turn)),
                           context := turn.context.(intentQuery := Some(turn.query)))
    ensures LeftAlone(env, inner, next)
  {
    hide PreviousTurnSignal, WithSignal, Folded;
    if Rewriters(inner) > 0 {
      IdempotentExactly(env.planner, turn.query, Signal(env.planner, turn));
      assert Signal(env.planner, next) == Signal(env.planner, turn);
    }
  }

  /** For every stack and every fresh turn, the answerer is called at most once, for the turn's own
      principal and collection, with exactly the query and intent that history resolution yields for
      the same previous turn (or with the raw query alone, when the stack rewrites nothing). */
  lemma {:induction false} RawIntentSurvives(env: Env, e: Engine, turn: Turn)
    requires env.Valid() && turn.context.intentQuery.None? && RewritesOnce(env, e, turn)
    ensures Answered(env, e, turn).calls in
      {[], [if Rewriters(e) == 0 then Call(turn.principal, turn.query, turn.collectionId, None) else ResolvedCall(env, e, turn)]}
    decreases e
  {
    hide IsReferentialFollowup, HasOwnTopic, AnswerFromPreviousTurn, Envelop, PreviousTurnSignal, WithSignal, Folded;
    match e {
      case L0(_) =>
      case L1(inner, _) => RawIntentSurvives(env, inner, turn);
      case L3(inner, _) => RawIntentSurvives(env, inner, turn);
      case L2(inner) =>
        RawIntentSurvives(env, inner, turn);
        var rewritten := StandaloneQuery(env.planner, turn.query, Previous(turn).question, Previous(turn).documentIds);
        if rewritten != turn.query {
          var next := turn.(query := rewritten, context := turn.context.(intentQuery := Some(turn.query)));
          RewrittenIsLeftAlone(env, inner, turn, next);
          LeftAloneCalls(env, inner, next);
        }
    }
  }

  /** The same pair the answer endpoint computes from client history whose last usable turn is this
      context's previous turn; its query extends the raw one and its intent, if any, is the raw one. */
  lemma AgreesWithHistory(env: Env, e: Engine, turn: Turn, history: seq<FollowupHistory.Turn>)
    requires env.Valid() && turn.context.intentQuery.None? && RewritesOnce(env, e, turn) && Rewriters(e) > 0
    requires LastAsked(env.planner.u, Recent(history)) == Some(Previous(turn))
    ensures var f := FollowupFromHistory(env.planner, turn.query, history);
      forall call | call in Answered(env, e, turn).calls ::
        && call == Call(turn.principal, f.0, turn.collectionId, if Floor(e) then f.1 else None)
        && turn.query <= call.query
        && (call.intentQuery.Some? ==> call.intentQuery.value == turn.query)
        && (Floor(e) && call.query != turn.query ==> call.intentQuery.Some?)
  {
    hide Answered, RewritesOnce, LastAsked, Recent, Followup, Rewriters, IsReferentialFollowup, PreviousTurnSignal, Spelled;
    RawIntentSurvives(env, e, turn);
    FollowupCarriesIntent(env.planner, turn.query, Some(Previous(turn)));
  }

  /** With one rewriter, the answerer is spared exactly on a follow-up without a topic of its own
      whose previous turn left something to reuse. */
  lemma {:induction false} SparedExactly(env: Env, e: Engine, turn: Turn)
    requires Rewriters(e) == 1
    ensures Answered(env, e, turn).calls == [] <==>
      && IsReferentialFollowup(env.planner, turn.query, Previous(turn).question)
      && !HasOwnTopic(env.planner.u, turn.query)
      && AnswerFromPreviousTurn(env.lexer, turn.context).Some?
    decreases e
  {
    hide IsReferentialFollowup, HasOwnTopic, AnswerFromPreviousTurn, Envelop, PreviousTurnSignal, WithSignal;
    match e {
      case L0(_) =>
      case L1(inner, _) => SparedExactly(env, inner, turn);
      case L3(inner, _) => SparedExactly(env, inner, turn);
      case L2(inner) =>
        var rewritten := StandaloneQuery(env.planner, turn.query, Previous(turn).question, Previous(turn).documentIds);
        LeftAloneCalls(env, inner, turn);
        LeftAloneCalls(env, inner, turn.(query := rewritten, context := turn.context.(intentQuery := Some(turn.query))));
    }
  }

  /** The rewriters of a stack over its floor. */
  function Skeleton(e: Engine): Engine {
    match e
    case L0(_) => e
    case L1(inner, _) => Skeleton(inner)
    case L2(inner) => L2(Skeleton(inner))
    case L3(inner, _) => Skeleton(inner)
  }

  /** Envelopes and composition checks never change what is called. */
  lemma {:induction false} SkeletonCalls(env: Env, e: Engine, turn: Turn)
    ensures Answered(env, e, turn).calls == Answered(env, Skeleton(e), turn).calls
    decreases e
  {
    hide IsReferentialFollowup, HasOwnTopic, AnswerFromPreviousTurn, Envelop, PreviousTurnSignal, WithSignal;
    match e {
      case L0(_) =>
      case L1(inner, _) => SkeletonCalls(env, inner, turn);
      case L3(inner, _) => SkeletonCalls(env, inner, turn);
      case L2(inner) =>
        SkeletonCalls(env, inner, turn);
        var rewritten := StandaloneQuery(env.planner, turn.query, Previous(turn).question, Previous(turn).documentIds);
        SkeletonCalls(env, inner, turn.(query := rewritten, context := turn.context.(intentQuery := Some(turn.query))));
    }
  }

  lemma {:induction false} SkeletonShape(e: Engine)
    ensures Rewriters(e) == 0 ==> Skeleton(e) == L0(Floor(e))
    ensures Rewriters(e) == 1 ==> Skeleton(e) == L2(L0(Floor(e)))
    ensures Rewriters(e) == 2 ==> Skeleton(e) == L2(L2(L0(Floor(e))))
    decreases e
  {
    match e {
      case L0(_) =>
      case L1(inner, _) => SkeletonShape(inner);
      case L2(inner) => SkeletonShape(inner);
      case L3(inner, _) => SkeletonShape(inner);
    }
  }

  /** A rewriter that sees this query answers from the previous turn instead of calling. */
  predicate Spared(env: Env, turn: Turn, query: string) {
    !HasOwnTopic(env.planner.u, query) && AnswerFromPreviousTurn(env.lexer, turn.context).Some?
  }

  /** The answerer is told a changed query without the intent the user had. */
  ghost predicate LosesIntent(env: Env, e: Engine, turn: Turn) {
    exists call | call in Answered(env, e, turn).calls :: call.query != turn.query && call.intentQuery != Some(turn.query)
  }

  /** For every stack with two rewriters over an answerer that takes intents, and every fresh turn: the
      raw intent is lost exactly when both rewriters act, that is, the query and its rewriting are both
      referential and neither is spared, and some signal term is not case-folded. */
  lemma DoubleRewriteLosesIntentExactly(env: Env, e: Engine, turn: Turn)
    requires env.Valid() && Rewriters(e) == 2 && Floor(e) && turn.context.intentQuery.None?
    ensures var rewritten := WithSignal(env.planner.u, turn.query, Signal(env.planner, turn));
      LosesIntent(env, e, turn) <==>
      && IsReferentialFollowup(env.planner, turn.query, Previous(turn).question) && !Spared(env, turn, turn.query)
      && IsReferentialFollowup(env.planner, rewritten, Previous(turn).question) && !Spared(env, turn, rewritten)
      && exists t | t in Signal(env.planner, turn) :: !Folded(env.planner.u, t)
  {
    SkeletonCalls(env, e, turn);
    SkeletonShape(e);
    DoubleRewriter(env, turn);
    hide *;
  }

  lemma DoubleRewriter(env: Env, turn: Turn)
    requires env.Valid() && turn.context.intentQuery.None?
    ensures var rewritten := WithSignal(env.planner.u, turn.query, Signal(env.planner, turn));
      LosesIntent(env, L2(L2(L0(true))), turn) <==>
      && IsReferentialFollowup(env.planner, turn.query, Previous(turn).question) && !Spared(env, turn, turn.query)
      && IsReferentialFollowup(env.planner, rewritten, Previous(turn).question) && !Spared(env, turn, rewritten)
      && exists t | t in Signal(env.planner, turn) :: !Folded(env.planner.u, t)
  {
    hide IsReferentialFollowup, HasOwnTopic, AnswerFromPreviousTurn, PreviousTurnSignal, WithSignal, Folded;
    var signal := Signal(env.planner, turn);
    var once := WithSignal(env.planner.u, turn.query, signal);
    var twice := WithSignal(env.planner.u, once, signal);
    IdempotentExactly(env.planner, turn.query, signal);
    RewriteGrows(env.planner, turn.query, signal);
    var second := turn.(query := once, context := turn.context.(intentQuery := Some(turn.query)));
    assert Signal(env.planner, second) == signal;
    assert AnswerFromPreviousTurn(env.lexer, second.context) == AnswerFromPreviousTurn(env.lexer, turn.context) by {
      SameReuse(env.lexer, turn.context, Some(turn.query));
    }
    InnerCalls(env, turn);
    InnerCalls(env, second);
    OuterCalls(env, turn, second);
  }

  lemma SameReuse(lx: Lexer, context: DialogueContext, intent: Option<string>)
    ensures AnswerFromPreviousTurn(lx, context.(intentQuery := intent)) == AnswerFromPreviousTurn(lx, context)
  {
  }

  /** A signal term that is not case-folded makes every rewriting longer. */
  lemma RewriteGrows(p: Planner, query: string, signal: seq<string>)
    requires p.Valid()
    ensures query <= WithSignal(p.u, query, signal) <= WithSignal(p.u, WithSignal(p.u, query, signal), signal)
    ensures (exists t | t in signal :: !Folded(p.u, t)) ==> WithSignal(p.u, query, signal) != query
  {
    UnchangedExactly(p.u, query, signal);
    UnchangedExactly(p.u, WithSignal(p.u, query, signal), signal);
    if t :| t in signal && !Folded(p.u, t) { UnfoldedNeverSpelled(p, t, query); }
  }

  /** The calls of a single rewriter over the floor. */
  lemma InnerCalls(env: Env, turn: Turn)
    ensures var rewritten := WithSignal(env.planner.u, turn.query, Signal(env.planner, turn));
      Answered(env, L2(L0(true)), turn).calls ==
        if !IsReferentialFollowup(env.planner, turn.query, Previous(turn).question) then [FloorCall(true, turn)]
        else if Spared(env, turn, turn.query) then []
        else if rewritten == turn.query then [FloorCall(true, turn)]
        else [FloorCall(true, turn.(query := rewritten, context := turn.context.(intentQuery := Some(turn.query))))]
  {
    hide IsReferentialFollowup, HasOwnTopic, AnswerFromPreviousTurn, PreviousTurnSignal, WithSignal;
  }

  lemma OuterCalls(env: Env, turn: Turn, second: Turn)
    requires second == turn.(query := WithSignal(env.planner.u, turn.query, Signal(env.planner, turn)),
                             context := turn.context.(intentQuery := Some(turn.query)))
    ensures Answered(env, L2(L2(L0(true))), turn).calls ==
      if !IsReferentialFollowup(env.planner, turn.query, Previous(turn).question) then Answered(env, L2(L0(true)), turn).calls
      else if Spared(env, turn, turn.query) then []
      else if second.query == turn.query then Answered(env, L2(L0(true)), turn).calls
      else Answered(env, L2(L0(true)), second).calls
  {
    hide IsReferentialFollowup, HasOwnTopic, AnswerFromPreviousTurn, PreviousTurnSignal, WithSignal;
  }

  /** A losing turn: a bare referential marker after a turn that named no identifier and cited one
      document whose id has a capital letter. */
  lemma CapitalIdLosesIntent(env: Env, e: Engine, turn: Turn, marker: string, id: string, question: string)
    requires env.Valid() && Rewriters(e) == 2 && Floor(e) && turn.context.intentQuery.None?
    requires marker in ReferentialMarkers() && OneWord(env.planner.u, marker)
    requires OneWord(env.planner.u, id) && !Folded(env.planner.u, id) && |marker| + 1 + |id| <= MAX_REFERENTIAL_FOLLOWUP_LENGTH
    requires turn.query == marker && turn.context.previousQuestion == Some(question) && question != ""
    requires turn.context.previousDocumentIds == [id] && turn.context.previousCitations == []
    requires env.planner.NamedIdentifiers(question) == [] && env.planner.NamedIdentifiers(marker) == []
    requires env.planner.NamedIdentifiers(marker + " " + id) == []
    ensures LosesIntent(env, e, turn)
  {
    assert env.planner.Valid();
    hide *;
    NothingToReuse(env, turn, id, question);
    BothReferential(env.planner, marker, id, question);
    RewrittenSignal(env.planner, turn, id);
    DoubleRewriteLosesIntentExactly(env, e, turn);
  }

  /** A bare marker and the marker with one more word are both referential. */
  lemma BothReferential(p: Planner, marker: string, id: string, question: string)
    requires p.Valid() && marker in ReferentialMarkers() && OneWord(p.u, marker) && OneWord(p.u, id) && question != ""
    requires |marker| + 1 + |id| <= MAX_REFERENTIAL_FOLLOWUP_LENGTH
    requires p.NamedIdentifiers(marker) == [] && p.NamedIdentifiers(marker + " " + id) == []
    ensures IsReferentialFollowup(p, marker, question) && IsReferentialFollowup(p, marker + " " + id, question)
  {
    hide *;
    JoinOfTwo(marker, id);
    MarkerIsReferential(p, marker, [marker], question);
    MarkerIsReferential(p, marker, [marker, id], question);
  }

  lemma RewrittenSignal(p: Planner, turn: Turn, id: string)
    requires p.Valid() && Signal(p, turn) == [id] && !Folded(p.u, id)
    ensures WithSignal(p.u, turn.query, Signal(p, turn)) == turn.query + " " + id
    ensures exists t | t in Signal(p, turn) :: !Folded(p.u, t)
  {
    hide *;
    RewriteWithOne(p, turn.query, id);
    assert id in [id];
  }

  lemma NothingToReuse(env: Env, turn: Turn, id: string, question: string)
    requires turn.context.previousQuestion == Some(question) && turn.context.previousCitations == []
    requires turn.context.previousDocumentIds == [id] && env.planner.NamedIdentifiers(question) == []
    ensures forall query :: !Spared(env, turn, query)
    ensures Previous(turn).question == question && Signal(env.planner, turn) == [id]
  {
    hide HasOwnTopic;
  }

  lemma JoinOfTwo(a: string, b: string)
    ensures JoinSpaced([a, b]) == a + " " + b && JoinSpaced([a]) == a
  {
    assert [a, b][1..] == [b];
  }

  // ----- No stack adds a fact -----

  /** The stack with its language models switched off. */
  function Bare(e: Engine): Engine {
    match e
    case L0(_) => e
    case L1(inner, _) => L1(Bare(inner), None)
    case L2(inner) => L2(Bare(inner))
    case L3(inner, gate) => L3(Bare(inner), gate)
  }

  /** What the citations of an answer contribute to the facts an envelope may repeat. */
  function CitedIds(lx: Lexer, answer: Answer): set<string> {
    lx.ids(CitationSurface(answer.citations)) + CitationIdValues(lx, answer.citations)
  }

  ghost predicate NoNewFacts(lx: Lexer, base: Answer, text: string) {
    && Occurs(base.text, text)
    && NumericTokens(lx, text) <= NumericTokens(lx, base.text) + NumericTokens(lx, CitationSurface(base.citations))
    && lx.ids(text) <= lx.ids(base.text) + CitedIds(lx, base)
  }

  lemma EnvelopKeepsFacts(lx: Lexer, llm: Option<(string, string) -> Option<string>>, query: string, answer: Answer)
    requires lx.Valid() && IdsSplit(lx) && Envelop(lx, llm, query, answer).Some?
    ensures NoNewFacts(lx, answer, Envelop(lx, llm, query, answer).value)
  {
    hide Strip, ParseEnvelopeResponse, NumericTokens, CitationSurface, CitationIdValues;
    var final := Envelop(lx, llm, query, answer).value;
    var parsed := ParseEnvelopeResponse(lx, llm.value(query, answer.text).value).value;
    OccursMiddle(parsed.0 + GAP, answer.text, GAP + parsed.1);
    assert final == parsed.0 + GAP + answer.text + (GAP + parsed.1);
    GroundedAddsNothing(lx, final, answer.text, answer.citations);
  }

  lemma NoNewFactsTransitive(lx: Lexer, base: Answer, middle: string, text: string)
    requires NoNewFacts(lx, base, middle) && NoNewFacts(lx, base.(text := middle), text)
    ensures NoNewFacts(lx, base, text)
  {
    hide NumericTokens, CitationSurface, CitationIdValues;
    OccursTransitive(base.text, middle, text);
  }

  ghost predicate AddsNoFacts(lx: Lexer, full: Outcome, bare: Outcome) {
    && full.calls == bare.calls
    && full.answer == bare.answer.(text := full.answer.text)
    && NoNewFacts(lx, bare.answer, full.answer.text)
  }

  lemma EnvelopeAddsNoFacts(lx: Lexer, llm: Option<(string, string) -> Option<string>>, query: string, full: Outcome, bare: Outcome)
    requires lx.Valid() && IdsSplit(lx) && AddsNoFacts(lx, full, bare)
    ensures AddsNoFacts(lx, Enveloped(lx, llm, query, full), bare)
  {
    hide Envelop, NoNewFacts, IdsSplit, lx.Valid;
    if Envelop(lx, llm, query, full.answer).Some? {
      EnvelopKeepsFacts(lx, llm, query, full.answer);
      SameCitations(lx, bare.answer, full.answer, Envelop(lx, llm, query, full.answer).value);
      NoNewFactsTransitive(lx, bare.answer, full.answer.text, Envelop(lx, llm, query, full.answer).value);
    }
  }

  lemma SameCitations(lx: Lexer, bare: Answer, within: Answer, text: string)
    requires within == bare.(text := within.text) && NoNewFacts(lx, within, text)
    ensures NoNewFacts(lx, bare.(text := within.text), text)
  {
  }

  /** Over every stack, with any language models: the calls are those of the stack without them, and
      the answer is that stack's answer with all fields but the text unchanged; the text contains
      that answer's text verbatim and no number or identifier beyond its text and citations. */
  lemma {:induction false} StackAddsNoFacts(env: Env, e: Engine, turn: Turn)
    requires env.Valid() && IdsSplit(env.lexer)
    ensures AddsNoFacts(env.lexer, Answered(env, e, turn), Answered(env, Bare(e), turn))
    decreases e
  {
    hide IsReferentialFollowup, HasOwnTopic, AnswerFromPreviousTurn, Envelop, PreviousTurnSignal, WithSignal, NoNewFacts, IdsSplit, Enveloped;
    match e {
      case L0(_) => NothingAdded(env.lexer, Answered(env, e, turn).answer);
      case L1(inner, llm) =>
        StackAddsNoFacts(env, inner, turn);
        EnvelopeAddsNoFacts(env.lexer, llm, turn.query, Answered(env, inner, turn), Answered(env, Bare(inner), turn));
        NoEnvelopeWithoutModel(env.lexer, turn.query, Answered(env, Bare(inner), turn));
      case L3(inner, _) => StackAddsNoFacts(env, inner, turn);
      case L2(inner) =>
        StackAddsNoFacts(env, inner, turn);
        var rewritten := StandaloneQuery(env.planner, turn.query, Previous(turn).question, Previous(turn).documentIds);
        StackAddsNoFacts(env, inner, turn.(query := rewritten, context := turn.context.(intentQuery := Some(turn.query))));
        NothingAdded(env.lexer, Answered(env, e, turn).answer);
    }
  }

  lemma NoEnvelopeWithoutModel(lx: Lexer, query: string, r: Outcome)
    ensures Enveloped(lx, None, query, r) == r
  {
  }

  lemma NothingAdded(lx: Lexer, answer: Answer)
    ensures NoNewFacts(lx, answer, answer.text)
  {
    OccursMiddle("", answer.text, "");
    assert "" + answer.text + "" == answer.text;
  }

  /** Below the language models, an answer is either what the answerer returned to the one call made
      or the previous turn's source text with the previous turn's citations. */
  lemma {:induction false} BareAnswer(env: Env, e: Engine, turn: Turn)
    ensures var r := Answered(env, Bare(e), turn);
      if r.calls == [] then Some(r.answer) == AnswerFromPreviousTurn(env.lexer, turn.context)
      else |r.calls| == 1 && r.answer == env.answerer(r.calls[0])
    decreases e
  {
    hide IsReferentialFollowup, HasOwnTopic, PreviousTurnSignal, WithSignal;
    match e {
      case L0(_) =>
      case L1(inner, _) => BareAnswer(env, inner, turn);
      case L3(inner, _) => BareAnswer(env, inner, turn);
      case L2(inner) =>
        BareAnswer(env, inner, turn);
        var rewritten := StandaloneQuery(env.planner, turn.query, Previous(turn).question, Previous(turn).documentIds);
        var next := turn.(query := rewritten, context := turn.context.(intentQuery := Some(turn.query)));
        BareAnswer(env, inner, next);
        assert AnswerFromPreviousTurn(env.lexer, next.context) == AnswerFromPreviousTurn(env.lexer, turn.context);
    }
  }
}
