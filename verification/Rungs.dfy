/** What each rung of the ladder returns, in terms of the turn, the model's reply and the answer below
    (src/raku_rag/chatbot/answer_engine.py, coreference.py, envelope.py). */
module Rungs {
  import opened Common
  import opened Envelope
  import opened EnvelopeSurface
  import opened Ladder
  import Coreference
  import Followups
  import ResidualTopic

  /** What a spared turn is answered with: the text the previous turn was answered from, or else its
      answer, unless it is blank or came without citations. */
  lemma ReuseExactly(lx: Lexer, context: DialogueContext)
    ensures var text :=
              if context.previousSourceAnswerText.Some? && context.previousSourceAnswerText != Some("")
              then context.previousSourceAnswerText.value
              else if context.previousAnswer.Some? then context.previousAnswer.value else "";
            var reused := AnswerFromPreviousTurn(lx, context);
            if context.previousCitations != [] && exists c :: c in text && !lx.space(c)
            then reused == Some(Answer("ok", Strip(lx.space, text), context.previousCitations, map[]))
            else reused == None
  {
    hide Strip;
    forall text ensures Strip(lx.space, text) == "" <==> forall c | c in text :: lx.space(c) {
      StripBlank(lx.space, text);
    }
  }

  /** The model's reply offers these two lines, and they name nothing that the answer and the fields of
      its citations lack. */
  ghost predicate MayFrame(lx: Lexer, reply: Option<string>, answer: Answer, lead: string, next: string) {
    && (exists c :: c in answer.text && !lx.space(c))
    && reply.Some? && lead != "" && next != ""
    && Says(lx, SplitLines(reply.value), "LEAD_IN:", lead) && Says(lx, SplitLines(reply.value), "NEXT_STEP:", next)
    && (forall t | t in NumericTokens(lx, lead) || t in NumericTokens(lx, next) ::
          t in NumericTokens(lx, answer.text) || NumberCited(lx, answer.citations, t))
    && (forall t | t in lx.ids(lead) || t in lx.ids(next) ::
          t in lx.ids(answer.text) || IdentifierCited(lx, answer.citations, t))
  }

  /** An envelope frames the answer below it exactly when the model's reply may frame it, and otherwise
      passes the whole answer on; its calls are always those below. */
  lemma EnvelopeExactly(env: Env, inner: Engine, llm: (string, string) -> Option<string>, turn: Turn)
    requires env.Valid() && IdsSplit(env.lexer)
    ensures Answered(env, L1(inner, None), turn) == Answered(env, inner, turn)
    ensures var below, r := Answered(env, inner, turn), Answered(env, L1(inner, Some(llm)), turn);
            var reply := llm(turn.query, below.answer.text);
            && r.calls == below.calls
            && (forall lead, next | MayFrame(env.lexer, reply, below.answer, lead, next) ::
                  r.answer == below.answer.(text := lead + "\n\n" + below.answer.text + "\n\n" + next))
            && ((forall lead, next :: !MayFrame(env.lexer, reply, below.answer, lead, next)) ==> r.answer == below.answer)
  {
    assert env.lexer.Valid();
    hide *;
    var below := Answered(env, inner, turn);
    var reply := llm(turn.query, below.answer.text);
    AnsweredByEnvelope(env, inner, None, turn);
    AnsweredByEnvelope(env, inner, Some(llm), turn);
    NoEnvelopeWithoutModel(env.lexer, turn.query, below);
    forall lead, next | MayFrame(env.lexer, reply, below.answer, lead, next)
      ensures Envelop(env.lexer, Some(llm), turn.query, below.answer)
           == Some(lead + "\n\n" + below.answer.text + "\n\n" + next)
    {
      Framed(env.lexer, llm, turn.query, below.answer, lead, next);
    }
    if Envelop(env.lexer, Some(llm), turn.query, below.answer).Some? {
      var lead, next := Offered(env.lexer, llm, turn.query, below.answer);
    }
    EnvelopedBy(env.lexer, Some(llm), turn.query, below);
  }

  lemma AnsweredByEnvelope(env: Env, inner: Engine, llm: Option<(string, string) -> Option<string>>, turn: Turn)
    ensures Answered(env, L1(inner, llm), turn) == Enveloped(env.lexer, llm, turn.query, Answered(env, inner, turn))
  {
  }

  lemma EnvelopedBy(lx: Lexer, llm: Option<(string, string) -> Option<string>>, query: string, r: Outcome)
    ensures var final := Envelop(lx, llm, query, r.answer);
            Enveloped(lx, llm, query, r) == if final.None? then r else r.(answer := r.answer.(text := final.value))
  {
    hide Envelop;
  }

  lemma Framed(lx: Lexer, llm: (string, string) -> Option<string>, query: string, answer: Answer, lead: string, next: string)
    requires lx.Valid() && IdsSplit(lx) && MayFrame(lx, llm(query, answer.text), answer, lead, next)
    ensures Envelop(lx, Some(llm), query, answer) == Some(lead + "\n\n" + answer.text + "\n\n" + next)
  {
    hide Strip, Says, SplitLines, NumericTokens, NumberCited, IdentifierCited, IsEnvelopeGrounded, ParseEnvelopeResponse;
    StripBlank(lx.space, answer.text);
    ParsesLastLines(lx, llm(query, answer.text).value, lead, next);
    GroundedInFieldsExactly(lx, lead, answer.text, next, answer.citations);
  }

  lemma Offered(lx: Lexer, llm: (string, string) -> Option<string>, query: string, answer: Answer) returns (lead: string, next: string)
    requires lx.Valid() && IdsSplit(lx) && Envelop(lx, Some(llm), query, answer).Some?
    ensures MayFrame(lx, llm(query, answer.text), answer, lead, next)
  {
    hide Strip, Says, SplitLines, NumericTokens, NumberCited, IdentifierCited, IsEnvelopeGrounded, ReadLines;
    StripBlank(lx.space, answer.text);
    var lines := SplitLines(llm(query, answer.text).value);
    ReadsLast(lx, lines);
    lead, next := ReadLines(lx, lines).0, ReadLines(lx, lines).1;
    GroundedInFieldsExactly(lx, lead, answer.text, next, answer.citations);
  }

  /** The check at the top never changes an outcome. */
  lemma CheckChangesNothing(env: Env, inner: Engine, gate: (string, seq<Citation>) -> Option<bool>, turn: Turn)
    ensures Answered(env, L3(inner, gate), turn) == Answered(env, inner, turn)
  {
    hide IsEnvelopeGrounded;
  }

  /** What a rewriter does with a turn: nothing, unless the query refers back; a reference without a topic
      of its own is answered from the previous turn where that left something; and the query goes
      on as it is when the rewrite adds nothing, or rewritten and with the original as the intent. */
  lemma RewriterExactly(env: Env, inner: Engine, turn: Turn)
    ensures var previous := if turn.context.previousQuestion.Some? then turn.context.previousQuestion.value else "";
            var rewritten := Coreference.StandaloneQuery(env.planner, turn.query, previous, turn.context.previousDocumentIds);
            var reused := AnswerFromPreviousTurn(env.lexer, turn.context);
            var r := Answered(env, L2(inner), turn);
            if !Coreference.IsReferentialFollowup(env.planner, turn.query, previous) then r == Answered(env, inner, turn)
            else if |ResidualTopic.ResidualTopic(env.planner.u, turn.query)| <= 1 && reused.Some?
            then r == Outcome(reused.value, [])
            else if rewritten == turn.query then r == Answered(env, inner, turn)
            else r == Answered(env, inner, Turn(turn.principal, rewritten, turn.collectionId,
                                               turn.context.(intentQuery := Some(turn.query))))
  {
    hide Coreference.IsReferentialFollowup, Coreference.StandaloneQuery, AnswerFromPreviousTurn, ResidualTopic.ResidualTopic;
  }

  /** What the answerer is told at the bottom: the turn's own principal, query and collection, and the
      intent where it takes one and it is not the query. */
  lemma FloorExactly(env: Env, acceptsIntent: bool, turn: Turn)
    ensures var r := Answered(env, L0(acceptsIntent), turn);
            && |r.calls| == 1 && r.answer == env.answerer(r.calls[0])
            && r.calls[0].principal == turn.principal && r.calls[0].query == turn.query
            && r.calls[0].collectionId == turn.collectionId
            && forall intent :: r.calls[0].intentQuery == Some(intent) <==>
                 acceptsIntent && turn.context.intentQuery == Some(intent) && intent != turn.query
  {
  }
}
