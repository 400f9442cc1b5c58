/** The envelope guard field by field of the citations, and the parser line by line of the response
    (src/raku_rag/chatbot/envelope.py). */
module EnvelopeSurface {
  import opened Common
  import opened Envelope

  // ----- What the citations allow -----

  lemma {:induction false} TokensOfJoined(lx: Lexer, words: seq<string>, t: string)
    requires lx.Valid()
    ensures t in NumericTokens(lx, JoinSpaced(words)) <==> exists w | w in words :: t in NumericTokens(lx, w)
  {
    hide NumericTokens;
    if |words| == 0 {
      NothingNumeric(lx);
    } else if |words| > 1 {
      TokensSplit(lx, words[0], ' ', JoinSpaced(words[1..]));
      assert words[0] + " " + JoinSpaced(words[1..]) == words[0] + ([' '] + JoinSpaced(words[1..]));
      TokensOfJoined(lx, words[1..], t);
      assert forall w :: w in words <==> w == words[0] || w in words[1..];
    }
  }

  lemma NothingNumeric(lx: Lexer)
    ensures NumericTokens(lx, "") == {}
  {
  }

  lemma {:induction false} IdsOfJoined(lx: Lexer, words: seq<string>, t: string)
    requires IdsSplit(lx)
    ensures t in lx.ids(JoinSpaced(words)) <==> exists w | w in words :: t in lx.ids(w)
  {
    if |words| > 1 {
      assert words[0] + " " + JoinSpaced(words[1..]) == words[0] + ([' '] + JoinSpaced(words[1..]));
      IdsOfJoined(lx, words[1..], t);
      assert forall w :: w in words <==> w == words[0] || w in words[1..];
    }
  }

  lemma {:induction false} TextsOfEntries(entries: seq<Entry>, w: string)
    ensures w in EntryTexts(entries) <==> exists e | e in entries :: !e.empty && e.text == w
  {
    if entries != [] {
      TextsOfEntries(entries[1..], w);
      assert forall e :: e in entries <==> e == entries[0] || e in entries[1..];
    }
  }

  lemma {:induction false} TextsOfCitations(citations: seq<Citation>, w: string)
    ensures w in CitationTexts(citations) <==> exists c, e | c in citations && e in c :: !e.empty && e.text == w
  {
    if citations != [] {
      TextsOfEntries(citations[0], w);
      TextsOfCitations(citations[1..], w);
      assert forall c :: c in citations <==> c == citations[0] || c in citations[1..];
    }
  }

  /** Some non-empty value of a citation has the numeric token. */
  ghost predicate NumberCited(lx: Lexer, citations: seq<Citation>, t: string) {
    exists c, e | c in citations && e in c :: !e.empty && t in NumericTokens(lx, e.text)
  }

  /** Some non-empty value of a citation names the identifier, or it is the value of an id field. */
  ghost predicate IdentifierCited(lx: Lexer, citations: seq<Citation>, t: string) {
    || (exists c, e | c in citations && e in c :: !e.empty && t in lx.ids(e.text))
    || (exists c, e | c in citations && e in c ::
          !e.falsy && (e.name == "document_id" || e.name == "chunk_id" || e.name == "source_id") && t == lx.lower(e.text))
  }

  lemma NumberCitedExactly(lx: Lexer, citations: seq<Citation>, t: string)
    requires lx.Valid()
    ensures t in NumericTokens(lx, CitationSurface(citations)) <==> NumberCited(lx, citations, t)
  {
    hide NumericTokens;
    TokensOfJoined(lx, CitationTexts(citations), t);
    forall w ensures w in CitationTexts(citations) <==> exists c, e | c in citations && e in c :: !e.empty && e.text == w {
      TextsOfCitations(citations, w);
    }
  }

  lemma IdentifierCitedExactly(lx: Lexer, citations: seq<Citation>, t: string)
    requires IdsSplit(lx)
    ensures t in lx.ids(CitationSurface(citations)) + CitationIdValues(lx, citations) <==> IdentifierCited(lx, citations, t)
  {
    IdsOfJoined(lx, CitationTexts(citations), t);
    forall w ensures w in CitationTexts(citations) <==> exists c, e | c in citations && e in c :: !e.empty && e.text == w {
      TextsOfCitations(citations, w);
    }
  }

  /** The envelope is rendered exactly when every number and every identifier of its two lines stands
      in the answer or in a field of a citation. */
  lemma GroundedInFieldsExactly(lx: Lexer, lead: string, answer: string, next: string, citations: seq<Citation>)
    requires lx.Valid() && IdsSplit(lx)
    ensures IsEnvelopeGrounded(lx, lead + "\n\n" + answer + "\n\n" + next, answer, citations) <==>
      && (forall t | t in NumericTokens(lx, lead) || t in NumericTokens(lx, next) ::
            t in NumericTokens(lx, answer) || NumberCited(lx, citations, t))
      && (forall t | t in lx.ids(lead) || t in lx.ids(next) ::
            t in lx.ids(answer) || IdentifierCited(lx, citations, t))
  {
    GroundedExactly(lx, lead, answer, next, citations);
    forall t
      ensures t in NumericTokens(lx, CitationSurface(citations)) <==> NumberCited(lx, citations, t)
      ensures t in lx.ids(CitationSurface(citations)) + CitationIdValues(lx, citations) <==> IdentifierCited(lx, citations, t)
    {
      NumberCitedExactly(lx, citations, t);
      IdentifierCitedExactly(lx, citations, t);
    }
    hide NumericTokens, CitationSurface, CitationIdValues, NumberCited, IdentifierCited, IsEnvelopeGrounded;
    assert Assemble(lead, answer, next) == lead + "\n\n" + answer + "\n\n" + next;
  }

  // ----- The lines of the response -----

  /** Line feed, vertical tab, form feed, carriage return, the three information separators, next line,
      and the line and paragraph separators. */
  predicate EndsLine(c: char) {
    || c == '\n' || c == '\U{000B}' || c == '\U{000C}' || c == '\r'
    || c == '\U{001C}' || c == '\U{001D}' || c == '\U{001E}'
    || c == '\U{0085}' || c == '\U{2028}' || c == '\U{2029}'
  }

  /** The response splits at every line end, CR LF being one; a last line needs none. */
  lemma LinesExactly(line: string, end: char, rest: string)
    requires (forall i | 0 <= i < |line| :: !EndsLine(line[i])) && EndsLine(end)
    ensures SplitLines(line + [end] + rest)
         == [line] + SplitLines(if end == '\r' && rest != "" && rest[0] == '\n' then rest[1..] else rest)
    ensures SplitLines(line) == if line == "" then [] else [line]
  {
    hide SplitLines;
    var s := line + [end] + rest;
    assert s == line + ([end] + rest);
    LineLengthOf(line, [end] + rest);
    LineLengthOf(line, "");
    assert line + "" == line;
    assert s[..|line|] == line && s[|line|] == end && s[|line| + 1..] == rest;
    if rest != "" { assert s[|line| + 2..] == rest[1..] && s[|line| + 1] == rest[0]; }
    SplitFirst(s);
    SplitFirst(line);
  }

  lemma SplitFirst(s: string)
    ensures var n := LineLength(s);
      SplitLines(s) ==
      if s == "" then []
      else if n == |s| then [s]
      else if s[n] == '\r' && n + 1 < |s| && s[n + 1] == '\n' then [s[..n]] + SplitLines(s[n + 2..])
      else [s[..n]] + SplitLines(s[n + 1..])
  {
    hide LineLength, LineBreak;
  }

  ghost predicate Starts(lx: Lexer, prefix: string, line: string) {
    prefix <= Strip(lx.space, line)
  }

  /** What a line says after its prefix. */
  ghost function After(lx: Lexer, prefix: string, line: string): string
    requires Starts(lx, prefix, line)
  {
    Strip(lx.space, Strip(lx.space, line)[|prefix|..])
  }

  ghost predicate LastAt(lx: Lexer, lines: seq<string>, prefix: string, k: nat) {
    k < |lines| && Starts(lx, prefix, lines[k]) && forall j | k < j < |lines| :: !Starts(lx, prefix, lines[j])
  }

  /** `value` is what the last line that starts with the prefix says, and "" when no line does. */
  ghost predicate Says(lx: Lexer, lines: seq<string>, prefix: string, value: string) {
    || ((forall line | line in lines :: !Starts(lx, prefix, line)) && value == "")
    || exists k: nat :: LastAt(lx, lines, prefix, k) && value == After(lx, prefix, lines[k])
  }

  lemma SaysNext(lx: Lexer, front: seq<string>, last: string, prefix: string, before: string, value: string)
    requires Says(lx, front, prefix, before)
    requires value == if Starts(lx, prefix, last) then After(lx, prefix, last) else before
    ensures Says(lx, front + [last], prefix, value)
  {
    hide Starts, After;
    var lines := front + [last];
    assert forall line :: line in lines <==> line in front || line == last;
    if Starts(lx, prefix, last) {
      assert LastAt(lx, lines, prefix, |front|);
    } else if k: nat :| LastAt(lx, front, prefix, k) && before == After(lx, prefix, front[k]) {
      assert lines[k] == front[k];
      assert LastAt(lx, lines, prefix, k);
    }
  }

  lemma {:induction false} ReadsLast(lx: Lexer, lines: seq<string>)
    ensures Says(lx, lines, "LEAD_IN:", ReadLines(lx, lines).0)
    ensures Says(lx, lines, "NEXT_STEP:", ReadLines(lx, lines).1)
  {
    hide Says, Starts, After, ReadLine;
    if lines == [] {
      NothingSaid(lx, "LEAD_IN:");
      NothingSaid(lx, "NEXT_STEP:");
    } else {
      var front, last := lines[..|lines| - 1], lines[|lines| - 1];
      ReadsLast(lx, front);
      var before, after := ReadLines(lx, front), ReadLines(lx, lines);
      OneRead(lx, last, before);
      SaysNext(lx, front, last, "LEAD_IN:", before.0, after.0);
      SaysNext(lx, front, last, "NEXT_STEP:", before.1, after.1);
      assert lines == front + [last];
    }
  }

  lemma OneRead(lx: Lexer, line: string, before: (string, string))
    ensures ReadLine(lx, line, before).0 == if Starts(lx, "LEAD_IN:", line) then After(lx, "LEAD_IN:", line) else before.0
    ensures ReadLine(lx, line, before).1 == if Starts(lx, "NEXT_STEP:", line) then After(lx, "NEXT_STEP:", line) else before.1
  {
    hide Strip;
    OnePrefix(Strip(lx.space, line));
  }

  lemma NothingSaid(lx: Lexer, prefix: string)
    ensures Says(lx, [], prefix, "")
  {
  }

  lemma OnePrefix(s: string)
    ensures !("LEAD_IN:" <= s && "NEXT_STEP:" <= s)
  {
    assert "LEAD_IN:"[0] != "NEXT_STEP:"[0];
  }

  /** The parser returns what the last line of each kind says, and nothing when either says nothing. */
  lemma ParsesLastLines(lx: Lexer, raw: string, lead: string, next: string)
    requires Says(lx, SplitLines(raw), "LEAD_IN:", lead) && Says(lx, SplitLines(raw), "NEXT_STEP:", next)
    ensures ParseEnvelopeResponse(lx, raw) == if lead != "" && next != "" then Some((lead, next)) else None
  {
    hide Says, ReadLines;
    ReadsLast(lx, SplitLines(raw));
    SaidOnce(lx, SplitLines(raw), "LEAD_IN:", lead, ReadLines(lx, SplitLines(raw)).0);
    SaidOnce(lx, SplitLines(raw), "NEXT_STEP:", next, ReadLines(lx, SplitLines(raw)).1);
  }

  lemma SaidOnce(lx: Lexer, lines: seq<string>, prefix: string, a: string, b: string)
    requires Says(lx, lines, prefix, a) && Says(lx, lines, prefix, b)
    ensures a == b
  {
    hide Starts, After;
  }
}
