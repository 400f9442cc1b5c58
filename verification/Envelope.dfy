/** The envelope around a deterministic answer: its tokens, its parser and its mechanical guard
    (src/raku_rag/chatbot/envelope.py). */
module Envelope {
  import opened Common

  /** What the module takes from Python: `\d`, whitespace, `str.lower`, and the identifier regex as
      the set of its lower-cased matches. */
  datatype Lexer = Lexer(digit: char -> bool, space: char -> bool, lower: string -> string, ids: string -> set<string>) {
    ghost predicate Valid() {
      && !digit('\n') && !digit(' ') && space('\n') && space(' ')
      && (forall c | LineBreak(c) :: space(c))
      && !space(':') && !space('L') && !space('N')
    }
  }

  // ----- Numeric tokens -----

  predicate UnitChar(c: char) {
    || 'A' <= c <= 'Z' || 'a' <= c <= 'z' || c == '%' || c == '\U{00B0}' || c == '\U{2103}' || c == '\U{03BC}'
    || c == '\U{03A9}' || c == '\U{00B7}' || '\U{3040}' <= c <= '\U{30FF}' || '\U{4E00}' <= c <= '\U{9FFF}'
  }

  predicate NumberChar(lx: Lexer, c: char) {
    lx.digit(c) || c == ',' || c == '.'
  }

  function NumberSpan(lx: Lexer, s: string): (n: nat)
    ensures n <= |s|
  {
    if s == "" || !NumberChar(lx, s[0]) then 0 else 1 + NumberSpan(lx, s[1..])
  }

  /** At most `limit` unit characters. */
  function UnitSpan(s: string, limit: nat): (n: nat)
    ensures n <= |s|
  {
    if s == "" || limit == 0 || !UnitChar(s[0]) then 0 else 1 + UnitSpan(s[1..], limit - 1)
  }

  /** Length of the match of a digit, number characters and up to six unit characters at the front. */
  function MatchLength(lx: Lexer, s: string): (n: nat)
    requires s != "" && lx.digit(s[0])
    ensures 0 < n <= |s|
  {
    var number := 1 + NumberSpan(lx, s[1..]);
    number + UnitSpan(s[number..], 6)
  }

  /** All matches, left to right. */
  function NumericMatches(lx: Lexer, s: string): seq<string>
    decreases |s|
  {
    if s == "" then []
    else if !lx.digit(s[0]) then NumericMatches(lx, s[1..])
    else [s[..MatchLength(lx, s)]] + NumericMatches(lx, s[MatchLength(lx, s)..])
  }

  function NumericTokens(lx: Lexer, s: string): set<string> {
    set m | m in NumericMatches(lx, s) :: lx.lower(m)
  }

  /** A character no numeric token contains. */
  predicate Separator(lx: Lexer, c: char) {
    !NumberChar(lx, c) && !UnitChar(c)
  }

  lemma {:induction false} NumberSpanStops(lx: Lexer, a: string, rest: string)
    requires rest != "" && Separator(lx, rest[0])
    ensures NumberSpan(lx, a + rest) == NumberSpan(lx, a)
  {
    if a == "" {
      assert a + rest == rest;
    } else {
      assert (a + rest)[1..] == a[1..] + rest;
      NumberSpanStops(lx, a[1..], rest);
    }
  }

  lemma {:induction false} UnitSpanStops(lx: Lexer, a: string, rest: string, limit: nat)
    requires rest != "" && Separator(lx, rest[0])
    ensures UnitSpan(a + rest, limit) == UnitSpan(a, limit)
  {
    if a == "" {
      assert a + rest == rest;
    } else if limit > 0 {
      assert (a + rest)[1..] == a[1..] + rest;
      UnitSpanStops(lx, a[1..], rest, limit - 1);
    }
  }

  lemma MatchStops(lx: Lexer, a: string, rest: string)
    requires a != "" && lx.digit(a[0]) && rest != "" && Separator(lx, rest[0])
    ensures MatchLength(lx, a + rest) == MatchLength(lx, a)
  {
    assert (a + rest)[1..] == a[1..] + rest;
    NumberSpanStops(lx, a[1..], rest);
    var n := 1 + NumberSpan(lx, a[1..]);
    assert (a + rest)[n..] == a[n..] + rest;
    UnitSpanStops(lx, a[n..], rest, 6);
  }

  /** The scan splits at a separator: no token crosses it. */
  lemma {:induction false} MatchesSplit(lx: Lexer, a: string, sep: char, b: string)
    requires Separator(lx, sep)
    ensures NumericMatches(lx, a + ([sep] + b)) == NumericMatches(lx, a) + NumericMatches(lx, b)
    decreases |a|
  {
    var rest := [sep] + b;
    var s := a + rest;
    if a == "" {
      assert s == rest && rest[1..] == b;
    } else if !lx.digit(a[0]) {
      assert s[1..] == a[1..] + rest && s[0] == a[0];
      MatchesSplit(lx, a[1..], sep, b);
    } else {
      MatchStops(lx, a, rest);
      var n := MatchLength(lx, a);
      assert s[..n] == a[..n] && s[n..] == a[n..] + rest && s[0] == a[0];
      MatchesSplit(lx, a[n..], sep, b);
      assert [a[..n]] + (NumericMatches(lx, a[n..]) + NumericMatches(lx, b))
          == ([a[..n]] + NumericMatches(lx, a[n..])) + NumericMatches(lx, b);
    }
  }

  lemma TokensSplit(lx: Lexer, a: string, sep: char, b: string)
    requires Separator(lx, sep)
    ensures NumericTokens(lx, a + ([sep] + b)) == NumericTokens(lx, a) + NumericTokens(lx, b)
  {
    MatchesSplit(lx, a, sep, b);
    assert forall m :: m in NumericMatches(lx, a) + NumericMatches(lx, b)
                  <==> m in NumericMatches(lx, a) || m in NumericMatches(lx, b);
  }

  const GAP: string := "\n\n"

  function Assemble(lead: string, answer: string, next: string): string {
    lead + GAP + answer + GAP + next
  }

  lemma GapSplit(lx: Lexer, a: string, b: string)
    requires lx.Valid()
    ensures NumericTokens(lx, a + (GAP + b)) == NumericTokens(lx, a) + NumericTokens(lx, b)
  {
    assert GAP + b == ['\n'] + (['\n'] + b);
    TokensSplit(lx, a, '\n', ['\n'] + b);
    TokensSplit(lx, "", '\n', b);
    assert "" + (['\n'] + b) == ['\n'] + b;
    assert NumericTokens(lx, "") == {};
  }

  /** The numeric tokens of an assembled text are those of its three parts. */
  lemma AssembledTokens(lx: Lexer, lead: string, answer: string, next: string)
    requires lx.Valid()
    ensures NumericTokens(lx, Assemble(lead, answer, next))
         == NumericTokens(lx, lead) + NumericTokens(lx, answer) + NumericTokens(lx, next)
  {
    assert Assemble(lead, answer, next) == lead + (GAP + (answer + (GAP + next)));
    GapSplit(lx, lead, answer + (GAP + next));
    GapSplit(lx, answer, next);
  }

  // ----- What a token is -----

  /** A Latin letter, a percent sign, degree, degree Celsius, mu, ohm or middle dot, kana, or one of
      the common ideographs. */
  predicate UnitSymbol(c: char) {
    || 'a' <= c <= 'z' || 'A' <= c <= 'Z'
    || c == '%' || c == '\U{00B0}' || c == '\U{2103}' || c == '\U{03BC}' || c == '\U{03A9}' || c == '\U{00B7}'
    || '\U{3040}' <= c <= '\U{30FF}' || '\U{4E00}' <= c <= '\U{9FFF}'
  }

  /** A number as the tokenizer reads it: a digit, then digits, commas and points. */
  predicate NumberText(lx: Lexer, d: string) {
    d != "" && lx.digit(d[0]) && forall i | 0 <= i < |d| :: lx.digit(d[i]) || d[i] == ',' || d[i] == '.'
  }

  predicate UnitText(lx: Lexer, w: string) {
    forall i | 0 <= i < |w| :: UnitSymbol(w[i]) && !lx.digit(w[i])
  }

  predicate Ends(lx: Lexer, rest: string) {
    rest == "" || !(lx.digit(rest[0]) || rest[0] == ',' || rest[0] == '.' || UnitSymbol(rest[0]))
  }

  lemma TextClasses(lx: Lexer, d: string, w: string, rest: string)
    requires NumberText(lx, d) && UnitText(lx, w) && Ends(lx, rest)
    ensures forall i | 0 <= i < |d| :: NumberChar(lx, d[i])
    ensures forall i | 0 <= i < |w| :: UnitChar(w[i]) && !NumberChar(lx, w[i])
    ensures rest == "" || Separator(lx, rest[0])
  {
  }

  lemma {:induction false} NumberSpanAll(lx: Lexer, d: string, rest: string)
    requires (forall i | 0 <= i < |d| :: NumberChar(lx, d[i])) && (rest == "" || !NumberChar(lx, rest[0]))
    ensures NumberSpan(lx, d + rest) == |d|
  {
    if d == "" {
      assert d + rest == rest;
    } else {
      assert (d + rest)[1..] == d[1..] + rest;
      NumberSpanAll(lx, d[1..], rest);
    }
  }

  lemma {:induction false} UnitSpanAll(w: string, rest: string, limit: nat)
    requires (forall i | 0 <= i < |w| :: UnitChar(w[i])) && |w| <= limit
    requires |w| == limit || rest == "" || !UnitChar(rest[0])
    ensures UnitSpan(w + rest, limit) == |w|
  {
    if w == "" {
      assert w + rest == rest;
    } else {
      assert (w + rest)[1..] == w[1..] + rest;
      UnitSpanAll(w[1..], rest, limit - 1);
    }
  }

  lemma {:induction false} NoDigitNoMatch(lx: Lexer, w: string, rest: string)
    requires forall i | 0 <= i < |w| :: !lx.digit(w[i])
    ensures NumericMatches(lx, w + rest) == NumericMatches(lx, rest)
  {
    if w == "" {
      assert w + rest == rest;
    } else {
      assert (w + rest)[1..] == w[1..] + rest;
      NoDigitNoMatch(lx, w[1..], rest);
    }
  }

  /** The first match of a number with a unit takes the number and at most six unit characters. */
  lemma TokenLength(lx: Lexer, d: string, w: string, rest: string)
    requires NumberText(lx, d) && UnitText(lx, w) && Ends(lx, rest)
    ensures MatchLength(lx, d + (w + rest)) == |d| + if |w| <= 6 then |w| else 6
  {
    TextClasses(lx, d, w, rest);
    hide NumberText, UnitText, Ends, NumberChar, UnitChar;
    var s := d + (w + rest);
    var after := w + rest;
    assert s[1..] == d[1..] + after;
    assert after != "" ==> after[0] == if w == "" then rest[0] else w[0];
    NumberSpanAll(lx, d[1..], after);
    assert s[|d|..] == after;
    if |w| <= 6 {
      UnitSpanAll(w, rest, 6);
    } else {
      assert after == w[..6] + (w[6..] + rest);
      UnitSpanAll(w[..6], w[6..] + rest, 6);
    }
  }

  /** What the tokens of a number with a unit are: the number and its first six unit characters, then
      the tokens of what follows. */
  lemma TokenOfNumber(lx: Lexer, d: string, w: string, rest: string)
    requires NumberText(lx, d) && UnitText(lx, w) && Ends(lx, rest)
    ensures NumericMatches(lx, d + w + rest) == [d + if |w| <= 6 then w else w[..6]] + NumericMatches(lx, rest)
  {
    var s := d + (w + rest);
    assert d + w + rest == s;
    var n := if |w| <= 6 then |w| else 6;
    TokenLength(lx, d, w, rest);
    hide MatchLength, NumberChar, UnitChar, UnitSymbol, Ends;
    assert s[..|d| + n] == d + w[..n] && w[..|w|] == w;
    assert s[|d| + n..] == w[n..] + rest;
    NoDigitNoMatch(lx, w[n..], rest);
    assert NumericMatches(lx, s) == [s[..|d| + n]] + NumericMatches(lx, s[|d| + n..]);
  }

  /** The consequence for the guard: a line that is one number with a unit is grounded in such an answer
      without citations exactly when they are the same number with the same unit. */
  lemma ChangedUnitIsRefused(lx: Lexer, d: string, v: string, w: string, e: string)
    requires lx.Valid() && NumberText(lx, d) && UnitText(lx, v) && NumberText(lx, e) && UnitText(lx, w) && |v| <= 6 && |w| <= 6
    ensures NumericGuard(lx, d + v, e + w, []) <==> lx.lower(d + v) == lx.lower(e + w)
  {
    OneToken(lx, d, v);
    OneToken(lx, e, w);
    assert CitationSurface([]) == "";
    assert e + w + " " + "" == (e + w) + ([' '] + "");
    TokensSplit(lx, e + w, ' ', "");
    assert NumericTokens(lx, "") == {};
    hide NumericTokens;
  }

  lemma OneToken(lx: Lexer, d: string, w: string)
    requires NumberText(lx, d) && UnitText(lx, w) && |w| <= 6
    ensures NumericTokens(lx, d + w) == {lx.lower(d + w)}
  {
    TokenOfNumber(lx, d, w, "");
    hide NumberText, UnitText;
    assert d + w + "" == d + w;
    assert NumericMatches(lx, d + w) == [d + w];
  }

  // ----- Citations and the guard -----

  /** A field of a citation: `empty` when its value is None, "", [] or (), `falsy` when it is falsy. */
  datatype Entry = Entry(name: string, text: string, empty: bool, falsy: bool)

  type Citation = seq<Entry>

  const CITATION_ID_FIELDS: set<string> := {"document_id", "chunk_id", "source_id"}

  function CitationIdValues(lx: Lexer, citations: seq<Citation>): set<string> {
    set c, e | c in citations && e in c && e.name in CITATION_ID_FIELDS && !e.falsy :: lx.lower(e.text)
  }

  function EntryTexts(entries: seq<Entry>): seq<string> {
    if entries == [] then []
    else (if entries[0].empty then [] else [entries[0].text]) + EntryTexts(entries[1..])
  }

  function CitationTexts(citations: seq<Citation>): seq<string> {
    if citations == [] then [] else EntryTexts(citations[0]) + CitationTexts(citations[1..])
  }

  function CitationSurface(citations: seq<Citation>): string {
    JoinSpaced(CitationTexts(citations))
  }

  predicate NumericGuard(lx: Lexer, final: string, answer: string, citations: seq<Citation>) {
    NumericTokens(lx, final) <= NumericTokens(lx, answer + " " + CitationSurface(citations))
  }

  predicate IsEnvelopeGrounded(lx: Lexer, final: string, answer: string, citations: seq<Citation>) {
    && NumericGuard(lx, final, answer, citations)
    && lx.ids(final) <= lx.ids(answer + " " + CitationSurface(citations)) + CitationIdValues(lx, citations)
  }

  /** The numeric guard never trips on the answer's own text: it passes exactly when the two
      envelope lines bring no numeric token that the answer and its citations lack. */
  lemma NumericGuardExactly(lx: Lexer, lead: string, answer: string, next: string, citations: seq<Citation>)
    requires lx.Valid()
    ensures NumericGuard(lx, Assemble(lead, answer, next), answer, citations) <==>
            NumericTokens(lx, lead) + NumericTokens(lx, next)
              <= NumericTokens(lx, answer) + NumericTokens(lx, CitationSurface(citations))
  {
    AssembledTokens(lx, lead, answer, next);
    var surface := CitationSurface(citations);
    assert answer + " " + surface == answer + ([' '] + surface);
    TokensSplit(lx, answer, ' ', surface);
  }

  /** What the identifier regex grants: it matches nothing empty and its matches hold no space and no
      line feed, so a text split there has the identifiers of its two parts. */
  ghost predicate IdsSplit(lx: Lexer) {
    && lx.ids("") == {}
    && (forall a, b :: lx.ids(a + ([' '] + b)) == lx.ids(a) + lx.ids(b))
    && (forall a, b :: lx.ids(a + (['\n'] + b)) == lx.ids(a) + lx.ids(b))
  }

  /** A grounded text names nothing, number or identifier, beyond the answer and its citations. */
  lemma GroundedAddsNothing(lx: Lexer, final: string, answer: string, citations: seq<Citation>)
    requires lx.Valid() && IdsSplit(lx) && IsEnvelopeGrounded(lx, final, answer, citations)
    ensures NumericTokens(lx, final) <= NumericTokens(lx, answer) + NumericTokens(lx, CitationSurface(citations))
    ensures lx.ids(final) <= lx.ids(answer) + (lx.ids(CitationSurface(citations)) + CitationIdValues(lx, citations))
  {
    hide NumericTokens, CitationSurface, CitationIdValues;
    var surface := CitationSurface(citations);
    assert answer + " " + surface == answer + ([' '] + surface);
    TokensSplit(lx, answer, ' ', surface);
  }

  /** The whole guard passes exactly when the two lines bring no number and no identifier that the
      answer and its citations lack. */
  lemma GroundedExactly(lx: Lexer, lead: string, answer: string, next: string, citations: seq<Citation>)
    requires lx.Valid() && IdsSplit(lx)
    ensures IsEnvelopeGrounded(lx, Assemble(lead, answer, next), answer, citations) <==>
      && NumericTokens(lx, lead) + NumericTokens(lx, next)
           <= NumericTokens(lx, answer) + NumericTokens(lx, CitationSurface(citations))
      && lx.ids(lead) + lx.ids(next)
           <= lx.ids(answer) + lx.ids(CitationSurface(citations)) + CitationIdValues(lx, citations)
  {
    NumericGuardExactly(lx, lead, answer, next, citations);
    AssembledIds(lx, lead, answer, next);
    hide NumericTokens, CitationSurface, CitationIdValues, NumericGuard, Assemble;
    var surface := CitationSurface(citations);
    assert answer + " " + surface == answer + ([' '] + surface);
  }

  lemma AssembledIds(lx: Lexer, lead: string, answer: string, next: string)
    requires IdsSplit(lx)
    ensures lx.ids(Assemble(lead, answer, next)) == lx.ids(lead) + lx.ids(answer) + lx.ids(next)
  {
    assert Assemble(lead, answer, next) == lead + (GAP + (answer + (GAP + next)));
    IdsGap(lx, lead, answer + (GAP + next));
    IdsGap(lx, answer, next);
  }

  lemma IdsGap(lx: Lexer, a: string, b: string)
    requires IdsSplit(lx)
    ensures lx.ids(a + (GAP + b)) == lx.ids(a) + lx.ids(b)
  {
    assert GAP + b == ['\n'] + (['\n'] + b);
    assert lx.ids(a + (['\n'] + (['\n'] + b))) == lx.ids(a) + lx.ids(['\n'] + b);
    assert "" + (['\n'] + b) == ['\n'] + b;
    assert lx.ids("" + (['\n'] + b)) == lx.ids("") + lx.ids(b);
  }

  // ----- Parsing the model's two lines -----

  predicate LineBreak(c: char) {
    '\n' <= c <= '\r' || '\U{001C}' <= c <= '\U{001E}' || c == '\U{0085}' || c == '\U{2028}' || c == '\U{2029}'
  }

  function LineLength(s: string): (n: nat)
    ensures n <= |s| && (forall i | 0 <= i < n :: !LineBreak(s[i])) && (n < |s| ==> LineBreak(s[n]))
  {
    if s == "" || LineBreak(s[0]) then 0 else 1 + LineLength(s[1..])
  }

  /** `str.splitlines`; CR LF ends one line. */
  function SplitLines(s: string): seq<string>
    decreases |s|
  {
    if s == "" then []
    else
      var n := LineLength(s);
      if n == |s| then [s]
      else if s[n] == '\r' && n + 1 < |s| && s[n + 1] == '\n' then [s[..n]] + SplitLines(s[n + 2..])
      else [s[..n]] + SplitLines(s[n + 1..])
  }

  const LEAD_IN_PREFIX: string := "LEAD_IN:"
  const NEXT_STEP_PREFIX: string := "NEXT_STEP:"

  /** The effect of one line on the two parts found so far. */
  function ReadLine(lx: Lexer, line: string, parts: (string, string)): (string, string) {
    var stripped := Strip(lx.space, line);
    if LEAD_IN_PREFIX <= stripped then (Strip(lx.space, stripped[|LEAD_IN_PREFIX|..]), parts.1)
    else if NEXT_STEP_PREFIX <= stripped then (parts.0, Strip(lx.space, stripped[|NEXT_STEP_PREFIX|..]))
    else parts
  }

  function ReadLines(lx: Lexer, lines: seq<string>): (string, string) {
    if lines == [] then ("", "")
    else ReadLine(lx, lines[|lines| - 1], ReadLines(lx, lines[..|lines| - 1]))
  }

  function ParseEnvelopeResponse(lx: Lexer, raw: string): Option<(string, string)> {
    var parts := ReadLines(lx, SplitLines(raw));
    if parts.0 == "" || parts.1 == "" then None else Some(parts)
  }

  method ParseEnvelopeResponseLoop(lx: Lexer, raw: string) returns (r: Option<(string, string)>)
    ensures r == ParseEnvelopeResponse(lx, raw)
  {
    var lead, next := "", "";
    var lines := SplitLines(raw);
    for k := 0 to |lines|
      invariant (lead, next) == ReadLines(lx, lines[..k])
    {
      assert lines[..k + 1][..k] == lines[..k];
      var stripped := Strip(lx.space, lines[k]);
      if LEAD_IN_PREFIX <= stripped {
        lead := Strip(lx.space, stripped[|LEAD_IN_PREFIX|..]);
      } else if NEXT_STEP_PREFIX <= stripped {
        next := Strip(lx.space, stripped[|NEXT_STEP_PREFIX|..]);
      }
    }
    assert lines[..|lines|] == lines;
    r := if lead == "" || next == "" then None else Some((lead, next));
  }

  predicate OneLine(s: string) {
    forall i | 0 <= i < |s| :: !LineBreak(s[i])
  }

  /** A part the parser can return: one non-empty line without blank ends. */
  predicate Clean(lx: Lexer, s: string) {
    s != "" && Strip(lx.space, s) == s && OneLine(s)
  }

  lemma {:induction false} StripFacts(lx: Lexer, s: string)
    ensures Strip(lx.space, Strip(lx.space, s)) == Strip(lx.space, s)
    ensures OneLine(s) ==> OneLine(Strip(lx.space, s))
    decreases |s|
  {
    if s != "" && lx.space(s[0]) {
      StripFacts(lx, s[1..]);
    } else if s != "" && lx.space(s[|s| - 1]) {
      StripFacts(lx, s[..|s| - 1]);
    }
  }

  lemma {:induction false} LinesAreOneLine(s: string)
    ensures forall line | line in SplitLines(s) :: OneLine(line)
    decreases |s|
  {
    hide LineLength, LineBreak;
    if s != "" {
      var n := LineLength(s);
      assert OneLine(s[..n]);
      if n < |s| {
        LinesAreOneLine(if s[n] == '\r' && n + 1 < |s| && s[n + 1] == '\n' then s[n + 2..] else s[n + 1..]);
      }
    }
  }

  lemma ReadLineClean(lx: Lexer, line: string, parts: (string, string))
    requires OneLine(line) && (parts.0 == "" || Clean(lx, parts.0)) && (parts.1 == "" || Clean(lx, parts.1))
    ensures var r := ReadLine(lx, line, parts); (r.0 == "" || Clean(lx, r.0)) && (r.1 == "" || Clean(lx, r.1))
  {
    StripFacts(lx, line);
    var stripped := Strip(lx.space, line);
    if LEAD_IN_PREFIX <= stripped {
      StripFacts(lx, stripped[|LEAD_IN_PREFIX|..]);
    } else if NEXT_STEP_PREFIX <= stripped {
      StripFacts(lx, stripped[|NEXT_STEP_PREFIX|..]);
    }
  }

  lemma {:induction false} ReadLinesClean(lx: Lexer, lines: seq<string>)
    requires forall line | line in lines :: OneLine(line)
    ensures var r := ReadLines(lx, lines); (r.0 == "" || Clean(lx, r.0)) && (r.1 == "" || Clean(lx, r.1))
  {
    if lines != [] {
      ReadLinesClean(lx, lines[..|lines| - 1]);
      ReadLineClean(lx, lines[|lines| - 1], ReadLines(lx, lines[..|lines| - 1]));
    }
  }

  function Render(lead: string, next: string): string {
    LEAD_IN_PREFIX + " " + lead + "\n" + (NEXT_STEP_PREFIX + " " + next)
  }

  lemma {:induction false} LineLengthOf(a: string, rest: string)
    requires OneLine(a) && (rest == "" || LineBreak(rest[0]))
    ensures LineLength(a + rest) == |a|
  {
    if a == "" {
      assert a + rest == rest;
    } else {
      assert (a + rest)[1..] == a[1..] + rest;
      LineLengthOf(a[1..], rest);
    }
  }

  lemma TwoLines(a: string, b: string)
    requires OneLine(a) && OneLine(b) && b != ""
    ensures SplitLines(a + "\n" + b) == [a, b]
  {
    var s := a + "\n" + b;
    assert s == a + ("\n" + b);
    LineLengthOf(a, "\n" + b);
    assert s[..|a|] == a && s[|a| + 1..] == b && s[|a|] == '\n';
    LineLengthOf(b, "");
    assert b + "" == b;
  }

  lemma CleanEnds(lx: Lexer, s: string)
    requires Clean(lx, s)
    ensures s != "" && !lx.space(s[0]) && !lx.space(s[|s| - 1])
  {
    StripShrinks(lx, s);
  }

  lemma {:induction false} StripShrinks(lx: Lexer, s: string)
    ensures |Strip(lx.space, s)| <= |s|
    ensures s != "" && (lx.space(s[0]) || lx.space(s[|s| - 1])) ==> |Strip(lx.space, s)| < |s|
    decreases |s|
  {
    if s != "" && lx.space(s[0]) {
      StripShrinks(lx, s[1..]);
    } else if s != "" && lx.space(s[|s| - 1]) {
      StripShrinks(lx, s[..|s| - 1]);
    }
  }

  lemma StripTight(lx: Lexer, s: string)
    requires s != "" && !lx.space(s[0]) && !lx.space(s[|s| - 1])
    ensures Strip(lx.space, s) == s
  {
  }

  lemma StripFrontSpace(lx: Lexer, s: string)
    requires lx.Valid() && s != "" && !lx.space(s[0]) && !lx.space(s[|s| - 1])
    ensures Strip(lx.space, " " + s) == s
  {
    var t := " " + s;
    assert t[0] == ' ' && t[1..] == s;
    StripTight(lx, s);
  }

  lemma PrefixedLine(lx: Lexer, prefix: string, s: string)
    requires lx.Valid() && Clean(lx, s) && prefix != "" && !lx.space(prefix[0])
    ensures Strip(lx.space, prefix + " " + s) == prefix + " " + s
    ensures Strip(lx.space, (prefix + " " + s)[|prefix|..]) == s
  {
    hide *;
    CleanEnds(lx, s);
    PrefixedEnds(prefix, s);
    StripTight(lx, prefix + " " + s);
    StripFrontSpace(lx, s);
    AfterPrefix(prefix, s);
  }

  lemma PrefixedEnds(prefix: string, s: string)
    requires prefix != "" && s != ""
    ensures var t := prefix + " " + s; t != "" && t[0] == prefix[0] && t[|t| - 1] == s[|s| - 1]
  {
  }

  lemma AfterPrefix(prefix: string, s: string)
    ensures (prefix + " " + s)[|prefix|..] == " " + s
  {
  }

  /** The parser returns exactly the clean pairs: each is read back from its rendering, and nothing
      else is ever returned. */
  lemma ParsesExactlyCleanPairs(lx: Lexer, lead: string, next: string)
    requires lx.Valid()
    ensures (exists raw :: ParseEnvelopeResponse(lx, raw) == Some((lead, next))) <==> Clean(lx, lead) && Clean(lx, next)
  {
    if raw :| ParseEnvelopeResponse(lx, raw) == Some((lead, next)) {
      LinesAreOneLine(raw);
      ReadLinesClean(lx, SplitLines(raw));
    }
    if Clean(lx, lead) && Clean(lx, next) {
      ParseOfRender(lx, lead, next);
    }
  }

  lemma ParseOfRender(lx: Lexer, lead: string, next: string)
    requires lx.Valid() && Clean(lx, lead) && Clean(lx, next)
    ensures ParseEnvelopeResponse(lx, Render(lead, next)) == Some((lead, next))
  {
    var a, b := LEAD_IN_PREFIX + " " + lead, NEXT_STEP_PREFIX + " " + next;
    TwoLines(a, b);
    PrefixedLine(lx, LEAD_IN_PREFIX, lead);
    PrefixedLine(lx, NEXT_STEP_PREFIX, next);
    assert [a, b][..1] == [a] && [a][..0] == [];
    assert ReadLines(lx, []) == ("", "");
    assert LEAD_IN_PREFIX <= a && b[0] == 'N';
    assert ReadLines(lx, [a]) == (lead, "");
    assert NEXT_STEP_PREFIX <= b;
    assert ReadLines(lx, [a, b]) == (lead, next);
  }
}
