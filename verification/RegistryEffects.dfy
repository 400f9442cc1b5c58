/** The effect of every public operation of the component runtime, field by field, and the operations
    that are sequences of others (LP/assets/9367c065-0eb8-43d7-96aa-cd5bd931f686.js). */
module RegistryEffects {
  import opened Common
  import opened Registry

  /** Nothing but the entry of one component differs. */
  ghost predicate OnlyEntry(s: State, t: State, name: Name, e: Entry) {
    && (forall n :: At(t, n) == if n == name then e else At(s, n))
    && t.streamingClass == s.streamingClass && t.fetches == s.fetches && t.lastStarted == s.lastStarted
  }

  /** Besides the entry, the document class is recomputed: it is set exactly while some entry streams. */
  ghost predicate EntryAndClass(s: State, t: State, name: Name, e: Entry) {
    && (forall n :: At(t, n) == if n == name then e else At(s, n))
    && (t.streamingClass <==> exists n :: At(t, n).htmlStreaming || At(t, n).jsStreaming)
    && t.fetches == s.fetches && t.lastStarted == s.lastStarted
  }

  /** A component is fetched at the first demand only, and marking it keeps it from being fetched. */
  lemma FetchingExactly(s: State, name: Name)
    ensures var e, t := At(s, name), Step(s, EnsureFetched(name));
            if e.fetched then t == s
            else t.fetches == s.fetches + [name] && OnlyEntry(s, t.(fetches := s.fetches), name, e.(fetched := true))
    ensures OnlyEntry(s, Step(s, MarkFetched(name)), name, At(s, name).(fetched := true))
  {
  }

  /** New markup raises the version once and replaces the template only where it compiles. */
  lemma MarkupExactly(s: State, name: Name, html: string, compiled: bool)
    ensures var e := At(s, name);
            var after := e.(html := html, template := if compiled then Some(html) else e.template, ver := e.ver + 1);
            && OnlyEntry(s, Step(s, UpdateHtml(name, html, compiled)), name, after)
            && (html != "" ==> Step(s, PageRefetched(name, html, compiled)) == Step(s, UpdateHtml(name, html, compiled)))
    ensures Step(s, PageRefetched(name, "", compiled)) == s
  {
  }

  lemma ClassExactly(entries: map<Name, Entry>, s: State)
    requires s.entries == entries
    ensures AnyStreaming(entries) <==> exists n :: At(s, n).htmlStreaming || At(s, n).jsStreaming
  {
    if n :| At(s, n).htmlStreaming || At(s, n).jsStreaming { assert n in entries; }
    if n :| n in entries && entries[n].Streaming() { assert At(s, n).htmlStreaming || At(s, n).jsStreaming; }
  }

  lemma FlagEntry(s: State, name: Name, html: bool, on: bool)
    ensures var e := At(s, name);
            EntryAndClass(s, SetStreaming(s, name, html, on), name,
              if html then e.(htmlStreaming := on, ver := e.ver + 1) else e.(jsStreaming := on, ver := e.ver + 1))
  {
    var e := if html then At(s, name).(htmlStreaming := on) else At(s, name).(jsStreaming := on);
    var mid := Put(s, name, e).(streamingClass := AnyStreaming(Put(s, name, e).entries));
    ClassExactly(Put(s, name, e).entries, mid);
    PutEntry(s, name, e);
    BumpEntry(mid, name);
    assert SetStreaming(s, name, html, on) == Bump(mid, name);
    hide SetStreaming, AnyStreaming, Put, Bump, At;
    assert EntryAndClass(s, mid, name, e);
    ClassThenEntry(s, mid, Bump(mid, name), name, e, e.(ver := e.ver + 1));
  }

  lemma PutEntry(s: State, name: Name, e: Entry)
    ensures OnlyEntry(s, Put(s, name, e), name, e)
  {
  }

  lemma BumpEntry(s: State, name: Name)
    ensures OnlyEntry(s, Bump(s, name), name, At(s, name).(ver := At(s, name).ver + 1))
  {
  }

  lemma MarkEntry(s: State, name: Name, on: bool)
    ensures OnlyEntry(s, Fetched(s, name, on), name, At(s, name).(fetched := At(s, name).fetched || on))
  {
  }

  lemma MarkupEntry(s: State, name: Name, html: string, compiled: bool)
    ensures var e := At(s, name);
            OnlyEntry(s, WithHtml(s, name, html, compiled), name,
              e.(html := html, template := if compiled then Some(html) else e.template, ver := e.ver + 1))
  {
  }

  lemma EntryThenClass(s: State, mid: State, t: State, name: Name, a: Entry, b: Entry)
    requires OnlyEntry(s, mid, name, a) && EntryAndClass(mid, t, name, b)
    ensures EntryAndClass(s, t, name, b)
  {
  }

  lemma ClassThenEntry(s: State, mid: State, t: State, name: Name, a: Entry, b: Entry)
    requires EntryAndClass(s, mid, name, a) && OnlyEntry(mid, t, name, b)
    requires a.htmlStreaming == b.htmlStreaming && a.jsStreaming == b.jsStreaming
    ensures EntryAndClass(s, t, name, b)
  {
    assert forall n :: At(t, n).htmlStreaming == At(mid, n).htmlStreaming && At(t, n).jsStreaming == At(mid, n).jsStreaming;
  }

  lemma StreamedSteps(s: State, name: Name, html: string, compiled: bool, streaming: bool, eval: Eval)
    ensures Step(s, DcUpdateHtml(name, html, compiled, streaming))
         == WithHtml(SetStreaming(Fetched(s, name, streaming), name, true, streaming), name, html, compiled)
    ensures Step(s, DcUpdateJs(name, eval, true)) == SetStreaming(Fetched(s, name, true), name, false, true)
    ensures Step(s, DcUpdateJs(name, eval, false)) == Step(SetStreaming(Fetched(s, name, false), name, false, false), UpdateJs(name, eval))
  {
    hide SetStreaming, WithHtml, WithJs, Fetched;
  }

  /** Streamed markup: the flag, a mark if it goes on streaming, and the new markup, in two versions. */
  lemma StreamedMarkupExactly(s: State, name: Name, html: string, compiled: bool, streaming: bool)
    ensures var e := At(s, name);
            EntryAndClass(s, Step(s, DcUpdateHtml(name, html, compiled, streaming)), name,
              e.(html := html, template := if compiled then Some(html) else e.template, ver := e.ver + 2,
                 htmlStreaming := streaming, fetched := e.fetched || streaming))
  {
    StreamedSteps(s, name, html, compiled, streaming, Eval([], NotAClass));
    hide Step, At, Fetched, SetStreaming, WithHtml, EntryAndClass;
    var e := At(s, name);
    var a := Fetched(s, name, streaming);
    var b := SetStreaming(a, name, true, streaming);
    var marked := e.(fetched := e.fetched || streaming);
    var flagged := marked.(htmlStreaming := streaming, ver := e.ver + 1);
    MarkEntry(s, name, streaming);
    AtOnly(s, a, name, marked);
    FlagEntry(a, name, true, streaming);
    EntryThenClass(s, a, b, name, marked, flagged);
    AtClass(s, b, name, flagged);
    MarkupEntry(b, name, html, compiled);
    hide OnlyEntry;
    ClassThenEntry(s, b, WithHtml(b, name, html, compiled), name, flagged,
      flagged.(html := html, template := if compiled then Some(html) else e.template, ver := e.ver + 2));
  }

  lemma AtOnly(s: State, t: State, name: Name, e: Entry)
    requires OnlyEntry(s, t, name, e)
    ensures At(t, name) == e
  {
  }

  lemma AtClass(s: State, t: State, name: Name, e: Entry)
    requires EntryAndClass(s, t, name, e)
    ensures At(t, name) == e
  {
  }

  /** A script that goes on streaming is flagged and marked but not evaluated. */
  lemma StreamedScriptExactly(s: State, name: Name, eval: Eval)
    ensures var e := At(s, name);
            EntryAndClass(s, Step(s, DcUpdateJs(name, eval, true)), name,
                          e.(jsStreaming := true, ver := e.ver + 1, fetched := true))
  {
    StreamedSteps(s, name, "", true, true, eval);
    hide Step, At, Fetched, SetStreaming, EntryAndClass;
    var marked := At(s, name).(fetched := true);
    var a := Fetched(s, name, true);
    MarkEntry(s, name, true);
    AtOnly(s, a, name, marked);
    FlagEntry(a, name, false, true);
    EntryThenClass(s, a, SetStreaming(a, name, false, true), name, marked,
                   marked.(jsStreaming := true, ver := marked.ver + 1));
  }

  /** Its last part is flagged off and then evaluated. */
  lemma LastScriptExactly(s: State, name: Name, eval: Eval) returns (mid: State)
    ensures EntryAndClass(s, mid, name, At(s, name).(jsStreaming := false, ver := At(s, name).ver + 1))
    ensures Step(s, DcUpdateJs(name, eval, false)) == Step(mid, UpdateJs(name, eval))
  {
    mid := SetStreaming(s, name, false, false);
    StreamedSteps(s, name, "", true, false, eval);
    FlagEntry(s, name, false, false);
    assert Fetched(s, name, false) == s;
    hide Step, SetStreaming, EntryAndClass;
  }

  /** Streamed declarations and preview replace both, also with nothing; property overrides raise the
      version; other streamed parts only mark the component. */
  lemma PropertiesExactly(s: State, name: Name, props: Option<string>, preview: Option<string>, streaming: bool)
    ensures var e := At(s, name);
            && OnlyEntry(s, Step(s, DcUpdateProps(name, props, preview, streaming)), name,
                 e.(propsMeta := props, preview := preview, ver := e.ver + 1, fetched := e.fetched || streaming))
            && OnlyEntry(s, Step(s, SetProps(name, props)), name, e.(propOverrides := props, ver := e.ver + 1))
            && OnlyEntry(s, Step(s, DcUpdateOther(name, streaming)), name, e.(fetched := e.fetched || streaming))
  {
    PropsEntry(s, name, props, preview, streaming);
    OverridesEntry(s, name, props);
    OtherEntry(s, name, streaming);
    hide *;
  }

  lemma PropsEntry(s: State, name: Name, props: Option<string>, preview: Option<string>, streaming: bool)
    ensures var e := At(s, name);
            OnlyEntry(s, Step(s, DcUpdateProps(name, props, preview, streaming)), name,
              e.(propsMeta := props, preview := preview, ver := e.ver + 1, fetched := e.fetched || streaming))
  {
  }

  lemma OverridesEntry(s: State, name: Name, props: Option<string>)
    ensures OnlyEntry(s, Step(s, SetProps(name, props)), name, At(s, name).(propOverrides := props, ver := At(s, name).ver + 1))
  {
  }

  lemma OtherEntry(s: State, name: Name, streaming: bool)
    ensures OnlyEntry(s, Step(s, DcUpdateOther(name, streaming)), name, At(s, name).(fetched := At(s, name).fetched || streaming))
  {
  }

  /** Parsed declarations replace only what they bring, and raise no version. */
  lemma DeclarationsExactly(s: State, name: Name, props: Option<string>, preview: Option<string>)
    ensures var e, parsed := At(s, name), Parsed("", false, None, props, preview);
            var after := e.(propsMeta := if props == None then e.propsMeta else props,
                            preview := if preview == None then e.preview else preview);
            && OnlyEntry(s, Step(s, AdoptParsed(name, Some(parsed))), name, after)
            && Step(s, FetchDone(name, Some(parsed))) == Step(s, AdoptParsed(name, Some(parsed)))
  {
  }

  lemma BumpAllExactly(s: State, n: Name)
    ensures var t := Step(s, BumpAll);
            && At(t, n) == (if n in s.entries then At(s, n).(ver := At(s, n).ver + 1) else At(s, n))
            && t.entries.Keys == s.entries.Keys
            && t.streamingClass == s.streamingClass && t.fetches == s.fetches && t.lastStarted == s.lastStarted
  {
  }

  // ----- Scripts -----

  /** An evaluation is numbered before the script runs; whatever operations it performs happen in
      between; and its verdict is installed, with a new version, unless the number has moved on. A
      verdict that is no class leaves the class alone and reports why. */
  lemma EvaluationExactly(s: State, name: Name, ops: seq<Op>, verdict: Verdict)
    ensures var number := At(s, name).jsSeq + 1;
            var begun := s.(entries := s.entries[name := At(s, name).(jsSeq := number)],
                            lastStarted := s.lastStarted[name := verdict]);
            var during := Run(begun, ops);
            var t := Step(s, UpdateJs(name, Eval(ops, verdict)));
            var e := At(during, name);
            if e.jsSeq != number then t == during
            else if verdict.Class? then OnlyEntry(during, t, name, e.(logic := Some(verdict.id), logicError := None, ver := e.ver + 1))
            else OnlyEntry(during, t, name, e.(logicError := Some(Report(name, verdict)), ver := e.ver + 1))
  {
    var number := At(s, name).jsSeq + 1;
    EvaluationSteps(s, name, ops, verdict);
    EndExactly(Run(Started(s, name, verdict), ops), name, verdict, number);
    hide *;
  }

  lemma EvaluationSteps(s: State, name: Name, ops: seq<Op>, verdict: Verdict)
    ensures Started(s, name, verdict)
         == s.(entries := s.entries[name := At(s, name).(jsSeq := At(s, name).jsSeq + 1)],
               lastStarted := s.lastStarted[name := verdict])
    ensures Step(s, UpdateJs(name, Eval(ops, verdict)))
         == Ended(Run(Started(s, name, verdict), ops), name, verdict, At(s, name).jsSeq + 1)
  {
    hide *;
    StartedIs(s, name, verdict);
    UpdateIsEvaluation(s, name, Eval(ops, verdict));
    EvaluationIs(s, name, Eval(ops, verdict));
  }

  lemma StartedIs(s: State, name: Name, verdict: Verdict)
    ensures Started(s, name, verdict)
         == s.(entries := s.entries[name := At(s, name).(jsSeq := At(s, name).jsSeq + 1)],
               lastStarted := s.lastStarted[name := verdict])
  {
    hide At;
  }

  lemma EvaluationIs(s: State, name: Name, eval: Eval)
    ensures WithJs(s, name, eval)
         == Ended(Run(Started(s, name, eval.verdict), eval.reentrant), name, eval.verdict, At(s, name).jsSeq + 1)
  {
    hide Run, Ended, Started, At;
  }

  lemma UpdateIsEvaluation(s: State, name: Name, eval: Eval)
    ensures Step(s, UpdateJs(name, eval)) == WithJs(s, name, eval)
  {
    hide WithJs;
  }

  lemma EndExactly(s: State, name: Name, verdict: Verdict, number: nat)
    ensures var e, t := At(s, name), Ended(s, name, verdict, number);
            if e.jsSeq != number then t == s
            else if verdict.Class? then OnlyEntry(s, t, name, e.(logic := Some(verdict.id), logicError := None, ver := e.ver + 1))
            else OnlyEntry(s, t, name, e.(logicError := Some(Report(name, verdict)), ver := e.ver + 1))
  {
    var e := At(s, name);
    var installed := Installed(name, e, verdict);
    PutEntry(s, name, installed);
    BumpEntry(Put(s, name, installed), name);
    hide Put, Bump, At;
  }

  function Report(name: Name, verdict: Verdict): string
    requires !verdict.Class?
  {
    if verdict.Threw? then name + ": " + verdict.message
    else name + ".dc.html: <script data-dc-script> must define `class Component extends DCLogic`"
  }

  /** A run is its operations one after another. */
  lemma {:induction false} RunAppends(s: State, ops: seq<Op>, op: Op)
    ensures Run(s, []) == s && Run(s, ops + [op]) == Step(Run(s, ops), op)
    decreases |ops|
  {
    hide Step;
    if ops == [] {
      assert [] + [op] == [op] && [op][1..] == [];
    } else {
      assert (ops + [op])[1..] == ops[1..] + [op] && (ops + [op])[0] == ops[0];
      RunAppends(Step(s, ops[0]), ops[1..], op);
    }
  }

  // ----- Completions as sequences of updates -----

  function Declarations(p: Parsed): Parsed {
    Parsed("", false, None, p.props, p.preview)
  }

  /** Adopting a parsed page is taking over its declarations, then its markup and its script where it has
      them. */
  lemma AdoptionIsUpdates(s: State, name: Name, p: Parsed)
    ensures Step(s, AdoptParsed(name, None)) == s
    ensures Step(s, AdoptParsed(name, Some(p)))
         == Run(s, [AdoptParsed(name, Some(Declarations(p)))]
                   + (if p.template != "" then [UpdateHtml(name, p.template, p.compiled)] else [])
                   + (if p.js.Some? then [UpdateJs(name, p.js.value)] else []))
  {
    hide *;
    var first := AdoptParsed(name, Some(Declarations(p)));
    var htmls := if p.template != "" then [UpdateHtml(name, p.template, p.compiled)] else [];
    var scripts := if p.js.Some? then [UpdateJs(name, p.js.value)] else [];
    SameDeclarations(s, name, p);
    ThreeParts(s, first, htmls, scripts);
    AdoptionSteps(s, name, p);
  }

  lemma AdoptionSteps(s: State, name: Name, p: Parsed)
    ensures Step(s, AdoptParsed(name, None)) == s
    ensures var a := WithMeta(s, name, p);
            var b := if p.template != "" then Step(a, UpdateHtml(name, p.template, p.compiled)) else a;
            Step(s, AdoptParsed(name, Some(p))) == if p.js.Some? then Step(b, UpdateJs(name, p.js.value)) else b
  {
    hide Run, WithMeta, WithHtml, WithJs, At;
  }

  lemma SameDeclarations(s: State, name: Name, p: Parsed)
    ensures Step(s, AdoptParsed(name, Some(Declarations(p)))) == WithMeta(s, name, p)
    ensures Step(s, FetchDone(name, Some(Declarations(p)))) == WithMeta(s, name, p)
  {
  }

  lemma ThreeParts(s: State, first: Op, second: seq<Op>, third: seq<Op>)
    requires |second| <= 1 && |third| <= 1
    ensures var b := if second == [] then Step(s, first) else Step(Step(s, first), second[0]);
            Run(s, [first] + second + third) == if third == [] then b else Step(b, third[0])
  {
    RunAppends(s, [], first);
    assert [] + [first] == [first];
    if second != [] {
      RunAppends(s, [first], second[0]);
      assert [first] + second == [first] + [second[0]];
    } else {
      assert [first] + second == [first];
    }
    if third != [] {
      RunAppends(s, [first] + second, third[0]);
      assert [first] + second + third == [first] + second + [third[0]];
    } else {
      assert [first] + second + third == [first] + second;
    }
    hide Run, Step;
  }

  /** A completed sibling fetch is the same, but its markup counts only where there is no source yet and
      its script only where there is no class. */
  lemma CompletionIsUpdates(s: State, name: Name, p: Parsed)
    ensures Step(s, FetchDone(name, None)) == s
    ensures Step(s, FetchDone(name, Some(p)))
         == Run(s, [FetchDone(name, Some(Declarations(p)))]
                   + (if p.template != "" && At(s, name).html == "" then [UpdateHtml(name, p.template, p.compiled)] else [])
                   + (if p.js.Some? && At(s, name).logic == None then [UpdateJs(name, p.js.value)] else []))
  {
    hide *;
    var first := FetchDone(name, Some(Declarations(p)));
    var htmls := if p.template != "" && At(s, name).html == "" then [UpdateHtml(name, p.template, p.compiled)] else [];
    var scripts := if p.js.Some? && At(s, name).logic == None then [UpdateJs(name, p.js.value)] else [];
    SameDeclarations(s, name, p);
    ThreeParts(s, first, htmls, scripts);
    CompletionSteps(s, name, p);
  }

  lemma CompletionSteps(s: State, name: Name, p: Parsed)
    ensures Step(s, FetchDone(name, None)) == s
    ensures var a := WithMeta(s, name, p);
            var b := if p.template != "" && At(s, name).html == "" then Step(a, UpdateHtml(name, p.template, p.compiled)) else a;
            Step(s, FetchDone(name, Some(p)))
            == if p.js.Some? && At(s, name).logic == None then Step(b, UpdateJs(name, p.js.value)) else b
  {
    MetaOnly(s, name, p);
    HtmlKeepsLogic(WithMeta(s, name, p), name, p.template, p.compiled);
    hide Run, WithMeta, WithHtml, WithJs, At;
  }
}
