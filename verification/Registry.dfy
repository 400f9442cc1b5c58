/** The component registry and runtime of dc-runtime: updates, streaming, sibling fetches and
    re-entrant evaluation (LP/assets/9367c065-0eb8-43d7-96aa-cd5bd931f686.js). */
module Registry {
  import opened Common

  type Name = string

  /** What evaluating a logic script comes to. A class is an identity. */
  datatype Verdict = Class(id: int) | NotAClass | Threw(message: string)

  /** An evaluation: the runtime operations the script performs while it runs, then its verdict. */
  datatype Eval = Eval(reentrant: seq<Op>, verdict: Verdict)

  /** A parsed component; `compiled` says whether its template compiles, an absent script is None. */
  datatype Parsed = Parsed(template: string, compiled: bool, js: Option<Eval>, props: Option<string>, preview: Option<string>)

  /** Everything that can happen to the runtime. `FetchDone` is a sibling fetch completing, None when
      it brings no component; `PageRefetched` is the page's own source arriving after boot. */
  datatype Op =
    | EnsureFetched(name: Name)
    | FetchDone(name: Name, parsed: Option<Parsed>)
    | PageRefetched(name: Name, template: string, compiled: bool)
    | UpdateHtml(name: Name, html: string, compiled: bool)
    | UpdateJs(name: Name, eval: Eval)
    | DcUpdateHtml(name: Name, html: string, compiled: bool, streaming: bool)
    | DcUpdateJs(name: Name, eval: Eval, streaming: bool)
    | DcUpdateProps(name: Name, props: Option<string>, preview: Option<string>, streaming: bool)
    | DcUpdateOther(name: Name, streaming: bool)
    | SetProps(name: Name, overrides: Option<string>)
    | AdoptParsed(name: Name, parsed: Option<Parsed>)
    | MarkFetched(name: Name)
    | BumpAll

  /** A registry entry; `template` is the source of the compiled template. */
  datatype Entry = Entry(
    html: string, template: Option<string>, logic: Option<int>, logicError: Option<string>,
    jsStreaming: bool, htmlStreaming: bool, ver: nat, fetched: bool, jsSeq: nat,
    propsMeta: Option<string>, preview: Option<string>, propOverrides: Option<string>)
  {
    predicate Streaming() { htmlStreaming || jsStreaming }
  }

  const FRESH: Entry := Entry("", None, None, None, false, false, 0, false, 0, None, None, None)

  /** The state: the entries, the streaming class of the document, the sibling fetches started so
      far and, for every component, the verdict of the evaluation started last. */
  datatype State = State(entries: map<Name, Entry>, streamingClass: bool, fetches: seq<Name>, lastStarted: map<Name, Verdict>)

  const EMPTY: State := State(map[], false, [], map[])

  function At(s: State, name: Name): Entry {
    if name in s.entries then s.entries[name] else FRESH
  }

  function Put(s: State, name: Name, e: Entry): State {
    s.(entries := s.entries[name := e])
  }

  function Bump(s: State, name: Name): State {
    Put(s, name, At(s, name).(ver := At(s, name).ver + 1))
  }

  function BumpedAll(s: State): State {
    s.(entries := map n | n in s.entries :: s.entries[n].(ver := s.entries[n].ver + 1))
  }

  predicate AnyStreaming(entries: map<Name, Entry>) {
    exists n | n in entries :: entries[n].Streaming()
  }

  function SetStreaming(s: State, name: Name, html: bool, on: bool): State {
    var e := if html then At(s, name).(htmlStreaming := on) else At(s, name).(jsStreaming := on);
    var t := Put(s, name, e);
    Bump(t.(streamingClass := AnyStreaming(t.entries)), name)
  }

  function WithHtml(s: State, name: Name, html: string, compiled: bool): State {
    var e := At(s, name).(html := html);
    Bump(Put(s, name, if compiled then e.(template := Some(html)) else e), name)
  }

  const NO_CLASS := ".dc.html: <script data-dc-script> must define `class Component extends DCLogic`"

  function Installed(name: Name, e: Entry, verdict: Verdict): Entry {
    match verdict
    case Class(id) => e.(logic := Some(id), logicError := None)
    case NotAClass => e.(logicError := Some(name + NO_CLASS))
    case Threw(message) => e.(logicError := Some(name + ": " + message))
  }

  /** An evaluation begins: it takes the next sequence number. */
  function Started(s: State, name: Name, verdict: Verdict): State {
    Put(s, name, At(s, name).(jsSeq := At(s, name).jsSeq + 1)).(lastStarted := s.lastStarted[name := verdict])
  }

  /** An evaluation ends: its verdict counts only if no other evaluation began meanwhile. */
  function Ended(s: State, name: Name, verdict: Verdict, jsSeq: nat): State {
    if At(s, name).jsSeq != jsSeq then s else Bump(Put(s, name, Installed(name, At(s, name), verdict)), name)
  }

  function WithJs(s: State, name: Name, eval: Eval): State
    decreases eval
  {
    Ended(Run(Started(s, name, eval.verdict), eval.reentrant), name, eval.verdict, At(s, name).jsSeq + 1)
  }

  function WithMeta(s: State, name: Name, parsed: Parsed): State {
    var e := At(s, name);
    Put(s, name, e.(propsMeta := if parsed.props.Some? then parsed.props else e.propsMeta,
                    preview := if parsed.preview.Some? then parsed.preview else e.preview))
  }

  function Fetched(s: State, name: Name, on: bool): State {
    if on then Put(s, name, At(s, name).(fetched := true)) else s
  }

  function Step(s: State, op: Op): State
    decreases op
  {
    match op
    case EnsureFetched(name) =>
      if At(s, name).fetched then s else Fetched(s, name, true).(fetches := s.fetches + [name])
    case FetchDone(name, parsed) =>
      if parsed.None? then s
      else
        var p := parsed.value;
        var a := WithMeta(s, name, p);
        var b := if p.template != "" && At(a, name).html == "" then WithHtml(a, name, p.template, p.compiled) else a;
        if p.js.Some? && At(b, name).logic.None? then WithJs(b, name, p.js.value) else b
    case PageRefetched(name, template, compiled) =>
      if template != "" then WithHtml(s, name, template, compiled) else s
    case UpdateHtml(name, html, compiled) => WithHtml(s, name, html, compiled)
    case UpdateJs(name, eval) => WithJs(s, name, eval)
    case DcUpdateHtml(name, html, compiled, streaming) =>
      WithHtml(SetStreaming(Fetched(s, name, streaming), name, true, streaming), name, html, compiled)
    case DcUpdateJs(name, eval, streaming) =>
      var a := SetStreaming(Fetched(s, name, streaming), name, false, streaming);
      if streaming then a else WithJs(a, name, eval)
    case DcUpdateProps(name, props, preview, streaming) =>
      var a := Fetched(s, name, streaming);
      Bump(Put(a, name, At(a, name).(propsMeta := props, preview := preview)), name)
    case DcUpdateOther(name, streaming) => Fetched(s, name, streaming)
    case SetProps(name, overrides) => Bump(Put(s, name, At(s, name).(propOverrides := overrides)), name)
    case AdoptParsed(name, parsed) =>
      if parsed.None? then s
      else
        var p := parsed.value;
        var a := WithMeta(s, name, p);
        var b := if p.template != "" then WithHtml(a, name, p.template, p.compiled) else a;
        if p.js.Some? then WithJs(b, name, p.js.value) else b
    case MarkFetched(name) => Fetched(s, name, true)
    case BumpAll => BumpedAll(s)
  }

  function Run(s: State, ops: seq<Op>): State
    decreases ops
  {
    if ops == [] then s else Run(Step(s, ops[0]), ops[1..])
  }

  // ----- What every step keeps -----

  /** The document carries the streaming class exactly while some entry streams; no component is
      fetched twice, and one that was fetched is marked so. */
  ghost predicate Sound(s: State) {
    (s.streamingClass <==> AnyStreaming(s.entries)) && FetchedOnce(s)
  }

  ghost predicate FetchedOnce(s: State) {
    && (forall i, j | 0 <= i < j < |s.fetches| :: s.fetches[i] != s.fetches[j])
    && (forall n | n in s.fetches :: At(s, n).fetched)
  }

  /** What a subscriber can see of an entry. */
  function Visible(e: Entry): (string, Option<string>, Option<int>, Option<string>, (bool, bool), Option<string>) {
    (e.html, e.template, e.logic, e.logicError, (e.htmlStreaming, e.jsStreaming), e.propOverrides)
  }

  /** The entry shows the verdict of the evaluation that was started last. */
  predicate Settled(s: State, n: Name) {
    n in s.lastStarted ==> Installed(n, At(s, n), s.lastStarted[n]) == At(s, n)
  }

  predicate SameLogic(s: State, t: State, n: Name) {
    && At(t, n).logic == At(s, n).logic && At(t, n).logicError == At(s, n).logicError
    && (n in t.lastStarted <==> n in s.lastStarted)
    && (n in s.lastStarted ==> t.lastStarted[n] == s.lastStarted[n])
  }

  /** How one component may evolve: its version and sequence number never drop; a visible change
      raises the version; a new class or logic error takes a new sequence number, and then the entry
      is settled; and once marked it stays marked and is not fetched any more. */
  ghost predicate Evolves(s: State, t: State, n: Name) {
    && At(s, n).ver <= At(t, n).ver && At(s, n).jsSeq <= At(t, n).jsSeq
    && (Visible(At(s, n)) != Visible(At(t, n)) ==> At(s, n).ver < At(t, n).ver)
    && (if At(s, n).jsSeq == At(t, n).jsSeq then SameLogic(s, t, n) else Settled(t, n))
    && (At(s, n).fetched ==> At(t, n).fetched && (n in t.fetches ==> n in s.fetches))
  }

  ghost predicate Advances(s: State, t: State) {
    && (forall n :: Evolves(s, t, n))
    && (Sound(s) ==> Sound(t))
    && s.fetches <= t.fetches
  }

  lemma SettledCarries(s: State, t: State, n: Name)
    requires Settled(s, n) && SameLogic(s, t, n)
    ensures Settled(t, n)
  {
  }

  lemma EvolvesTransitive(s: State, t: State, r: State, n: Name)
    requires Evolves(s, t, n) && Evolves(t, r, n)
    ensures Evolves(s, r, n)
  {
    if At(t, n).jsSeq == At(r, n).jsSeq && At(s, n).jsSeq != At(t, n).jsSeq { SettledCarries(t, r, n); }
    hide At, Visible, Settled;
  }

  lemma AdvancesTransitive(s: State, t: State, r: State)
    requires Advances(s, t) && Advances(t, r)
    ensures Advances(s, r)
  {
    hide Evolves, Sound;
    forall n ensures Evolves(s, r, n) {
      assert Evolves(s, t, n) && Evolves(t, r, n);
      EvolvesTransitive(s, t, r, n);
    }
  }

  /** Two states whose entries stream alike agree on whether anything streams. */
  lemma StreamAlike(s: State, t: State)
    requires forall n :: At(s, n).Streaming() == At(t, n).Streaming()
    ensures AnyStreaming(s.entries) == AnyStreaming(t.entries)
  {
    if n :| n in s.entries && s.entries[n].Streaming() { assert At(t, n).Streaming(); }
    if n :| n in t.entries && t.entries[n].Streaming() { assert At(s, n).Streaming(); }
  }

  lemma FetchedOnceKept(s: State, t: State)
    requires t.fetches == s.fetches && FetchedOnce(s) && forall n :: At(s, n).fetched ==> At(t, n).fetched
    ensures FetchedOnce(t)
  {
  }

  /** Replacing one entry: nothing its subscribers see, or with the version raised. */
  lemma PutAdvances(s: State, name: Name, e: Entry)
    requires e.jsSeq == At(s, name).jsSeq && e.ver >= At(s, name).ver
    requires e.logic == At(s, name).logic && e.logicError == At(s, name).logicError
    requires e.Streaming() == At(s, name).Streaming() && (At(s, name).fetched ==> e.fetched)
    requires Visible(e) != Visible(At(s, name)) ==> e.ver > At(s, name).ver
    ensures Advances(s, Put(s, name, e))
  {
    var t := Put(s, name, e);
    forall n ensures Evolves(s, t, n) {}
    StreamAlike(s, t);
    if FetchedOnce(s) { FetchedOnceKept(s, t); }
  }

  lemma WithHtmlAdvances(s: State, name: Name, html: string, compiled: bool)
    ensures Advances(s, WithHtml(s, name, html, compiled))
  {
    hide Advances;
    var e := At(s, name).(html := html);
    var f := if compiled then e.(template := Some(html)) else e;
    PutAdvances(s, name, f.(ver := f.ver + 1));
    assert WithHtml(s, name, html, compiled).entries == s.entries[name := f.(ver := f.ver + 1)];
  }

  lemma WithMetaAdvances(s: State, name: Name, parsed: Parsed)
    ensures Advances(s, WithMeta(s, name, parsed))
  {
    hide Advances;
    PutAdvances(s, name, At(WithMeta(s, name, parsed), name));
  }

  lemma FetchedAdvances(s: State, name: Name, on: bool)
    ensures Advances(s, Fetched(s, name, on))
  {
    hide Advances;
    PutAdvances(s, name, At(Fetched(s, name, on), name));
    if !on { NothingAdvances(s); }
  }

  lemma NothingAdvances(s: State)
    ensures Advances(s, s)
  {
  }

  lemma BumpedAdvances(s: State, name: Name, e: Entry)
    requires e.jsSeq == At(s, name).jsSeq && e.ver == At(s, name).ver
    requires e.logic == At(s, name).logic && e.logicError == At(s, name).logicError
    requires e.Streaming() == At(s, name).Streaming() && (At(s, name).fetched ==> e.fetched)
    ensures Advances(s, Bump(Put(s, name, e), name))
  {
    hide Advances;
    PutAdvances(s, name, e.(ver := e.ver + 1));
    assert Bump(Put(s, name, e), name).entries == s.entries[name := e.(ver := e.ver + 1)];
  }

  lemma SetStreamingAdvances(s: State, name: Name, html: bool, on: bool)
    ensures Advances(s, SetStreaming(s, name, html, on))
  {
    var e := if html then At(s, name).(htmlStreaming := on) else At(s, name).(jsStreaming := on);
    var middle, t := Put(s, name, e), SetStreaming(s, name, html, on);
    forall n ensures Evolves(s, t, n) {}
    StreamAlike(middle, t);
    if FetchedOnce(s) { FetchedOnceKept(s, t); }
  }

  lemma EnsureFetchedAdvances(s: State, name: Name)
    ensures Advances(s, Step(s, EnsureFetched(name)))
  {
    var t := Step(s, EnsureFetched(name));
    forall n ensures Evolves(s, t, n) {}
    StreamAlike(s, t);
  }

  lemma BumpAllAdvances(s: State)
    ensures Advances(s, Step(s, BumpAll))
  {
    var t := Step(s, BumpAll);
    forall n ensures Evolves(s, t, n) {}
    StreamAlike(s, t);
    if FetchedOnce(s) { FetchedOnceKept(s, t); }
  }

  lemma {:induction false} WithJsAdvances(s: State, name: Name, eval: Eval)
    ensures Advances(s, WithJs(s, name, eval))
    decreases eval
  {
    hide Advances, Ended, Started;
    var started := Started(s, name, eval.verdict);
    RunAdvances(started, eval.reentrant);
    StartAndEnd(s, name, eval.verdict, Run(started, eval.reentrant));
  }

  lemma InstalledFacts(n: Name, e: Entry, verdict: Verdict)
    ensures var i := Installed(n, e, verdict);
      && i == e.(logic := i.logic, logicError := i.logicError)
      && forall ver :: Installed(n, i.(ver := ver), verdict) == i.(ver := ver)
  {
  }

  lemma StartEvolvesOther(s: State, name: Name, verdict: Verdict, mid: State, n: Name)
    requires Evolves(Started(s, name, verdict), mid, n) && n != name
    ensures Evolves(s, Ended(mid, name, verdict, At(s, name).jsSeq + 1), n)
  {
    hide Installed;
    var started, t := Started(s, name, verdict), Ended(mid, name, verdict, At(s, name).jsSeq + 1);
    assert At(started, n) == At(s, n) && At(t, n) == At(mid, n);
    assert t.lastStarted == mid.lastStarted && t.fetches == mid.fetches && started.fetches == s.fetches;
  }

  lemma StartEvolvesSame(s: State, name: Name, verdict: Verdict, mid: State)
    requires Evolves(Started(s, name, verdict), mid, name)
    ensures Evolves(s, Ended(mid, name, verdict, At(s, name).jsSeq + 1), name)
  {
    hide Installed;
    var seqNo := At(s, name).jsSeq + 1;
    var t := Ended(mid, name, verdict, seqNo);
    InstalledFacts(name, At(mid, name), verdict);
    if At(mid, name).jsSeq == seqNo {
      assert mid.lastStarted[name] == verdict;
      var i := Installed(name, At(mid, name), verdict);
      assert At(t, name) == i.(ver := i.ver + 1);
      assert Settled(t, name);
    } else {
      assert Settled(t, name);
    }
  }

  lemma StartSound(s: State, name: Name, verdict: Verdict)
    requires Sound(s)
    ensures Sound(Started(s, name, verdict))
  {
    var t := Started(s, name, verdict);
    StreamAlike(s, t);
    FetchedOnceKept(s, t);
  }

  lemma EndSound(s: State, name: Name, verdict: Verdict, jsSeq: nat)
    requires Sound(s)
    ensures Sound(Ended(s, name, verdict, jsSeq))
  {
    hide Installed;
    var t := Ended(s, name, verdict, jsSeq);
    InstalledFacts(name, At(s, name), verdict);
    StreamAlike(s, t);
    FetchedOnceKept(s, t);
  }

  lemma StartAndEnd(s: State, name: Name, verdict: Verdict, mid: State)
    requires Advances(Started(s, name, verdict), mid)
    ensures Advances(s, Ended(mid, name, verdict, At(s, name).jsSeq + 1))
  {
    hide Evolves, Sound, Installed;
    var started, t := Started(s, name, verdict), Ended(mid, name, verdict, At(s, name).jsSeq + 1);
    forall n ensures Evolves(s, t, n) {
      assert Evolves(started, mid, n);
      if n == name { StartEvolvesSame(s, name, verdict, mid); } else { StartEvolvesOther(s, name, verdict, mid, n); }
    }
    if Sound(s) {
      StartSound(s, name, verdict);
      EndSound(mid, name, verdict, At(s, name).jsSeq + 1);
    }
  }

  /** Every step, whatever it re-enters, advances. */
  lemma {:induction false} StepAdvances(s: State, op: Op)
    ensures Advances(s, Step(s, op))
    decreases op
  {
    hide Advances, WithHtml, WithMeta, Fetched, SetStreaming, WithJs;
    NothingAdvances(s);
    match op {
      case EnsureFetched(name) => EnsureFetchedAdvances(s, name);
      case FetchDone(name, parsed) =>
        if parsed.Some? { AdoptionAdvances(s, name, parsed.value); }
      case PageRefetched(name, template, compiled) => WithHtmlAdvances(s, name, template, compiled);
      case UpdateHtml(name, html, compiled) => WithHtmlAdvances(s, name, html, compiled);
      case UpdateJs(name, eval) => WithJsAdvances(s, name, eval);
      case DcUpdateHtml(name, html, compiled, streaming) =>
        var a := Fetched(s, name, streaming);
        var b := SetStreaming(a, name, true, streaming);
        FetchedAdvances(s, name, streaming);
        SetStreamingAdvances(a, name, true, streaming);
        AdvancesTransitive(s, a, b);
        WithHtmlAdvances(b, name, html, compiled);
        AdvancesTransitive(s, b, WithHtml(b, name, html, compiled));
      case DcUpdateJs(name, eval, streaming) =>
        var a := Fetched(s, name, streaming);
        var b := SetStreaming(a, name, false, streaming);
        FetchedAdvances(s, name, streaming);
        SetStreamingAdvances(a, name, false, streaming);
        AdvancesTransitive(s, a, b);
        WithJsAdvances(b, name, eval);
        AdvancesTransitive(s, b, WithJs(b, name, eval));
      case DcUpdateProps(name, props, preview, streaming) =>
        var a := Fetched(s, name, streaming);
        FetchedAdvances(s, name, streaming);
        var e := At(a, name).(propsMeta := props, preview := preview);
        BumpedAdvances(a, name, e);
        AdvancesTransitive(s, a, Bump(Put(a, name, e), name));
      case DcUpdateOther(name, streaming) => FetchedAdvances(s, name, streaming);
      case SetProps(name, overrides) => BumpedAdvances(s, name, At(s, name).(propOverrides := overrides));
      case AdoptParsed(name, parsed) =>
        if parsed.Some? { AdoptionAdvances(s, name, parsed.value); }
      case MarkFetched(name) => FetchedAdvances(s, name, true);
      case BumpAll => BumpAllAdvances(s);
    }
  }

  /** Taking over a parsed component advances, whichever of its parts are taken. */
  lemma {:induction false} AdoptionAdvances(s: State, name: Name, parsed: Parsed)
    ensures var a := WithMeta(s, name, parsed);
      var b := WithHtml(a, name, parsed.template, parsed.compiled);
      && Advances(s, a) && Advances(s, b)
      && (parsed.js.Some? ==> Advances(s, WithJs(a, name, parsed.js.value)) && Advances(s, WithJs(b, name, parsed.js.value)))
    decreases parsed
  {
    hide Advances, WithHtml, WithMeta, WithJs;
    var a := WithMeta(s, name, parsed);
    var b := WithHtml(a, name, parsed.template, parsed.compiled);
    WithMetaAdvances(s, name, parsed);
    WithHtmlAdvances(a, name, parsed.template, parsed.compiled);
    AdvancesTransitive(s, a, b);
    if parsed.js.Some? {
      WithJsAdvances(a, name, parsed.js.value);
      WithJsAdvances(b, name, parsed.js.value);
      AdvancesTransitive(s, a, WithJs(a, name, parsed.js.value));
      AdvancesTransitive(s, b, WithJs(b, name, parsed.js.value));
    }
  }

  /** Over every run, in every interleaving and with every re-entrance: versions never drop, visible
      changes are announced, nothing is fetched twice, the streaming class is right, and a component
      whose logic changed shows the verdict of the evaluation started last. */
  lemma {:induction false} RunAdvances(s: State, ops: seq<Op>)
    ensures Advances(s, Run(s, ops))
    decreases ops
  {
    hide Advances, Step;
    if ops == [] {
      NothingAdvances(s);
    } else {
      StepAdvances(s, ops[0]);
      RunAdvances(Step(s, ops[0]), ops[1..]);
      AdvancesTransitive(s, Step(s, ops[0]), Run(s, ops));
    }
  }

  // ----- The runtime object -----

  /** The state with the versions of these components raised. */
  ghost function BumpedSome(s: State, names: set<Name>): State {
    s.(entries := map n | n in s.entries :: if n in names then s.entries[n].(ver := s.entries[n].ver + 1) else s.entries[n])
  }

  lemma BumpedSomeEnds(s: State)
    ensures BumpedSome(s, {}) == s && BumpedSome(s, s.entries.Keys) == BumpedAll(s)
  {
    assert BumpedSome(s, {}).entries == s.entries;
    assert BumpedSome(s, s.entries.Keys).entries == BumpedAll(s).entries;
  }

  lemma BumpedSomeStep(s: State, names: set<Name>, name: Name)
    requires name in s.entries && name !in names
    ensures Bump(BumpedSome(s, names), name) == BumpedSome(s, names + {name})
  {
    assert Bump(BumpedSome(s, names), name).entries == BumpedSome(s, names + {name}).entries;
  }

  /** The runtime; every method changes it as the step functions say. */
  class Runtime {
    var entries: map<Name, Entry>
    var streamingClass: bool
    var fetches: seq<Name>
    ghost var lastStarted: map<Name, Verdict>

    constructor ()
      ensures Now() == EMPTY
    {
      entries, streamingClass, fetches, lastStarted := map[], false, [], map[];
    }

    ghost function Now(): State
      reads this
    {
      State(entries, streamingClass, fetches, lastStarted)
    }

    method Get(name: Name) returns (e: Entry)
      ensures e == At(Now(), name)
    {
      e := if name in entries then entries[name] else FRESH;
    }

    method BumpOne(name: Name)
      modifies `entries
      ensures Now() == Bump(old(Now()), name)
    {
      var e := Get(name);
      entries := entries[name := e.(ver := e.ver + 1)];
    }

    method ScanStreaming() returns (any: bool)
      ensures any == AnyStreaming(entries)
    {
      any := false;
      var left := entries.Keys;
      while left != {}
        invariant left <= entries.Keys
        invariant forall n | n in entries && n !in left :: !entries[n].Streaming()
        decreases |left|
      {
        var n :| n in left;
        left := left - {n};
        if entries[n].htmlStreaming || entries[n].jsStreaming { return true; }
      }
    }

    method SetStreamingFlag(name: Name, html: bool, on: bool)
      modifies `entries, `streamingClass
      ensures Now() == SetStreaming(old(Now()), name, html, on)
    {
      hide AnyStreaming;
      var e := Get(name);
      entries := entries[name := if html then e.(htmlStreaming := on) else e.(jsStreaming := on)];
      streamingClass := ScanStreaming();
      BumpOne(name);
    }

    method BumpEvery()
      modifies `entries
      ensures Now() == BumpedAll(old(Now()))
    {
      hide BumpedSome, BumpedAll, Bump, AnyStreaming, At;
      ghost var start := Now();
      ghost var done: set<Name> := {};
      var left := entries.Keys;
      BumpedSomeEnds(start);
      while left != {}
        invariant left + done == start.entries.Keys && left !! done
        invariant Now() == BumpedSome(start, done)
        decreases left
      {
        var n :| n in left;
        left := left - {n};
        BumpedSomeStep(start, done, n);
        BumpOne(n);
        done := done + {n};
      }
      assert done == start.entries.Keys;
    }

    method Fetch(name: Name)
      modifies `entries, `fetches
      ensures Now() == Step(old(Now()), EnsureFetched(name))
    {
      var e := Get(name);
      if e.fetched { return; }
      entries := entries[name := e.(fetched := true)];
      fetches := fetches + [name];
    }

    method SetHtml(name: Name, html: string, compiled: bool)
      modifies `entries
      ensures Now() == WithHtml(old(Now()), name, html, compiled)
    {
      var e := Get(name);
      entries := entries[name := e.(html := html)];
      if compiled { entries := entries[name := entries[name].(template := Some(html))]; }
      BumpOne(name);
    }

    method SetJs(name: Name, eval: Eval)
      modifies this
      ensures Now() == WithJs(old(Now()), name, eval)
      decreases eval
    {
      var e := Get(name);
      var seqNo := e.jsSeq + 1;
      entries := entries[name := e.(jsSeq := seqNo)];
      lastStarted := lastStarted[name := eval.verdict];
      PerformAll(eval.reentrant);
      var r := Get(name);
      if r.jsSeq != seqNo { return; }
      entries := entries[name := Installed(name, r, eval.verdict)];
      BumpOne(name);
    }

    method SetMeta(name: Name, parsed: Parsed)
      modifies `entries
      ensures Now() == WithMeta(old(Now()), name, parsed)
    {
      var e := Get(name);
      if parsed.props.Some? { e := e.(propsMeta := parsed.props); }
      if parsed.preview.Some? { e := e.(preview := parsed.preview); }
      entries := entries[name := e];
    }

    method Mark(name: Name)
      modifies `entries
      ensures Now() == Fetched(old(Now()), name, true)
    {
      var e := Get(name);
      entries := entries[name := e.(fetched := true)];
    }

    method MarkAndFlag(name: Name, html: bool, streaming: bool)
      modifies `entries, `streamingClass
      ensures Now() == SetStreaming(Fetched(old(Now()), name, streaming), name, html, streaming)
    {
      hide SetStreaming;
      if streaming { Mark(name); }
      SetStreamingFlag(name, html, streaming);
    }

    method CompleteFetch(name: Name, parsed: Parsed)
      modifies this
      ensures Now() == Step(old(Now()), FetchDone(name, Some(parsed)))
      decreases parsed
    {
      hide WithMeta, WithHtml, WithJs;
      SetMeta(name, parsed);
      var e := Get(name);
      if parsed.template != "" && e.html == "" { SetHtml(name, parsed.template, parsed.compiled); }
      e := Get(name);
      if parsed.js.Some? && e.logic.None? { SetJs(name, parsed.js.value); }
    }

    method Adopt(name: Name, parsed: Parsed)
      modifies this
      ensures Now() == Step(old(Now()), AdoptParsed(name, Some(parsed)))
      decreases parsed
    {
      hide WithMeta, WithHtml, WithJs;
      SetMeta(name, parsed);
      if parsed.template != "" { SetHtml(name, parsed.template, parsed.compiled); }
      if parsed.js.Some? { SetJs(name, parsed.js.value); }
    }

    method Perform(op: Op)
      modifies this
      ensures Now() == Step(old(Now()), op)
      decreases op
    {
      hide WithMeta, WithHtml, WithJs, SetStreaming, BumpedAll, At, Run;
      match op {
        case EnsureFetched(name) => Fetch(name);
        case FetchDone(name, parsed) => if parsed.Some? { CompleteFetch(name, parsed.value); }
        case PageRefetched(name, template, compiled) => if template != "" { SetHtml(name, template, compiled); }
        case UpdateHtml(name, html, compiled) => SetHtml(name, html, compiled);
        case UpdateJs(name, eval) => SetJs(name, eval);
        case DcUpdateHtml(name, html, compiled, streaming) =>
          MarkAndFlag(name, true, streaming);
          SetHtml(name, html, compiled);
        case DcUpdateJs(name, eval, streaming) =>
          MarkAndFlag(name, false, streaming);
          if !streaming { SetJs(name, eval); }
        case DcUpdateProps(name, props, preview, streaming) =>
          if streaming { Mark(name); }
          var e := Get(name);
          entries := entries[name := e.(propsMeta := props, preview := preview)];
          BumpOne(name);
        case DcUpdateOther(name, streaming) => if streaming { Mark(name); }
        case SetProps(name, overrides) =>
          var e := Get(name);
          entries := entries[name := e.(propOverrides := overrides)];
          BumpOne(name);
        case AdoptParsed(name, parsed) => if parsed.Some? { Adopt(name, parsed.value); }
        case MarkFetched(name) => Mark(name);
        case BumpAll => BumpEvery();
      }
    }

    method PerformAll(ops: seq<Op>)
      modifies this
      ensures Now() == Run(old(Now()), ops)
      decreases ops
    {
      if ops != [] {
        Perform(ops[0]);
        PerformAll(ops[1..]);
      }
    }
  }

  // ----- Consequences for runs from the start -----

  lemma RunFromEmpty(ops: seq<Op>)
    ensures Sound(Run(EMPTY, ops))
    ensures forall n :: Settled(Run(EMPTY, ops), n)
  {
    var t := Run(EMPTY, ops);
    RunAdvances(EMPTY, ops);
    hide Run, Sound;
    assert Sound(EMPTY) by { EmptyIsSound(); }
    forall n ensures Settled(t, n) {
      assert Evolves(EMPTY, t, n);
    }
  }

  lemma EmptyIsSound()
    ensures Sound(EMPTY)
  {
  }

  /** A component that was streamed into, adopted as fetched or fetched once is never fetched again. */
  lemma NeverFetchedAgain(s: State, name: Name, ops: seq<Op>)
    requires At(s, name).fetched
    ensures name in Run(s, ops).fetches <==> name in s.fetches
  {
    RunAdvances(s, ops);
    hide Run;
    assert Evolves(s, Run(s, ops), name);
  }

  /** A completion for a component that has both a template source and a class leaves both, and every
      other entry, alone; it does not even raise the version. */
  lemma LateFetchOverwritesNothing(s: State, name: Name, parsed: Parsed)
    requires At(s, name).html != "" && At(s, name).logic.Some?
    ensures Step(s, FetchDone(name, Some(parsed))) == WithMeta(s, name, parsed)
    ensures var t := Step(s, FetchDone(name, Some(parsed)));
      Visible(At(t, name)) == Visible(At(s, name)) && At(t, name).ver == At(s, name).ver
  {
    hide WithJs;
  }

  /** A fetched component without a script. */
  function Plain(template: string, compiled: bool): Parsed {
    Parsed(template, compiled, None, None, None)
  }

  /** The guard looks at the source, not at the template: an installed template is safe from every
      late completion exactly when its entry's source is not empty. */
  lemma LateFetchKeepsTemplateExactly(s: State, name: Name)
    requires At(s, name).template.Some?
    ensures At(s, name).html != "" <==>
            forall template, compiled ::
              At(Step(s, FetchDone(name, Some(Plain(template, compiled)))), name).template == At(s, name).template
  {
    if At(s, name).html == "" {
      var other := At(s, name).template.value + "x";
      assert At(Step(s, FetchDone(name, Some(Plain(other, true)))), name).template == Some(other);
    }
  }

  /** The failing run: a reference starts the fetch, an editor streams an empty template, the fetch
      completes, and its template replaces the installed one. */
  lemma EmptyTemplateIsOverwritten(name: Name, late: string)
    requires late != ""
    ensures var s := Run(EMPTY, [EnsureFetched(name), DcUpdateHtml(name, "", true, true)]);
      && At(s, name).template == Some("") && name in s.fetches
      && At(Step(s, FetchDone(name, Some(Plain(late, true)))), name).template == Some(late)
  {
    hide AnyStreaming;
    var a := Step(EMPTY, EnsureFetched(name));
    var second := DcUpdateHtml(name, "", true, true);
    var b := Step(a, second);
    assert [EnsureFetched(name), second][1..] == [second] && [second][1..] == [];
    assert Run(EMPTY, [EnsureFetched(name), second]) == Run(a, [second]) == Run(b, []) == b;
    assert At(b, name).template == Some("") && At(b, name).html == "";
  }

  /** Part by part, whatever the fetched script does when it runs: a completion for a component with a
      template acts as if it brought none, and one for a component with a class as if it brought no
      script. */
  lemma LateFetchIgnoresInstalledParts(s: State, name: Name, parsed: Parsed)
    ensures At(s, name).html != "" ==>
      Step(s, FetchDone(name, Some(parsed))) == Step(s, FetchDone(name, Some(parsed.(template := ""))))
    ensures At(s, name).logic.Some? ==>
      Step(s, FetchDone(name, Some(parsed))) == Step(s, FetchDone(name, Some(parsed.(js := None))))
  {
    hide WithJs, WithHtml;
    MetaOnly(s, name, parsed);
    if At(s, name).logic.Some? {
      HtmlKeepsLogic(WithMeta(s, name, parsed), name, parsed.template, parsed.compiled);
    }
    hide WithMeta;
  }

  lemma MetaOnly(s: State, name: Name, parsed: Parsed)
    ensures WithMeta(s, name, parsed.(template := "")) == WithMeta(s, name, parsed)
    ensures WithMeta(s, name, parsed.(js := None)) == WithMeta(s, name, parsed)
    ensures At(WithMeta(s, name, parsed), name).html == At(s, name).html
    ensures At(WithMeta(s, name, parsed), name).logic == At(s, name).logic
  {
  }

  lemma HtmlKeepsLogic(s: State, name: Name, html: string, compiled: bool)
    ensures At(WithHtml(s, name, html, compiled), name).logic == At(s, name).logic
  {
  }

  /** A class that is installed while the fetched script is being evaluated stays: the fetched class
      is dropped, by the sequence number alone. */
  lemma FetchedClassYields(s: State, name: Name, eval: Eval)
    requires At(s, name).logic.None?
    ensures var during := Run(Started(s, name, eval.verdict), eval.reentrant);
      At(during, name).logic.Some? ==> WithJs(s, name, eval) == during
  {
    var started := Started(s, name, eval.verdict);
    RunAdvances(started, eval.reentrant);
    hide Run, Installed;
    assert Evolves(started, Run(started, eval.reentrant), name);
  }

  // ----- The page's own source after boot -----

  /** An operation that, at every depth of re-entrance, leaves the template source of `name` to
      sibling completions. */
  predicate Quiet(op: Op, name: Name)
    decreases op
  {
    match op
    case FetchDone(_, parsed) => parsed.None? || parsed.value.js.None? || QuietAll(parsed.value.js.value.reentrant, name)
    case PageRefetched(n, _, _) => n != name
    case UpdateHtml(n, _, _) => n != name
    case UpdateJs(_, eval) => QuietAll(eval.reentrant, name)
    case DcUpdateHtml(n, _, _, _) => n != name
    case DcUpdateJs(_, eval, _) => QuietAll(eval.reentrant, name)
    case AdoptParsed(n, parsed) =>
      parsed.None?
      || ((n != name || parsed.value.template == "")
          && (parsed.value.js.None? || QuietAll(parsed.value.js.value.reentrant, name)))
    case _ => true
  }

  predicate QuietAll(ops: seq<Op>, name: Name)
    decreases ops
  {
    ops == [] || (Quiet(ops[0], name) && QuietAll(ops[1..], name))
  }

  predicate SameSource(s: State, t: State, name: Name) {
    At(t, name).html == At(s, name).html && At(t, name).template == At(s, name).template
  }

  lemma {:induction false} QuietJs(s: State, name: Name, n: Name, eval: Eval)
    requires QuietAll(eval.reentrant, name) && At(s, name).html != ""
    ensures SameSource(s, WithJs(s, n, eval), name)
    decreases eval
  {
    hide Installed;
    var started := Started(s, n, eval.verdict);
    var mid := Run(started, eval.reentrant);
    QuietRun(started, name, eval.reentrant);
    InstalledFacts(n, At(mid, n), eval.verdict);
  }

  lemma WithMetaSource(s: State, name: Name, n: Name, parsed: Parsed)
    ensures SameSource(s, WithMeta(s, n, parsed), name)
  {
  }

  lemma WithHtmlSource(s: State, name: Name, n: Name, html: string, compiled: bool)
    ensures n != name ==> SameSource(s, WithHtml(s, n, html, compiled), name)
  {
  }

  lemma FlagSource(s: State, name: Name, n: Name, html: bool, on: bool)
    ensures SameSource(s, SetStreaming(Fetched(s, n, on), n, html, on), name)
    ensures SameSource(s, Fetched(s, n, on), name)
  {
    hide AnyStreaming;
  }

  /** Taking over the parts of a component, its template only where that leaves `name` alone. */
  lemma {:induction false} QuietAdoption(s: State, name: Name, n: Name, parsed: Parsed, withHtml: bool, withJs: bool)
    requires withHtml ==> n != name
    requires withJs ==> parsed.js.Some? && QuietAll(parsed.js.value.reentrant, name)
    requires At(s, name).html != ""
    ensures var a := WithMeta(s, n, parsed);
      var b := if withHtml then WithHtml(a, n, parsed.template, parsed.compiled) else a;
      SameSource(s, if withJs then WithJs(b, n, parsed.js.value) else b, name)
    decreases parsed
  {
    hide WithMeta, WithHtml, WithJs, QuietAll;
    var a := WithMeta(s, n, parsed);
    var b := if withHtml then WithHtml(a, n, parsed.template, parsed.compiled) else a;
    WithMetaSource(s, name, n, parsed);
    WithHtmlSource(a, name, n, parsed.template, parsed.compiled);
    if withJs { QuietJs(b, name, n, parsed.js.value); }
  }

  /** The operations that run a script or adopt a component. */
  lemma {:induction false} QuietScript(s: State, name: Name, op: Op)
    requires Quiet(op, name) && At(s, name).html != "" && (op.UpdateJs? || op.DcUpdateJs? || op.AdoptParsed?)
    ensures SameSource(s, Step(s, op), name)
    decreases op, 0
  {
    hide WithMeta, WithHtml, WithJs, SetStreaming, Fetched, QuietAll;
    match op {
      case AdoptParsed(n, parsed) =>
        SameAsBefore(s, name);
        if parsed.Some? {
          QuietAdoption(s, name, n, parsed.value, parsed.value.template != "", parsed.value.js.Some?);
        }
      case UpdateJs(n, eval) => QuietJs(s, name, n, eval);
      case DcUpdateJs(n, eval, streaming) =>
        var a := SetStreaming(Fetched(s, n, streaming), n, false, streaming);
        FlagSource(s, name, n, false, streaming);
        if !streaming { QuietJs(a, name, n, eval); }
    }
  }

  /** The operations that write a template source. */
  lemma QuietWrite(s: State, name: Name, op: Op)
    requires Quiet(op, name) && (op.UpdateHtml? || op.DcUpdateHtml? || op.PageRefetched?)
    ensures SameSource(s, Step(s, op), name)
  {
    hide WithHtml, SetStreaming, Fetched;
    match op {
      case DcUpdateHtml(n, html, compiled, streaming) =>
        FlagSource(s, name, n, true, streaming);
        WithHtmlSource(SetStreaming(Fetched(s, n, streaming), n, true, streaming), name, n, html, compiled);
      case PageRefetched(n, template, compiled) => WithHtmlSource(s, name, n, template, compiled);
      case UpdateHtml(n, html, compiled) => WithHtmlSource(s, name, n, html, compiled);
    }
  }

  lemma {:induction false} QuietStep(s: State, name: Name, op: Op)
    requires Quiet(op, name) && At(s, name).html != ""
    ensures SameSource(s, Step(s, op), name)
    decreases op, 1
  {
    match op {
      case FetchDone(n, parsed) =>
        hide Step, Quiet, SameSource;
        QuietFetch(s, name, n, parsed);
      case UpdateJs(_, _) | DcUpdateJs(_, _, _) | AdoptParsed(_, _) =>
        hide Step, Quiet, SameSource;
        QuietScript(s, name, op);
      case UpdateHtml(_, _, _) | DcUpdateHtml(_, _, _, _) | PageRefetched(_, _, _) =>
        hide Step, Quiet, SameSource;
        QuietWrite(s, name, op);
      case _ => hide WithHtml, WithJs, WithMeta, SetStreaming, Run;
    }
  }

  lemma SameAsBefore(s: State, name: Name)
    ensures SameSource(s, s, name)
  {
  }

  lemma {:induction false} QuietFetch(s: State, name: Name, n: Name, parsed: Option<Parsed>)
    requires Quiet(FetchDone(n, parsed), name) && At(s, name).html != ""
    ensures SameSource(s, Step(s, FetchDone(n, parsed)), name)
    decreases parsed
  {
    hide WithMeta, WithHtml, WithJs, QuietAll;
    if parsed.Some? {
      var p := parsed.value;
      var a := WithMeta(s, n, p);
      WithMetaSource(s, name, n, p);
      var withHtml := p.template != "" && At(a, n).html == "";
      var b := if withHtml then WithHtml(a, n, p.template, p.compiled) else a;
      QuietAdoption(s, name, n, p, withHtml, p.js.Some? && At(b, n).logic.None?);
    }
  }

  lemma {:induction false} QuietRun(s: State, name: Name, ops: seq<Op>)
    requires QuietAll(ops, name) && At(s, name).html != ""
    ensures SameSource(s, Run(s, ops), name)
    decreases ops
  {
    hide Step;
    if ops != [] {
      QuietStep(s, name, ops[0]);
      QuietRun(Step(s, ops[0]), name, ops[1..]);
    }
  }

  /** An edit streamed into the page between boot and the arrival of the page's own source outlives
      every run of other operations, sibling completions and nested evaluations included; it then
      survives that arrival exactly when the page brings no template or the very same one. */
  lemma EditSurvivesPageRefetchExactly(s: State, name: Name, html: string, compiled: bool, streaming: bool,
                                       between: seq<Op>, template: string, recompiled: bool)
    requires html != "" && QuietAll(between, name)
    ensures var before := Run(Step(s, DcUpdateHtml(name, html, compiled, streaming)), between);
      var after := Step(before, PageRefetched(name, template, recompiled));
      && At(before, name).html == html
      && (At(after, name).html == html <==> template == "" || template == html)
  {
    hide Run, AnyStreaming;
    QuietRun(Step(s, DcUpdateHtml(name, html, compiled, streaming)), name, between);
  }
}
