/** What a follow-up names beyond its reference (`residual_topic`, src/raku_rag/core/coreference.py). */
module ResidualTopic {
  import opened Common
  import opened Text
  import opened Coreference

  /** `s.replace(word, "")`: non-overlapping occurrences, left to right. */
  function RemoveWord(s: string, word: string): string
    requires word != ""
    decreases |s|
  {
    if |s| < |word| then s
    else if s[..|word|] == word then RemoveWord(s[|word|..], word)
    else [s[0]] + RemoveWord(s[1..], word)
  }

  function RemoveAll(s: string, words: seq<string>): string
    requires "" !in words
  {
    if words == [] then s else RemoveWord(RemoveAll(s, words[..|words| - 1]), words[|words| - 1])
  }

  predicate Punctuation(u: Alphabet, c: char) {
    u.space(c) || c == '。' || c == '、' || c == '！' || c == '?' || c == '？' || c == '!' || c == ','
    || c == '.' || c == ':' || c == '：'
  }

  predicate Particle(c: char) {
    c == 'は' || c == 'を' || c == 'が' || c == 'の' || c == 'に' || c == 'で' || c == 'も' || c == 'と' || c == 'へ' || c == 'や'
  }

  function TrimBack(p: char -> bool, s: string): (r: string)
    ensures r <= s && (r != "" ==> !p(r[|r| - 1])) && forall i | |r| <= i < |s| :: p(s[i])
  {
    if s != "" && p(s[|s| - 1]) then TrimBack(p, s[..|s| - 1]) else s
  }

  function TrimFront(p: char -> bool, s: string): (r: string)
    ensures |r| <= |s| && s[|s| - |r|..] == r && (r != "" ==> !p(r[0])) && forall i | 0 <= i < |s| - |r| :: p(s[i])
  {
    if s != "" && p(s[0]) then TrimFront(p, s[1..]) else s
  }

  /** One round of the loop: trailing punctuation, then trailing particles, then leading particles. */
  function Round(u: Alphabet, s: string): (r: string)
    ensures r == s || |r| < |s|
  {
    var a := TrimBack(c => Punctuation(u, c), s);
    var b := TrimBack(Particle, a);
    TrimmedTwice(a, b, s);
    TrimFront(Particle, b)
  }

  lemma TrimmedTwice(a: string, b: string, s: string)
    requires b <= a <= s
    ensures |b| <= |s| && (|b| == |s| ==> b == s)
  {
  }

  /** Rounds until nothing changes. */
  function Settle(u: Alphabet, s: string): string
    decreases |s|
  {
    if Round(u, s) == s then s else Settle(u, Round(u, s))
  }

  function Cleaned(query: string): string {
    RemoveAll(RemoveAll(query, ReferentialMarkers()), GenericFollowupGlue())
  }

  function ResidualTopic(u: Alphabet, query: string): string {
    Strip(u.space, Settle(u, Cleaned(query)))
  }

  method ResidualTopicLoop(u: Alphabet, query: string) returns (topic: string)
    ensures topic == ResidualTopic(u, query)
  {
    var residual := query;
    var markers := ReferentialMarkers();
    for k := 0 to |markers|
      invariant residual == RemoveAll(query, markers[..k])
    {
      assert markers[..k + 1][..k] == markers[..k];
      residual := RemoveWord(residual, markers[k]);
    }
    assert markers[..|markers|] == markers;
    ghost var unmarked := residual;
    var glue := GenericFollowupGlue();
    for k := 0 to |glue|
      invariant residual == RemoveAll(unmarked, glue[..k])
    {
      assert glue[..k + 1][..k] == glue[..k];
      residual := RemoveWord(residual, glue[k]);
    }
    assert glue[..|glue|] == glue;
    while true
      invariant Settle(u, residual) == Settle(u, Cleaned(query))
      decreases |residual|
    {
      var stripped := TrimBack(c => Punctuation(u, c), residual);
      stripped := TrimBack(Particle, stripped);
      stripped := TrimFront(Particle, stripped);
      if stripped == residual { return Strip(u.space, residual); }
      residual := stripped;
    }
  }

  predicate HasOwnTopic(u: Alphabet, query: string) {
    |ResidualTopic(u, query)| >= 2
  }

  // ----- The loop amounts to one pass -----

  /** Trailing punctuation and particles in any mixture, then leading particles. */
  function OnePass(u: Alphabet, s: string): string {
    TrimFront(Particle, TrimBack(Strippable(u), s))
  }

  function Strippable(u: Alphabet): char -> bool {
    c => Punctuation(u, c) || Particle(c)
  }

  lemma {:induction false} TrimBackAbsorbs(p: char -> bool, q: char -> bool, s: string)
    requires forall c :: p(c) ==> q(c)
    ensures TrimBack(q, TrimBack(p, s)) == TrimBack(q, s)
    decreases |s|
  {
    if s != "" && p(s[|s| - 1]) { TrimBackAbsorbs(p, q, s[..|s| - 1]); }
  }

  lemma {:induction false} TrimBackOfCons(p: char -> bool, s: string)
    requires s != ""
    ensures TrimBack(p, s) == if TrimBack(p, s[1..]) == "" && p(s[0]) then "" else [s[0]] + TrimBack(p, s[1..])
    decreases |s|
  {
    var rest := s[1..];
    if rest == "" {
      assert s == [s[0]] && s[..0] == "";
    } else if p(s[|s| - 1]) {
      var front := s[..|s| - 1];
      assert front[1..] == rest[..|rest| - 1] && front[0] == s[0];
      TrimBackOfCons(p, front);
    } else {
      assert [s[0]] + rest == s;
    }
  }

  lemma LeadingCharIsDropped(p: char -> bool, q: char -> bool, s: string)
    requires s != "" && p(s[0]) && q(s[0])
    ensures TrimFront(p, TrimBack(q, s)) == TrimFront(p, TrimBack(q, s[1..]))
  {
    hide TrimBack;
    TrimBackOfCons(q, s);
    var kept := TrimBack(q, s[1..]);
    assert ([s[0]] + kept)[1..] == kept;
  }

  lemma {:induction false} TrimFrontAbsorbed(p: char -> bool, q: char -> bool, s: string)
    requires forall c :: p(c) ==> q(c)
    ensures TrimFront(p, TrimBack(q, TrimFront(p, s))) == TrimFront(p, TrimBack(q, s))
    decreases |s|
  {
    hide TrimBack;
    if s != "" && p(s[0]) {
      TrimFrontAbsorbed(p, q, s[1..]);
      LeadingCharIsDropped(p, q, s);
    }
  }

  lemma RoundKeepsOnePass(u: Alphabet, s: string)
    ensures OnePass(u, Round(u, s)) == OnePass(u, s)
  {
    var a := TrimBack(c => Punctuation(u, c), s);
    TrimBackAbsorbs(c => Punctuation(u, c), Strippable(u), s);
    TrimBackAbsorbs(Particle, Strippable(u), a);
    TrimFrontAbsorbed(Particle, Strippable(u), TrimBack(Particle, a));
  }

  lemma SettledIsOnePass(u: Alphabet, s: string)
    requires Round(u, s) == s
    ensures OnePass(u, s) == s
  {
    hide Particle, Punctuation;
    var a := TrimBack(c => Punctuation(u, c), s);
    var b := TrimBack(Particle, a);
    assert b == s && a == s;
  }

  /** However the rounds alternate, they end where a single pass ends. */
  lemma {:induction false} SettleIsOnePass(u: Alphabet, s: string)
    ensures Settle(u, s) == OnePass(u, s)
    decreases |s|
  {
    hide Round, OnePass;
    if Round(u, s) == s {
      SettledIsOnePass(u, s);
    } else {
      RoundKeepsOnePass(u, s);
      SettleIsOnePass(u, Round(u, s));
    }
  }

  lemma {:induction false} StripKeepsEnd(u: Alphabet, s: string)
    requires s != "" && !u.space(s[|s| - 1])
    ensures var r := Strip(u.space, s); r != "" && r[|r| - 1] == s[|s| - 1]
    decreases |s|
  {
    if u.space(s[0]) { StripKeepsEnd(u, s[1..]); }
  }

  lemma OnePassEnds(u: Alphabet, s: string)
    ensures var r := OnePass(u, s); r != "" ==> !Strippable(u)(r[|r| - 1])
    ensures OnePass(u, s) == "" <==> forall i | 0 <= i < |s| :: Strippable(u)(s[i])
  {
    hide Particle, Punctuation, TrimBack, TrimFront;
    var kept := TrimBack(Strippable(u), s);
    if kept != "" {
      assert s[|kept| - 1] == kept[|kept| - 1];
    }
  }

  lemma StripOfSettled(u: Alphabet, s: string)
    requires s != "" ==> !Strippable(u)(s[|s| - 1])
    ensures var r := Strip(u.space, s); r == "" <==> s == ""
    ensures var r := Strip(u.space, s); r != "" ==> !Strippable(u)(r[|r| - 1])
  {
    hide Particle;
    if s != "" { StripKeepsEnd(u, s); }
  }

  /** The residual topic never ends in a stripped particle, punctuation mark or space, and it is
      empty exactly when nothing else is left of the query. */
  lemma ResidualTopicEnds(u: Alphabet, query: string)
    ensures var r := ResidualTopic(u, query); r != "" ==> !Strippable(u)(r[|r| - 1])
    ensures ResidualTopic(u, query) == "" <==> forall i | 0 <= i < |Cleaned(query)| :: Strippable(u)(Cleaned(query)[i])
  {
    hide Cleaned, Particle, Punctuation, Settle, OnePass, Strippable, Strip;
    SettleIsOnePass(u, Cleaned(query));
    OnePassEnds(u, Cleaned(query));
    StripOfSettled(u, OnePass(u, Cleaned(query)));
  }
}
