/** The Japanese-aware retrieval tokenizer (src/raku_rag/core/text.py). */
module Text {
  import opened Common

  /** The Unicode facts the tokenizer takes from its regex engine: per-character lower-casing,
      `\w`, `\s` and `str.isdigit`, together with its stop-word list. Every result below holds
      for every table and list that satisfy `Valid`. */
  datatype Alphabet = Alphabet(
    lower: char -> char, word: char -> bool, space: char -> bool, digit: char -> bool, stopwords: set<string>) {
    ghost predicate Valid() {
      && (forall c :: lower(lower(c)) == lower(c))
      && (forall c :: space(c) ==> !word(lower(c)))
      && (forall w | w in stopwords :: |w| <= 6)
      && space(' ') && lower(' ') == ' ' && lower('-') == '-'
      && (forall c | 'a' <= c <= 'z' || '0' <= c <= '9' :: word(c) && lower(c) == c)
      && word('\U{4E00}') && lower('\U{4E00}') == '\U{4E00}'
    }
  }

  predicate CjkChar(c: char) {
    '\U{3040}' <= c <= '\U{30FF}' || '\U{3400}' <= c <= '\U{9FFF}' || '\U{F900}' <= c <= '\U{FAFF}'
  }

  predicate HasCjk(s: string) {
    exists i | 0 <= i < |s| :: CjkChar(s[i])
  }

  function Lower(u: Alphabet, s: string): (r: string)
    ensures |r| == |s| && forall i | 0 <= i < |s| :: r[i] == u.lower(s[i])
  {
    seq(|s|, i requires 0 <= i < |s| => u.lower(s[i]))
  }

  lemma LowerConcat(u: Alphabet, a: string, b: string)
    ensures Lower(u, a + b) == Lower(u, a) + Lower(u, b)
  {
  }

  /** Length of the word run that starts at the front of `s`. */
  function RunLength(u: Alphabet, s: string): (n: nat)
    ensures n <= |s| && (forall i | 0 <= i < n :: u.word(s[i])) && (n < |s| ==> !u.word(s[n]))
  {
    if s == [] || !u.word(s[0]) then 0 else 1 + RunLength(u, s[1..])
  }

  /** All matches of `\w+`, left to right. */
  function Runs(u: Alphabet, s: string): seq<string>
    decreases |s|
  {
    if s == [] then []
    else if !u.word(s[0]) then Runs(u, s[1..])
    else var n := RunLength(u, s); [s[..n]] + Runs(u, s[n..])
  }

  /** The tokens one run contributes: character bigrams when it bears a CJK character, the whole
      word otherwise. */
  function RunTokens(u: Alphabet, run: string): seq<string> {
    if HasCjk(run) then
      if |run| == 1 then [run]
      else seq(|run| - 1, i requires 0 <= i < |run| - 1 => run[i..i + 2])
    else if run !in u.stopwords then [run] else []
  }

  function TokensOfRuns(u: Alphabet, runs: seq<string>): seq<string> {
    if runs == [] then [] else RunTokens(u, runs[0]) + TokensOfRuns(u, runs[1..])
  }

  function RetrievalTokens(u: Alphabet, text: string): seq<string> {
    TokensOfRuns(u, Runs(u, Lower(u, text)))
  }

  // ----- The loop of retrieval_tokens -----

  /** The loop over runs that appends to one output list. */
  method RetrievalTokensLoop(u: Alphabet, text: string) returns (out: seq<string>)
    ensures out == RetrievalTokens(u, text)
  {
    hide RunTokens, Runs, Lower;
    out := [];
    var runs := Runs(u, Lower(u, text));
    assert runs[0..] == runs;
    for k := 0 to |runs|
      invariant out + TokensOfRuns(u, runs[k..]) == TokensOfRuns(u, runs)
    {
      assert runs[k..][1..] == runs[k + 1..];
      assert TokensOfRuns(u, runs[k..]) == RunTokens(u, runs[k]) + TokensOfRuns(u, runs[k + 1..]);
      out := AppendRun(u, out, runs[k]);
    }
  }

  /** One pass of that loop. */
  method AppendRun(u: Alphabet, before: seq<string>, tok: string) returns (out: seq<string>)
    ensures out == before + RunTokens(u, tok)
  {
    out := before;
    if HasCjk(tok) {
      if |tok| == 1 {
        out := out + [tok];
      } else {
        for i := 0 to |tok| - 1
          invariant out == before + RunTokens(u, tok)[..i]
        {
          out := out + [tok[i..i + 2]];
        }
      }
    } else if tok !in u.stopwords {
      out := out + [tok];
    }
  }

  // ----- Runs are exactly the maximal blocks of word characters -----

  ghost predicate MaximalRun(u: Alphabet, s: string, i: int, j: int) {
    && 0 <= i < j <= |s|
    && (forall k | i <= k < j :: u.word(s[k]))
    && (i > 0 ==> !u.word(s[i - 1]))
    && (j < |s| ==> !u.word(s[j]))
  }

  lemma SuffixAt(s: string, n: nat, k: nat)
    requires n <= |s| && k < |s| - n
    ensures s[n..][k] == s[k + n]
  {
  }

  lemma ShiftRun(u: Alphabet, s: string, n: nat, i: nat, j: nat)
    requires n <= |s| && MaximalRun(u, s[n..], i, j)
    requires i > 0 || n == 0 || !u.word(s[n - 1])
    ensures MaximalRun(u, s, i + n, j + n) && s[n..][i..j] == s[i + n..j + n]
  {
    forall k | i + n <= k < j + n ensures u.word(s[k]) { SuffixAt(s, n, k - n); }
    if i > 0 { SuffixAt(s, n, i - 1); }
    if j < |s| - n { SuffixAt(s, n, j); }
    SubSlice(s, n, |s|, i, j);
    assert s[n..|s|] == s[n..];
  }

  lemma FirstRun(u: Alphabet, s: string)
    requires s != "" && u.word(s[0])
    ensures var n := RunLength(u, s);
      n > 0 && MaximalRun(u, s, 0, n) && Runs(u, s) == [s[..n]] + Runs(u, s[n..])
  {
  }

  lemma SkipNonWord(u: Alphabet, s: string)
    requires s != "" && !u.word(s[0])
    ensures Runs(u, s) == Runs(u, s[1..])
  {
  }

  /** Every match of `\w+` is a maximal block of word characters. */
  lemma {:induction false} RunsAreMaximal(u: Alphabet, s: string, r: string) returns (i: nat, j: nat)
    requires r in Runs(u, s)
    ensures MaximalRun(u, s, i, j) && s[i..j] == r
    decreases |s|
  {
    NoRuns(u);
    hide Runs, RunLength, MaximalRun;
    if !u.word(s[0]) {
      SkipNonWord(u, s);
      i, j := RunsAreMaximal(u, s[1..], r);
      RunBounds(u, s[1..], i, j);
      ShiftRun(u, s, 1, i, j);
      i, j := i + 1, j + 1;
    } else {
      FirstRun(u, s);
      var n := RunLength(u, s);
      if r == s[..n] {
        i, j := 0, n;
      } else {
        RunBounds(u, s, 0, n);
        i, j := RunsAreMaximal(u, s[n..], r);
        RunBounds(u, s[n..], i, j);
        NoAdjacentRuns(u, s, n, i, j);
        ShiftRun(u, s, n, i, j);
        i, j := i + n, j + n;
      }
    }
  }

  lemma NoRuns(u: Alphabet)
    ensures Runs(u, "") == []
  {
  }

  lemma RunBounds(u: Alphabet, s: string, i: int, j: int)
    requires MaximalRun(u, s, i, j)
    ensures 0 <= i < j <= |s|
  {
  }

  /** The text after its first run does not start with a word character. */
  lemma NoAdjacentRuns(u: Alphabet, s: string, n: nat, i: nat, j: nat)
    requires n <= |s| && MaximalRun(u, s, 0, n) && MaximalRun(u, s[n..], i, j)
    ensures i > 0
  {
    SuffixAt(s, n, 0);
  }

  /** Every maximal block of word characters is a match of `\w+`. */
  lemma {:induction false} MaximalRunsAreRuns(u: Alphabet, s: string, i: nat, j: nat)
    requires MaximalRun(u, s, i, j)
    ensures s[i..j] in Runs(u, s)
    decreases |s|
  {
    RunBounds(u, s, i, j);
    hide Runs, RunLength;
    if !u.word(s[0]) {
      SkipNonWord(u, s);
      UnshiftRun(u, s, 1, i, j);
      MaximalRunsAreRuns(u, s[1..], i - 1, j - 1);
    } else {
      FirstRun(u, s);
      var n := RunLength(u, s);
      SecondRun(u, s, n, i, j);
      if i > 0 {
        UnshiftRun(u, s, n, i, j);
        MaximalRunsAreRuns(u, s[n..], i - n, j - n);
      }
    }
  }

  /** Two maximal runs coincide or are apart. */
  lemma SecondRun(u: Alphabet, s: string, n: nat, i: nat, j: nat)
    requires MaximalRun(u, s, 0, n) && MaximalRun(u, s, i, j)
    ensures if i == 0 then j == n else i > n
  {
    assert i > 0 ==> !u.word(s[i - 1]);
    assert (j < |s| ==> !u.word(s[j])) && (n < |s| ==> !u.word(s[n]));
  }

  lemma UnshiftRun(u: Alphabet, s: string, n: nat, i: nat, j: nat)
    requires n <= i && MaximalRun(u, s, i, j)
    ensures MaximalRun(u, s[n..], i - n, j - n) && s[n..][i - n..j - n] == s[i..j]
  {
    forall k | i - n <= k < j - n ensures u.word(s[n..][k]) { SuffixAt(s, n, k); }
    if i > n { SuffixAt(s, n, i - n - 1); }
    if j < |s| { SuffixAt(s, n, j - n); }
    SubSlice(s, n, |s|, i - n, j - n);
    assert s[n..|s|] == s[n..];
  }

  lemma {:induction false} TokenOfRuns(u: Alphabet, runs: seq<string>, t: string)
    ensures t in TokensOfRuns(u, runs) <==> exists r | r in runs :: t in RunTokens(u, r)
  {
    if runs != [] {
      TokenOfRuns(u, runs[1..], t);
      assert forall r :: r in runs <==> r == runs[0] || r in runs[1..];
    }
  }

  /** The reference meaning of the tokenizer: a token is emitted exactly by a maximal word run. */
  lemma TokenIffRun(u: Alphabet, text: string, t: string)
    ensures t in RetrievalTokens(u, text) <==>
            exists i: nat, j: nat :: MaximalRun(u, Lower(u, text), i, j)
                                  && t in RunTokens(u, Lower(u, text)[i..j])
  {
    var s := Lower(u, text);
    TokenOfRuns(u, Runs(u, s), t);
    if t in RetrievalTokens(u, text) {
      var r :| r in Runs(u, s) && t in RunTokens(u, r);
      var i, j := RunsAreMaximal(u, s, r);
    }
    if i: nat, j: nat :| MaximalRun(u, s, i, j) && t in RunTokens(u, s[i..j]) {
      MaximalRunsAreRuns(u, s, i, j);
    }
  }

  /** The maximal run around a block of word characters. */
  lemma RunAround(u: Alphabet, s: string, x: nat, y: nat) returns (a: nat, b: nat)
    requires x < y <= |s| && forall k | x <= k < y :: u.word(s[k])
    ensures MaximalRun(u, s, a, b) && a <= x && y <= b
  {
    a, b := x, y;
    while a > 0 && u.word(s[a - 1])
      invariant a <= x && forall k | a <= k < b :: u.word(s[k])
    {
      a := a - 1;
    }
    while b < |s| && u.word(s[b])
      invariant y <= b <= |s| && forall k | a <= k < b :: u.word(s[k])
    {
      b := b + 1;
    }
  }

  /** A token is a non-empty slice of the run that emits it. */
  lemma TokenIsSlice(u: Alphabet, run: string, t: string) returns (k: nat)
    requires run != "" && t in RunTokens(u, run)
    ensures t != "" && OccursAt(t, run, k)
  {
    if HasCjk(run) && |run| > 1 {
      k :| 0 <= k < |run| - 1 && t == run[k..k + 2];
    } else {
      k := 0;
      assert t == run;
    }
  }

  /** A token is a non-empty slice of the lower-cased text. */
  lemma TokenAt(u: Alphabet, text: string, t: string) returns (k: nat)
    requires t in RetrievalTokens(u, text)
    ensures t != "" && OccursAt(t, Lower(u, text), k)
  {
    TokenIffRun(u, text, t);
    hide RunTokens, RetrievalTokens, HasCjk, Lower;
    var s := Lower(u, text);
    var i: nat, j: nat :| MaximalRun(u, s, i, j) && t in RunTokens(u, s[i..j]);
    k := TokenIsSlice(u, s[i..j], t);
    SubSlice(s, i, j, k, k + |t|);
    k := i + k;
  }

  /** Tokens are already in lower case, so case-folding a token again changes nothing. */
  lemma TokensAreLower(u: Alphabet, text: string, t: string)
    requires u.Valid() && t in RetrievalTokens(u, text)
    ensures t != "" && Lower(u, t) == t
  {
    var k := TokenAt(u, text, t);
    hide RetrievalTokens;
    SliceIsLower(u, text, k, k + |t|);
  }

  lemma SliceIsLower(u: Alphabet, text: string, i: nat, j: nat)
    requires u.Valid() && i <= j <= |text|
    ensures Lower(u, Lower(u, text)[i..j]) == Lower(u, text)[i..j]
  {
  }
}
