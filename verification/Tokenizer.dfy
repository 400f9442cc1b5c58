/** The tokenizer told apart from its own helpers: it splits at every character that is no word
    character, and what one block of word characters yields is spelled out. The two facts leave no
    freedom, so they fix the token sequence of every text (src/raku_rag/core/text.py). */
module Tokenizer {
  import opened Common
  import opened Text

  lemma {:induction false} TokensOfRunsConcat(u: Alphabet, a: seq<string>, b: seq<string>)
    ensures TokensOfRuns(u, a + b) == TokensOfRuns(u, a) + TokensOfRuns(u, b)
  {
    hide RunTokens;
    if a == [] {
      assert a + b == b;
    } else {
      assert (a + b)[1..] == a[1..] + b;
      TokensOfRunsConcat(u, a[1..], b);
    }
  }

  /** The runs of a text end at a separator. */
  lemma {:induction false} RunsSplit(u: Alphabet, a: string, c: char, b: string)
    requires !u.word(c)
    ensures Runs(u, a + [c] + b) == Runs(u, a) + Runs(u, b)
    decreases |a|
  {
    var s := a + [c] + b;
    if a == "" {
      assert s == [c] + b && s[1..] == b;
    } else if !u.word(a[0]) {
      assert s[1..] == a[1..] + [c] + b;
      RunsSplit(u, a[1..], c, b);
    } else {
      var n := RunLength(u, a);
      FirstBlock(u, a, c, b);
      assert s[..n] == a[..n] && s[n..] == a[n..] + [c] + b;
      RunsSplit(u, a[n..], c, b);
      FirstRun(u, a);
      FirstRun(u, s);
    }
  }

  lemma FirstBlock(u: Alphabet, a: string, c: char, b: string)
    requires a != "" && u.word(a[0]) && !u.word(c)
    ensures RunLength(u, a + [c] + b) == RunLength(u, a) > 0
  {
    var s, n := a + [c] + b, RunLength(u, a);
    assert s[|a|] == c && forall k | 0 <= k < |a| :: s[k] == a[k];
  }

  /** The tokens of a text are those before and those after any separator in it. */
  lemma TokensSplit(u: Alphabet, a: string, c: char, b: string)
    requires !u.word(u.lower(c))
    ensures RetrievalTokens(u, a + [c] + b) == RetrievalTokens(u, a) + RetrievalTokens(u, b)
  {
    LowerConcat(u, a, [c]);
    LowerConcat(u, a + [c], b);
    assert Lower(u, [c]) == [u.lower(c)];
    RunsSplit(u, Lower(u, a), u.lower(c), Lower(u, b));
    TokensOfRunsConcat(u, Runs(u, Lower(u, a)), Runs(u, Lower(u, b)));
  }

  /** Kana, the ideographs with extension A, and the compatibility ideographs. */
  predicate Japanese(c: char) {
    || '\U{3040}' <= c <= '\U{30FF}'
    || '\U{3400}' <= c <= '\U{9FFF}'
    || '\U{F900}' <= c <= '\U{FAFF}'
  }

  /** What a text without a separator yields: nothing if it is empty, itself if it has no Japanese
      character unless it is a stop word, and otherwise its pairs of neighbours. */
  lemma TokensOfBlock(u: Alphabet, w: string)
    requires forall i | 0 <= i < |w| :: u.word(u.lower(w[i]))
    ensures var s, tokens := Lower(u, w), RetrievalTokens(u, w);
            && (w == "" ==> tokens == [])
            && (w != "" && (forall i | 0 <= i < |s| :: !Japanese(s[i])) ==>
                  tokens == if s in u.stopwords then [] else [s])
            && ((exists i | 0 <= i < |s| :: Japanese(s[i])) ==>
                  if |w| == 1 then tokens == [s]
                  else |tokens| == |w| - 1 && forall i | 0 <= i < |w| - 1 :: tokens[i] == [s[i], s[i + 1]])
  {
    var s := Lower(u, w);
    if w != "" {
      assert RunLength(u, s) == |s|;
      assert s[..|s|] == s && s[|s|..] == "";
      assert Runs(u, s) == [s];
      assert TokensOfRuns(u, [s]) == RunTokens(u, s);
      forall i | 0 <= i < |s| - 1 ensures s[i..i + 2] == [s[i], s[i + 1]] {}
      assert HasCjk(s) <==> exists i | 0 <= i < |s| :: Japanese(s[i]);
    }
  }
}
