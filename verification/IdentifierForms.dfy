/** The two forms of an identifier in terms of the text alone: the blocks of small letters and digits
    of the case-folded value, with single dashes between them or with none
    (src/raku_rag/core/hybrid_retrieval.py). */
module IdentifierForms {
  import opened Common
  import opened Text
  import opened Identifiers

  /** A small letter or a digit of ASCII. */
  predicate Alphanumeric(c: char) {
    c in "abcdefghijklmnopqrstuvwxyz0123456789"
  }

  lemma IdCharExactly(c: char)
    ensures IdChar(c) <==> Alphanumeric(c)
  {
  }

  /** `-` between two texts, and nothing beside an empty one. */
  function Dash(a: string, b: string): string {
    if a == "" then b else if b == "" then a else a + "-" + b
  }

  lemma DashAssociates(a: string, b: string, c: string)
    ensures Dash(Dash(a, b), c) == Dash(a, Dash(b, c))
  {
    if a != "" && b != "" && c != "" {
      assert a + "-" + b + "-" + c == a + "-" + (b + "-" + c);
    }
  }

  function Trimmed(s: string): string {
    StripDashes(Dashed(s))
  }

  lemma TrimmedSkips(s: string)
    requires s != "" && !IdChar(s[0])
    ensures Trimmed(s) == Trimmed(s[1..])
    ensures Trimmed(s) == StripDashes(Dashed(DropOthers(s[1..])))
  {
    var t := Dashed(DropOthers(s[1..]));
    assert ("-" + t)[1..] == t;
    if s[1..] != "" && !IdChar(s[1]) {
      var r := Dashed(DropOthers(s[1..][1..]));
      assert DropOthers(s[1..]) == DropOthers(s[1..][1..]);
      assert ("-" + r)[1..] == r;
    }
  }

  lemma {:induction false} DashedOfWord(w: string, rest: string)
    requires forall i | 0 <= i < |w| :: IdChar(w[i])
    ensures Dashed(w + rest) == w + Dashed(rest)
  {
    if w == "" {
      assert w + rest == rest;
    } else {
      assert (w + rest)[1..] == w[1..] + rest;
      DashedOfWord(w[1..], rest);
      assert [w[0]] + (w[1..] + Dashed(rest)) == w + Dashed(rest);
    }
  }

  lemma {:induction false} StripKeepsFront(p: string, t: string)
    requires p != "" && p[0] != '-' && t != "" && t[0] != '-'
    ensures StripDashes(p + t) == p + StripDashes(t)
    decreases |t|
  {
    if t[|t| - 1] == '-' {
      assert (p + t)[..|p + t| - 1] == p + t[..|t| - 1];
      StripKeepsFront(p, t[..|t| - 1]);
    }
  }

  lemma WordAlone(w: string)
    requires w != "" && forall i | 0 <= i < |w| :: IdChar(w[i])
    ensures Trimmed(w) == w && StripDashes(w + "-") == w && w[0] != '-'
  {
    DashedOfWord(w, "");
    assert w + "" == w;
    assert (w + "-")[..|w|] == w;
  }

  /** A block of small letters and digits and what follows it. */
  lemma WordFirst(w: string, rest: string)
    requires w != "" && forall i | 0 <= i < |w| :: IdChar(w[i])
    requires rest != "" && !IdChar(rest[0])
    ensures Trimmed(w + rest) == Dash(w, Trimmed(rest))
  {
    hide *;
    var t := Dashed(DropOthers(rest[1..]));
    DashedOfWord(w, rest);
    GapFirst(rest);
    WordAlone(w);
    DashedStripped(w, t);
    assert w + ("-" + t) == w + "-" + t;
    WordOfTrimmed(w + rest);
  }

  lemma WordOfTrimmed(s: string)
    ensures Trimmed(s) == StripDashes(Dashed(s))
  {
  }

  lemma GapFirst(rest: string)
    requires rest != "" && !IdChar(rest[0])
    ensures var t := Dashed(DropOthers(rest[1..]));
      && Dashed(rest) == "-" + t && Trimmed(rest) == StripDashes(t) && (t != "" ==> t[0] != '-')
  {
    TrimmedSkips(rest);
  }

  lemma DashedStripped(w: string, t: string)
    requires w != "" && w[0] != '-' && StripDashes(w + "-") == w && (t != "" ==> t[0] != '-')
    ensures StripDashes(w + "-" + t) == Dash(w, StripDashes(t))
  {
    if t == "" {
      assert w + "-" + t == w + "-";
    } else {
      StripKeepsFront(w + "-", t);
      StripKeepsEnd(t);
    }
  }

  lemma {:induction false} StripKeepsEnd(t: string)
    requires t != "" && t[0] != '-'
    ensures StripDashes(t) != ""
    decreases |t|
  {
    if t[|t| - 1] == '-' { StripKeepsEnd(t[..|t| - 1]); }
  }

  function WordPrefix(s: string): (n: nat)
    ensures n <= |s| && (forall i | 0 <= i < n :: IdChar(s[i])) && (n < |s| ==> !IdChar(s[n]))
  {
    if s == "" || !IdChar(s[0]) then 0 else 1 + WordPrefix(s[1..])
  }

  lemma {:induction false} TrimmedSplits(a: string, c: char, b: string)
    requires !IdChar(c)
    ensures Trimmed(a + [c] + b) == Dash(Trimmed(a), Trimmed(b))
    decreases |a|
  {
    hide Trimmed, IdChar;
    var s := a + [c] + b;
    if a == "" {
      assert s == [c] + b && s[1..] == b;
      TrimmedSkips(s);
      assert Trimmed("") == "" by { TrimmedOfNothing(); }
    } else if !IdChar(a[0]) {
      assert s[1..] == a[1..] + [c] + b;
      TrimmedSkips(s);
      TrimmedSkips(a);
      TrimmedSplits(a[1..], c, b);
    } else {
      var n := WordPrefix(a);
      var w, rest := a[..n], a[n..];
      assert n > 0;
      assert s == w + (rest + [c] + b);
      TrimmedSplits(rest, c, b);
      assert a == w + rest;
      WordFirst(w, rest + [c] + b);
      WordAlone(w);
      if rest == "" {
        assert w + rest == w;
        TrimmedOfNothing();
      } else {
        WordFirst(w, rest);
      }
      DashAssociates(w, Trimmed(rest), Trimmed(b));
    }
  }

  lemma TrimmedOfNothing()
    ensures Trimmed("") == ""
  {
  }

  /** Stripping white space first makes no difference. */
  lemma {:induction false} StripIsRedundant(u: Alphabet, value: string)
    requires u.Valid()
    ensures NormalizeIdentifier(u, value) == Trimmed(Lower(u, value))
    decreases |value|
  {
    var low := Lower(u, value);
    if value != "" && u.space(value[0]) {
      assert low[1..] == Lower(u, value[1..]) && !IdChar(low[0]);
      TrimmedSkips(low);
      StripIsRedundant(u, value[1..]);
    } else if value != "" && u.space(value[|value| - 1]) {
      var front := value[..|value| - 1];
      assert low == Lower(u, front) + [low[|low| - 1]] + "" && !IdChar(low[|low| - 1]);
      TrimmedSplits(Lower(u, front), low[|low| - 1], "");
      TrimmedOfNothing();
      StripIsRedundant(u, front);
    }
  }

  /** The normal form splits at every character that does not fold to a small letter or a digit, with
      one dash where both sides have something; a value without one is only case-folded. */
  lemma NormalizeSplits(u: Alphabet, a: string, c: char, b: string)
    requires u.Valid() && !Alphanumeric(u.lower(c))
    ensures NormalizeIdentifier(u, a + [c] + b) == Dash(NormalizeIdentifier(u, a), NormalizeIdentifier(u, b))
  {
    hide *;
    IdCharExactly(u.lower(c));
    StripIsRedundant(u, a);
    StripIsRedundant(u, b);
    StripIsRedundant(u, a + [c] + b);
    LowerConcat(u, a, [c]);
    LowerConcat(u, a + [c], b);
    assert Lower(u, [c]) == [u.lower(c)];
    TrimmedSplits(Lower(u, a), u.lower(c), Lower(u, b));
  }

  lemma NormalizeOfWord(u: Alphabet, w: string)
    requires u.Valid() && forall i | 0 <= i < |w| :: Alphanumeric(u.lower(w[i]))
    ensures NormalizeIdentifier(u, w) == CompactIdentifier(u, w) == Lower(u, w)
  {
    var low := Lower(u, w);
    StripIsRedundant(u, w);
    forall i | 0 <= i < |low| ensures IdChar(low[i]) { IdCharExactly(low[i]); }
    if w == "" {
      TrimmedOfNothing();
      assert RemoveDashes("") == "";
    } else {
      WordAlone(low);
      CompactIsFixed(u, low);
    }
  }

  // ----- Which matches are identifiers -----

  /** At least three characters besides the dashes, and among them a digit unless there is a dash. */
  ghost predicate Identifying(u: Alphabet, m: string) {
    && |CompactIdentifier(u, m)| > 2
    && ('-' in NormalizeIdentifier(u, m) || exists c | c in CompactIdentifier(u, m) :: u.digit(c))
  }

  lemma IdentifyingQualifies(u: Alphabet, m: string)
    ensures Qualifies(u, NormalizeIdentifier(u, m)) <==> Identifying(u, m)
  {
    hide NormalizeIdentifier, RemoveDashes;
    var n, c := NormalizeIdentifier(u, m), CompactIdentifier(u, m);
    if x :| x in c && u.digit(x) {
      var i :| 0 <= i < |c| && c[i] == x;
    }
    if i :| 0 <= i < |c| && u.digit(c[i]) {
      assert c[i] in c;
    }
  }

  /** The identifiers of a text are both forms of its identifying matches. */
  lemma IdentifiersExactly(u: Alphabet, found: seq<string>, id: string)
    ensures id in QueryIdentifiers(u, found) <==>
            exists m | m in found :: Identifying(u, m) && (id == NormalizeIdentifier(u, m) || id == CompactIdentifier(u, m))
  {
    hide NormalizeIdentifier, RemoveDashes, Qualifies, Identifying;
    forall m
      ensures id in Forms(u, m) <==>
              Identifying(u, m) && (id == NormalizeIdentifier(u, m) || id == CompactIdentifier(u, m))
    {
      IdentifyingQualifies(u, m);
    }
    assert id in QueryIdentifiers(u, found) <==> exists m :: m in found && id in Forms(u, m);
  }

  ghost function NamedCompacts(u: Alphabet, found: seq<string>): set<string> {
    set m | m in found && Identifying(u, m) :: CompactIdentifier(u, m)
  }

  /** An identifier counts once for a query and a text, however often and however it is spelled. */
  lemma CountedExactly(u: Alphabet, queryFound: seq<string>, textFound: seq<string>)
    requires u.Valid()
    ensures TextIdentifierMatchCount(u, queryFound, textFound)
         == |NamedCompacts(u, queryFound) * NamedCompacts(u, textFound)|
  {
    CompactsExactly(u, queryFound);
    CompactsExactly(u, textFound);
  }

  lemma CompactsExactly(u: Alphabet, found: seq<string>)
    requires u.Valid()
    ensures Compacts(QueryIdentifiers(u, found)) == NamedCompacts(u, found)
  {
    hide NormalizeIdentifier, RemoveDashes, Qualifies, Identifying, IsCompact;
    forall m | m in found
      ensures Identifying(u, m) <==> Qualifies(u, NormalizeIdentifier(u, m))
      ensures Identifying(u, m) ==> RemoveDashes(CompactIdentifier(u, m)) == CompactIdentifier(u, m)
    {
      IdentifyingQualifies(u, m);
      if Identifying(u, m) {
        QualifyingMatch(u, m);
        CompactIsFixed(u, CompactIdentifier(u, m));
      }
    }
    forall c | c in NamedCompacts(u, found) ensures c in Compacts(QueryIdentifiers(u, found)) {
      var m :| m in found && Identifying(u, m) && c == CompactIdentifier(u, m);
      assert c in Forms(u, m);
      assert c in QueryIdentifiers(u, found);
    }
  }
}
