/** Business identifiers: normalisation, extraction, and the ingest-time index against the exact
    metadata predicate (src/raku_rag/core/hybrid_retrieval.py). */
module Identifiers {
  import opened Common
  import opened Text

  predicate IdChar(c: char) {
    'a' <= c <= 'z' || '0' <= c <= '9'
  }

  function DropOthers(s: string): (r: string)
    ensures |r| <= |s| && (r != "" ==> IdChar(r[0]))
  {
    if s != "" && !IdChar(s[0]) then DropOthers(s[1..]) else s
  }

  /** Each maximal run of other characters becomes one dash. */
  function Dashed(s: string): string
    decreases |s|
  {
    if s == "" then ""
    else if IdChar(s[0]) then [s[0]] + Dashed(s[1..])
    else "-" + Dashed(DropOthers(s[1..]))
  }

  function StripDashes(s: string): string {
    if s != "" && s[0] == '-' then StripDashes(s[1..])
    else if s != "" && s[|s| - 1] == '-' then StripDashes(s[..|s| - 1])
    else s
  }

  function RemoveDashes(s: string): string {
    if s == "" then "" else (if s[0] == '-' then "" else [s[0]]) + RemoveDashes(s[1..])
  }

  function NormalizeIdentifier(u: Alphabet, value: string): string {
    StripDashes(Dashed(Lower(u, Strip(u.space, value))))
  }

  function CompactIdentifier(u: Alphabet, value: string): string {
    RemoveDashes(NormalizeIdentifier(u, value))
  }

  // ----- Compaction is a filter; normalisation is idempotent -----

  function IdChars(s: string): string {
    if s == "" then "" else (if IdChar(s[0]) then [s[0]] else "") + IdChars(s[1..])
  }

  lemma {:induction false} IdCharsConcat(a: string, b: string)
    ensures IdChars(a + b) == IdChars(a) + IdChars(b)
  {
    if a == "" {
      assert a + b == b;
    } else {
      assert (a + b)[1..] == a[1..] + b && (a + b)[0] == a[0];
      IdCharsConcat(a[1..], b);
      var head := if IdChar(a[0]) then [a[0]] else "";
      assert head + (IdChars(a[1..]) + IdChars(b)) == (head + IdChars(a[1..])) + IdChars(b);
    }
  }

  lemma {:induction false} IdCharsOfDrop(s: string)
    ensures IdChars(DropOthers(s)) == IdChars(s)
  {
    if s != "" && !IdChar(s[0]) { IdCharsOfDrop(s[1..]); }
  }

  lemma {:induction false} IdCharsOfDashed(s: string)
    ensures IdChars(Dashed(s)) == IdChars(s)
    decreases |s|
  {
    if s != "" {
      if IdChar(s[0]) {
        IdCharsOfDashed(s[1..]);
        assert Dashed(s)[1..] == Dashed(s[1..]);
      } else {
        IdCharsOfDrop(s[1..]);
        IdCharsOfDashed(DropOthers(s[1..]));
        assert Dashed(s)[1..] == Dashed(DropOthers(s[1..]));
      }
    }
  }

  lemma IdCharsDropLast(s: string)
    requires s != "" && !IdChar(s[|s| - 1])
    ensures IdChars(s[..|s| - 1]) == IdChars(s)
  {
    var front := s[..|s| - 1];
    assert s == front + [s[|s| - 1]];
    IdCharsConcat(front, [s[|s| - 1]]);
    assert IdChars([s[|s| - 1]]) == "" + IdChars([s[|s| - 1]][1..]);
  }

  lemma {:induction false} IdCharsOfStripDashes(s: string)
    ensures IdChars(StripDashes(s)) == IdChars(s)
    decreases |s|
  {
    if s != "" && s[0] == '-' {
      IdCharsOfStripDashes(s[1..]);
    } else if s != "" && s[|s| - 1] == '-' {
      IdCharsDropLast(s);
      IdCharsOfStripDashes(s[..|s| - 1]);
    }
  }

  lemma {:induction false} IdCharsOfStrip(u: Alphabet, s: string)
    requires u.Valid()
    ensures IdChars(Lower(u, Strip(u.space, s))) == IdChars(Lower(u, s))
    decreases |s|
  {
    var t := Lower(u, s);
    if s != "" && u.space(s[0]) {
      assert !IdChar(t[0]) && t[1..] == Lower(u, s[1..]);
      IdCharsOfStrip(u, s[1..]);
    } else if s != "" && u.space(s[|s| - 1]) {
      assert !IdChar(t[|t| - 1]) && t[..|t| - 1] == Lower(u, s[..|s| - 1]);
      IdCharsDropLast(t);
      IdCharsOfStrip(u, s[..|s| - 1]);
    }
  }

  ghost predicate DashedForm(s: string) {
    forall i | 0 <= i < |s| :: IdChar(s[i]) || s[i] == '-'
  }

  lemma {:induction false} DashedIsDashedForm(s: string)
    ensures DashedForm(Dashed(s))
    decreases |s|
  {
    if s != "" {
      if IdChar(s[0]) { DashedIsDashedForm(s[1..]); } else { DashedIsDashedForm(DropOthers(s[1..])); }
    }
  }

  lemma {:induction false} StripKeepsDashedForm(s: string)
    requires DashedForm(s)
    ensures DashedForm(StripDashes(s))
    decreases |s|
  {
    if s != "" && s[0] == '-' {
      StripKeepsDashedForm(s[1..]);
    } else if s != "" && s[|s| - 1] == '-' {
      StripKeepsDashedForm(s[..|s| - 1]);
    }
  }

  lemma {:induction false} RemoveDashesIsFilter(s: string)
    requires DashedForm(s)
    ensures RemoveDashes(s) == IdChars(s)
  {
    if s != "" { RemoveDashesIsFilter(s[1..]); }
  }

  /** Compaction keeps exactly the identifier characters of the case-folded value. */
  lemma CompactIsFilter(u: Alphabet, value: string)
    requires u.Valid()
    ensures CompactIdentifier(u, value) == IdChars(Lower(u, value))
  {
    var s := Lower(u, Strip(u.space, value));
    DashedIsDashedForm(s);
    StripKeepsDashedForm(Dashed(s));
    RemoveDashesIsFilter(NormalizeIdentifier(u, value));
    IdCharsOfStripDashes(Dashed(s));
    IdCharsOfDashed(s);
    IdCharsOfStrip(u, value);
  }

  predicate IsCompact(s: string) {
    s != "" && forall i | 0 <= i < |s| :: IdChar(s[i])
  }

  lemma {:induction false} FilterResult(s: string)
    ensures forall i | 0 <= i < |IdChars(s)| :: IdChar(IdChars(s)[i])
  {
    if s != "" { FilterResult(s[1..]); }
  }

  lemma {:induction false} CompactIsFixed(u: Alphabet, s: string)
    requires u.Valid() && IsCompact(s)
    ensures NormalizeIdentifier(u, s) == s && RemoveDashes(s) == s
  {
    assert Lower(u, s) == s && Strip(u.space, s) == s;
    DashedOfCompact(s);
    RemoveDashesIsFilter(s);
    FilterOfCompact(s);
  }

  lemma {:induction false} DashedOfCompact(s: string)
    requires forall i | 0 <= i < |s| :: IdChar(s[i])
    ensures Dashed(s) == s
  {
    if s != "" { DashedOfCompact(s[1..]); }
  }

  lemma {:induction false} FilterOfCompact(s: string)
    requires forall i | 0 <= i < |s| :: IdChar(s[i])
    ensures IdChars(s) == s
  {
    if s != "" { FilterOfCompact(s[1..]); }
  }

  ghost predicate NoDoubleDash(s: string) {
    DashedForm(s) && forall i | 0 < i < |s| :: s[i - 1] != '-' || s[i] != '-'
  }

  /** No two dashes in a row and none at either end. */
  ghost predicate NormalForm(s: string) {
    NoDoubleDash(s) && (s != "" ==> s[0] != '-' && s[|s| - 1] != '-')
  }

  lemma {:induction false} DashedHasNoDoubleDash(s: string)
    ensures NoDoubleDash(Dashed(s)) && (s != "" && IdChar(s[0]) ==> Dashed(s)[0] != '-')
    decreases |s|
  {
    if s != "" {
      var rest := if IdChar(s[0]) then s[1..] else DropOthers(s[1..]);
      DashedHasNoDoubleDash(rest);
      assert Dashed(s)[1..] == Dashed(rest);
      assert forall i {:trigger Dashed(s)[i]} | 0 < i < |Dashed(s)| :: Dashed(s)[i] == Dashed(rest)[i - 1];
    }
  }

  lemma {:induction false} StripGivesNormalForm(s: string)
    requires NoDoubleDash(s)
    ensures NormalForm(StripDashes(s))
    decreases |s|
  {
    if s != "" && s[0] == '-' {
      StripGivesNormalForm(s[1..]);
    } else if s != "" && s[|s| - 1] == '-' {
      StripGivesNormalForm(s[..|s| - 1]);
    }
  }

  lemma {:induction false} DashedOfNormalForm(s: string)
    requires NoDoubleDash(s) && (s != "" ==> s[|s| - 1] != '-')
    ensures Dashed(s) == s
    decreases |s|
  {
    if s != "" {
      DashedOfNormalForm(s[1..]);
      if s[0] == '-' {
        assert s[1] != '-' && DropOthers(s[1..]) == s[1..];
      }
    }
  }

  lemma NormalFormIsFixed(u: Alphabet, n: string)
    requires u.Valid() && NormalForm(n)
    ensures NormalizeIdentifier(u, n) == n
  {
    assert Lower(u, n) == n;
    assert Strip(u.space, n) == n;
    DashedOfNormalForm(n);
  }

  /** Normalising twice is normalising once. */
  lemma NormalizeIdempotent(u: Alphabet, value: string)
    requires u.Valid()
    ensures NormalizeIdentifier(u, NormalizeIdentifier(u, value)) == NormalizeIdentifier(u, value)
  {
    var s := Lower(u, Strip(u.space, value));
    DashedHasNoDoubleDash(s);
    StripGivesNormalForm(Dashed(s));
    NormalFormIsFixed(u, NormalizeIdentifier(u, value));
  }

  lemma EmptyTogether(u: Alphabet, value: string)
    requires u.Valid()
    ensures NormalizeIdentifier(u, value) == "" <==> CompactIdentifier(u, value) == ""
  {
    var s := Lower(u, Strip(u.space, value));
    DashedHasNoDoubleDash(s);
    StripGivesNormalForm(Dashed(s));
  }

  // ----- Identifiers named by a text -----

  predicate Qualifies(u: Alphabet, normalized: string) {
    var compact := RemoveDashes(normalized);
    |compact| >= 3
    && ((exists i | 0 <= i < |normalized| :: normalized[i] == '-') || exists i | 0 <= i < |compact| :: u.digit(compact[i]))
  }

  /** Both forms of every qualifying match; `found` lists the regex matches in the text. */
  function QueryIdentifiers(u: Alphabet, found: seq<string>): set<string> {
    set m, id | m in found && id in Forms(u, m) :: id
  }

  function Forms(u: Alphabet, m: string): set<string> {
    if Qualifies(u, NormalizeIdentifier(u, m)) then {NormalizeIdentifier(u, m), CompactIdentifier(u, m)} else {}
  }

  lemma QueryIdentifiersStep(u: Alphabet, found: seq<string>, m: string)
    ensures QueryIdentifiers(u, found + [m]) == QueryIdentifiers(u, found) + Forms(u, m)
  {
    assert forall x :: x in found + [m] <==> x in found || x == m;
  }

  method QueryIdentifiersLoop(u: Alphabet, found: seq<string>) returns (identifiers: set<string>)
    ensures identifiers == QueryIdentifiers(u, found)
  {
    identifiers := {};
    for k := 0 to |found|
      invariant identifiers == QueryIdentifiers(u, found[..k])
    {
      assert found[..k + 1] == found[..k] + [found[k]];
      QueryIdentifiersStep(u, found[..k], found[k]);
      var normalized := NormalizeIdentifier(u, found[k]);
      var compact := RemoveDashes(normalized);
      if |compact| >= 3 && ((exists i | 0 <= i < |normalized| :: normalized[i] == '-')
                            || exists i | 0 <= i < |compact| :: u.digit(compact[i])) {
        identifiers := identifiers + {normalized, compact};
      }
    }
    assert found[..|found|] == found;
  }

  function Compacts(identifiers: set<string>): set<string> {
    set id | id in identifiers :: RemoveDashes(id)
  }

  /** Distinct identifiers of a query that a text names. */
  function TextIdentifierMatchCount(u: Alphabet, queryFound: seq<string>, textFound: seq<string>): nat {
    |Compacts(QueryIdentifiers(u, queryFound)) * Compacts(QueryIdentifiers(u, textFound))|
  }

  /** The set holds the compact form of each of its members that has one. */
  ghost predicate ClosedUnderCompaction(identifiers: set<string>) {
    forall id | id in identifiers && IsCompact(RemoveDashes(id)) :: RemoveDashes(id) in identifiers
  }

  /** Extracted identifiers are closed under compaction. */
  lemma QueryIdentifiersClosed(u: Alphabet, found: seq<string>)
    requires u.Valid()
    ensures ClosedUnderCompaction(QueryIdentifiers(u, found))
    ensures forall id | id in QueryIdentifiers(u, found) :: IsCompact(RemoveDashes(id)) && Lower(u, id) == id
  {
    var all := QueryIdentifiers(u, found);
    forall id | id in all
      ensures IsCompact(RemoveDashes(id)) && RemoveDashes(id) in all && Lower(u, id) == id
    {
      var m :| m in found && id in Forms(u, m);
      FormsAreClosed(u, m, id);
      assert RemoveDashes(id) in Forms(u, m);
    }
  }

  /** A qualifying match: its normal form is dashed, and its compact form is compact. */
  lemma QualifyingMatch(u: Alphabet, m: string)
    requires u.Valid() && Qualifies(u, NormalizeIdentifier(u, m))
    ensures IsCompact(CompactIdentifier(u, m)) && Lower(u, NormalizeIdentifier(u, m)) == NormalizeIdentifier(u, m)
  {
    NormalizedIsDashed(u, m);
    CompactIsFilter(u, m);
    FilterResult(Lower(u, m));
    assert |CompactIdentifier(u, m)| >= 3;
    hide NormalizeIdentifier, IdChars, DashedForm, RemoveDashes, Qualifies, Lower;
    DashedIsLower(u, NormalizeIdentifier(u, m));
  }

  lemma FormsAreClosed(u: Alphabet, m: string, id: string)
    requires u.Valid() && id in Forms(u, m)
    ensures IsCompact(RemoveDashes(id)) && RemoveDashes(id) in Forms(u, m) && Lower(u, id) == id
  {
    hide NormalizeIdentifier, RemoveDashes, IsCompact, Qualifies, Lower;
    var compact := CompactIdentifier(u, m);
    QualifyingMatch(u, m);
    CompactIsFixed(u, compact);
    CompactIsDashed(compact);
    DashedIsLower(u, compact);
  }

  lemma NormalizedIsDashed(u: Alphabet, m: string)
    ensures DashedForm(NormalizeIdentifier(u, m))
  {
    var s := Lower(u, Strip(u.space, m));
    DashedIsDashedForm(s);
    StripKeepsDashedForm(Dashed(s));
  }

  lemma CompactIsDashed(s: string)
    requires IsCompact(s)
    ensures DashedForm(s)
  {
  }

  lemma DashedIsLower(u: Alphabet, s: string)
    requires u.Valid() && DashedForm(s)
    ensures Lower(u, s) == s
  {
  }
}
