/** Dagster partition keys (src/raku_rag/dagster/partitions.py). */
module PartitionKeys {
  import opened Common
  import opened Percent

  datatype PartitionKey = PartitionKey(tenantId: seq<Byte>, collectionId: seq<Byte>, sourceId: seq<Byte>, syncRunId: seq<Byte>) {
    predicate Complete() {
      tenantId != [] && collectionId != [] && sourceId != [] && syncRunId != []
    }
  }

  datatype KeyError = MissingId | MalformedKey

  function Join(parts: seq<seq<Byte>>): seq<Byte> {
    if parts == [] then []
    else if |parts| == 1 then parts[0]
    else parts[0] + [SLASH] + Join(parts[1..])
  }

  function SegmentLength(s: seq<Byte>): (n: nat)
    ensures n <= |s| && SLASH !in s[..n] && (n < |s| ==> s[n] == SLASH)
  {
    if s == [] || s[0] == SLASH then 0 else 1 + SegmentLength(s[1..])
  }

  /** `str.split("/")`. */
  function Split(s: seq<Byte>): (parts: seq<seq<Byte>>)
    ensures parts != []
    decreases |s|
  {
    var n := SegmentLength(s);
    if n == |s| then [s] else [s[..n]] + Split(s[n + 1..])
  }

  function QuotedParts(key: PartitionKey): (p: seq<seq<Byte>>)
    ensures |p| == 4
  {
    [Quote(key.tenantId), Quote(key.collectionId), Quote(key.sourceId), Quote(key.syncRunId)]
  }

  function BuildPartitionKey(key: PartitionKey): Result<seq<Byte>, KeyError> {
    if !key.Complete() then Err(MissingId)
    else Ok(Join(QuotedParts(key)))
  }

  function ParsePartitionKey(text: seq<Byte>): Result<PartitionKey, KeyError> {
    var parts := Split(text);
    if |parts| != 4 || [] in parts then Err(MalformedKey)
    else Ok(PartitionKey(Unquote(parts[0]), Unquote(parts[1]), Unquote(parts[2]), Unquote(parts[3])))
  }

  lemma {:induction false} SegmentLengthOf(a: seq<Byte>, rest: seq<Byte>)
    requires SLASH !in a && (rest == [] || rest[0] == SLASH)
    ensures SegmentLength(a + rest) == |a|
  {
    if a == [] {
      assert a + rest == rest;
    } else {
      assert (a + rest)[1..] == a[1..] + rest;
      SegmentLengthOf(a[1..], rest);
    }
  }

  /** Splitting inverts joining slash-free parts. */
  lemma {:induction false} SplitJoin(parts: seq<seq<Byte>>)
    requires parts != [] && forall p | p in parts :: SLASH !in p
    ensures Split(Join(parts)) == parts
  {
    hide SegmentLength;
    assert parts[0] in parts;
    if |parts| == 1 {
      SegmentLengthOf(parts[0], []);
      assert parts[0] + [] == parts[0];
    } else {
      var rest := [SLASH] + Join(parts[1..]);
      var s := parts[0] + rest;
      assert Join(parts) == s;
      SegmentLengthOf(parts[0], rest);
      assert s[..|parts[0]|] == parts[0] && s[|parts[0]| + 1..] == Join(parts[1..]);
      SplitJoin(parts[1..]);
    }
  }

  lemma {:induction false} JoinSplit(s: seq<Byte>)
    ensures Join(Split(s)) == s
    decreases |s|
  {
    hide SegmentLength;
    var n := SegmentLength(s);
    if n < |s| {
      var rest := Split(s[n + 1..]);
      JoinSplit(s[n + 1..]);
      assert Split(s) == [s[..n]] + rest && ([s[..n]] + rest)[1..] == rest;
      assert Join(Split(s)) == s[..n] + [SLASH] + Join(rest);
      assert s == s[..n] + [SLASH] + s[n + 1..];
    }
  }

  /** Parsing a built key gives back the same four ids, slashes and percent signs included; a key
      with an empty id is not built. */
  lemma ParseBuild(key: PartitionKey)
    ensures key.Complete() <==> BuildPartitionKey(key).Ok?
    ensures key.Complete() ==> ParsePartitionKey(BuildPartitionKey(key).value) == Ok(key)
  {
    if key.Complete() {
      hide Quote, Unquote, Split, Join, ParsePartitionKey;
      QuotedPartsSplit(key);
      PartFacts(key.tenantId);
      PartFacts(key.collectionId);
      PartFacts(key.sourceId);
      PartFacts(key.syncRunId);
      ParseParts(Join(QuotedParts(key)), QuotedParts(key));
    }
  }

  lemma ParseParts(text: seq<Byte>, parts: seq<seq<Byte>>)
    requires Split(text) == parts && |parts| == 4
    ensures parts[0] != [] && parts[1] != [] && parts[2] != [] && parts[3] != [] ==>
      ParsePartitionKey(text) == Ok(PartitionKey(Unquote(parts[0]), Unquote(parts[1]), Unquote(parts[2]), Unquote(parts[3])))
  {
    hide Unquote, Split;
  }

  lemma PartFacts(p: seq<Byte>)
    ensures Unquote(Quote(p)) == p && (Quote(p) == [] <==> p == [])
  {
    UnquoteQuote(p);
    QuoteSlashFree(p);
  }

  /** Building is injective. */
  lemma BuildInjective(a: PartitionKey, b: PartitionKey)
    requires a.Complete() && b.Complete() && BuildPartitionKey(a) == BuildPartitionKey(b)
    ensures a == b
  {
    ParseBuild(a);
    ParseBuild(b);
  }

  /** A parsed key is complete, and building it gives the text back exactly when each of its four
      segments is canonical. */
  lemma BuildParseExactly(text: seq<Byte>)
    requires ParsePartitionKey(text).Ok?
    ensures var key := ParsePartitionKey(text).value;
      && key.Complete()
      && (BuildPartitionKey(key) == Ok(text) <==> forall p | p in Split(text) :: Canonical(p))
  {
    var parts := Split(text);
    var key := ParsePartitionKey(text).value;
    assert parts[0] in parts && parts[1] in parts && parts[2] in parts && parts[3] in parts;
    UnquoteNonEmpty(parts[0]);
    UnquoteNonEmpty(parts[1]);
    UnquoteNonEmpty(parts[2]);
    UnquoteNonEmpty(parts[3]);
    JoinSplit(text);
    QuotedPartsSplit(key);
    assert BuildPartitionKey(key) == Ok(text) <==> QuotedParts(key) == parts;
    RequoteExactly(parts, key);
  }

  lemma QuotedPartsSplit(key: PartitionKey)
    ensures Split(Join(QuotedParts(key))) == QuotedParts(key)
  {
    QuoteSlashFree(key.tenantId);
    QuoteSlashFree(key.collectionId);
    QuoteSlashFree(key.sourceId);
    QuoteSlashFree(key.syncRunId);
    SplitJoin(QuotedParts(key));
  }

  lemma RequoteExactly(parts: seq<seq<Byte>>, key: PartitionKey)
    requires |parts| == 4
    requires key == PartitionKey(Unquote(parts[0]), Unquote(parts[1]), Unquote(parts[2]), Unquote(parts[3]))
    ensures QuotedParts(key) == parts <==> forall p | p in parts :: Canonical(p)
  {
    QuoteUnquoteExactly(parts[0]);
    QuoteUnquoteExactly(parts[1]);
    QuoteUnquoteExactly(parts[2]);
    QuoteUnquoteExactly(parts[3]);
    hide Canonical, Quote, Unquote;
    assert parts == [parts[0], parts[1], parts[2], parts[3]];
    assert (forall p | p in parts :: Canonical(p))
        <==> Canonical(parts[0]) && Canonical(parts[1]) && Canonical(parts[2]) && Canonical(parts[3]);
    assert QuotedParts(key)[0] == Quote(key.tenantId) && QuotedParts(key)[1] == Quote(key.collectionId)
        && QuotedParts(key)[2] == Quote(key.sourceId) && QuotedParts(key)[3] == Quote(key.syncRunId);
  }

  // ----- The text of a key -----

  /** The four encoded ids with a slash between each two. */
  lemma KeyTextExactly(tenantId: seq<Byte>, collectionId: seq<Byte>, sourceId: seq<Byte>, syncRunId: seq<Byte>)
    ensures var slash := ['/' as int];
            var key := PartitionKey(tenantId, collectionId, sourceId, syncRunId);
            BuildPartitionKey(key) ==
            if tenantId == [] || collectionId == [] || sourceId == [] || syncRunId == [] then Err(MissingId)
            else Ok(Quote(tenantId) + slash + Quote(collectionId) + slash + Quote(sourceId) + slash + Quote(syncRunId))
  {
    hide Quote;
    FourJoined(Quote(tenantId), Quote(collectionId), Quote(sourceId), Quote(syncRunId));
  }

  lemma FourJoined(a: seq<Byte>, b: seq<Byte>, c: seq<Byte>, d: seq<Byte>)
    ensures Join([a, b, c, d]) == a + [SLASH] + b + [SLASH] + c + [SLASH] + d
  {
    assert [a, b, c, d][1..] == [b, c, d] && [b, c, d][1..] == [c, d] && [c, d][1..] == [d];
    assert Join([c, d]) == c + [SLASH] + d;
    assert Join([b, c, d]) == b + [SLASH] + (c + [SLASH] + d);
  }

  /** Four non-empty segments with a slash between each two, and the ids they decode to. */
  ghost predicate Segments(text: seq<Byte>, parts: seq<seq<Byte>>, key: PartitionKey) {
    && |parts| == 4 && (forall p | p in parts :: p != [] && '/' as int !in p)
    && text == parts[0] + ['/' as int] + parts[1] + ['/' as int] + parts[2] + ['/' as int] + parts[3]
    && key == PartitionKey(Unquote(parts[0]), Unquote(parts[1]), Unquote(parts[2]), Unquote(parts[3]))
  }

  /** A text parses exactly when it is four such segments, and then to what they decode to. */
  lemma ParsesExactly(text: seq<Byte>, key: PartitionKey)
    ensures ParsePartitionKey(text) == Ok(key) <==> exists parts :: Segments(text, parts, key)
    ensures ParsePartitionKey(text).Ok? || ParsePartitionKey(text) == Err(MalformedKey)
  {
    hide Segments, Split;
    if ParsePartitionKey(text) == Ok(key) { ParsedSegments(text, key); }
    if parts :| Segments(text, parts, key) { SegmentsParse(text, parts, key); }
  }

  lemma ParsedSegments(text: seq<Byte>, key: PartitionKey)
    requires ParsePartitionKey(text) == Ok(key)
    ensures Segments(text, Split(text), key)
  {
    hide Unquote, Join, Split;
    var parts := Split(text);
    JoinSplit(text);
    SplitIsSlashFree(text);
    assert parts == [parts[0], parts[1], parts[2], parts[3]];
    FourJoined(parts[0], parts[1], parts[2], parts[3]);
  }

  lemma SegmentsParse(text: seq<Byte>, parts: seq<seq<Byte>>, key: PartitionKey)
    requires Segments(text, parts, key)
    ensures ParsePartitionKey(text) == Ok(key)
  {
    hide Unquote, Join, Split;
    assert parts == [parts[0], parts[1], parts[2], parts[3]];
    FourJoined(parts[0], parts[1], parts[2], parts[3]);
    SplitJoin(parts);
    ParseParts(text, parts);
  }

  lemma {:induction false} SplitIsSlashFree(s: seq<Byte>)
    ensures forall p | p in Split(s) :: SLASH !in p
    decreases |s|
  {
    var n := SegmentLength(s);
    if n < |s| { SplitIsSlashFree(s[n + 1..]); } else { assert s[..n] == s; }
  }
}
