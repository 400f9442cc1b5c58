/** The ingest-time identifier column against the exact predicate over nested metadata
    (src/raku_rag/core/hybrid_retrieval.py). */
module MetadataIndex {
  import opened Common
  import opened Text
  import opened Identifiers

  const HOT_IDENTIFIER_FIELDS: seq<string> := [
    "equipment_id", "alarm_code", "part_no", "property_id", "room_number", "contract_id", "fund_id", "isin", "invoice_id"
  ]

  const NESTED_METADATA_KEYS: seq<string> := [
    "_mfg_meta", "manufacturing_metadata", "manufacturing", "industry_metadata"
  ]

  /** A metadata value; `text` is the string form of a truthy value, empty for a falsy one. */
  datatype Value = Null | Scalar(text: string) | Many(items: seq<Value>, text: string) {
    function Text(): string {
      if Null? then "" else text
    }
  }

  datatype Metadata = Opaque | Mapping(fields: map<string, Value>, nested: map<string, Metadata>)

  /** The mapping itself and the mappings under its nesting keys, to depth 3. */
  function MetadataMappings(m: Metadata, depth: nat): seq<Metadata>
    decreases 4 - depth, 1, 0
  {
    if depth > 3 || m.Opaque? then [] else [m] + ChildMappings(m, depth, 0)
  }

  function ChildMappings(m: Metadata, depth: nat, k: nat): seq<Metadata>
    requires depth <= 3 && m.Mapping? && k <= |NESTED_METADATA_KEYS|
    decreases 4 - depth, 0, |NESTED_METADATA_KEYS| - k
  {
    if k == |NESTED_METADATA_KEYS| then []
    else
      var key := NESTED_METADATA_KEYS[k];
      (if key in m.nested then MetadataMappings(m.nested[key], depth + 1) else []) + ChildMappings(m, depth, k + 1)
  }

  function Field(m: Metadata, field: string): Value {
    if m.Mapping? && field in m.fields then m.fields[field] else Null
  }

  /** The values under the hot fields of the mappings, in visiting order. */
  function HotValues(m: Metadata): seq<Value> {
    FieldValues(MetadataMappings(m, 0))
  }

  function FieldValues(mappings: seq<Metadata>): seq<Value> {
    if mappings == [] then []
    else
      seq(|HOT_IDENTIFIER_FIELDS|, i requires 0 <= i < |HOT_IDENTIFIER_FIELDS| => Field(mappings[0], HOT_IDENTIFIER_FIELDS[i]))
      + FieldValues(mappings[1..])
  }

  // ----- The exact predicate -----

  predicate ValueMatches(u: Alphabet, v: Value, identifiers: set<string>) {
    match v
    case Null => false
    case Scalar(text) =>
      var normalized := NormalizeIdentifier(u, text);
      normalized != "" && (normalized in identifiers || RemoveDashes(normalized) in identifiers)
    case Many(items, _) => exists item | item in items :: ValueMatches(u, item, identifiers)
  }

  /** Some hot field value of the metadata matches one of the identifiers. */
  predicate MetadataIdentifierMatches(u: Alphabet, m: Metadata, identifiers: set<string>) {
    identifiers != {} && exists v | v in HotValues(m) :: ValueMatches(u, v, identifiers)
  }

  /** Compact forms of the identifiers that match some hot value on their own. */
  function MatchedIdentifierCompacts(u: Alphabet, m: Metadata, identifiers: set<string>): set<string> {
    MatchedBy(u, HotValues(m), identifiers)
  }

  function MatchedBy(u: Alphabet, values: seq<Value>, identifiers: set<string>): set<string> {
    set id | id in identifiers && (exists v | v in values :: ValueMatches(u, v, {id})) :: RemoveDashes(id)
  }

  /** The loops of matched_identifier_compacts: hot values outside, identifiers inside. */
  method MatchedIdentifierCompactsLoop(u: Alphabet, m: Metadata, identifiers: set<string>) returns (matched: set<string>)
    ensures matched == MatchedIdentifierCompacts(u, m, identifiers)
  {
    hide HotValues, ValueMatches;
    matched := {};
    var values := HotValues(m);
    for k := 0 to |values|
      invariant matched == MatchedBy(u, values[..k], identifiers)
    {
      assert values[..k + 1] == values[..k] + [values[k]];
      MatchedByStep(u, values[..k], values[k], identifiers);
      matched := AddMatches(u, values[k], identifiers, matched);
    }
    assert values[..|values|] == values;
  }

  /** The inner loop, which skips a compact form already matched. */
  method AddMatches(u: Alphabet, v: Value, identifiers: set<string>, before: set<string>) returns (matched: set<string>)
    ensures matched == before + MatchedBy(u, [v], identifiers)
  {
    matched := before;
    var rest := identifiers;
    ghost var done: set<string> := {};
    while rest != {}
      invariant rest + done == identifiers
      invariant matched == before + MatchedBy(u, [v], done)
      decreases rest
    {
      var id :| id in rest;
      MatchedByOne(u, v, done, id);
      rest, done := rest - {id}, done + {id};
      var compact := RemoveDashes(id);
      if compact !in matched {
        if ValueMatches(u, v, {id}) {
          matched := matched + {compact};
        }
      }
    }
    assert done == identifiers;
  }

  lemma MatchedByOne(u: Alphabet, v: Value, done: set<string>, id: string)
    ensures MatchedBy(u, [v], done + {id})
         == MatchedBy(u, [v], done) + if ValueMatches(u, v, {id}) then {RemoveDashes(id)} else {}
  {
    assert v in [v];
  }

  lemma MatchedByStep(u: Alphabet, before: seq<Value>, v: Value, identifiers: set<string>)
    ensures MatchedBy(u, before + [v], identifiers) == MatchedBy(u, before, identifiers) + MatchedBy(u, [v], identifiers)
  {
    assert forall x :: x in before + [v] <==> x in before || x == v;
    assert v in [v];
  }

  // ----- The ingest-time column -----

  /** One-level values of a field: list items, or the value itself. */
  function Items(v: Value): seq<Value> {
    match v
    case Null => []
    case Scalar(_) => [v]
    case Many(items, _) => items
  }

  function ItemCompacts(u: Alphabet, items: seq<Value>): set<string> {
    (set item | item in items :: CompactIdentifier(u, item.Text())) - {""}
  }

  function CompactsOf(u: Alphabet, values: seq<Value>): set<string> {
    set v, c | v in values && c in ItemCompacts(u, Items(v)) :: c
  }

  function HotIdentifierCompacts(u: Alphabet, m: Metadata): set<string> {
    CompactsOf(u, HotValues(m))
  }

  method HotIdentifierCompactsLoop(u: Alphabet, m: Metadata) returns (compacts: set<string>)
    ensures compacts == HotIdentifierCompacts(u, m)
  {
    hide HotValues, ItemCompacts, Items;
    compacts := {};
    var values := HotValues(m);
    for k := 0 to |values|
      invariant compacts == CompactsOf(u, values[..k])
    {
      assert values[..k + 1] == values[..k] + [values[k]];
      CompactsStep(u, values[..k], values[k]);
      compacts := AddItemCompacts(u, Items(values[k]), compacts);
    }
    assert values[..|values|] == values;
  }

  method AddItemCompacts(u: Alphabet, items: seq<Value>, before: set<string>) returns (compacts: set<string>)
    ensures compacts == before + ItemCompacts(u, items)
  {
    compacts := before;
    for n := 0 to |items|
      invariant compacts == before + ItemCompacts(u, items[..n])
    {
      assert items[..n + 1] == items[..n] + [items[n]];
      var compact := CompactIdentifier(u, items[n].Text());
      if compact != "" { compacts := compacts + {compact}; }
    }
    assert items[..|items|] == items;
  }

  lemma CompactsStep(u: Alphabet, before: seq<Value>, v: Value)
    ensures CompactsOf(u, before + [v]) == CompactsOf(u, before) + ItemCompacts(u, Items(v))
  {
    assert forall x :: x in before + [v] <==> x in before || x == v;
  }

  // ----- The column is the exact predicate on values nested at most one level -----

  /** Compact forms of the scalars inside a value, at any list depth. */
  function LeafCompacts(u: Alphabet, v: Value): set<string> {
    match v
    case Null => {}
    case Scalar(text) => {CompactIdentifier(u, text)} - {""}
    case Many(items, _) => set item, c | item in items && c in LeafCompacts(u, item) :: c
  }

  function HotLeafCompacts(u: Alphabet, m: Metadata): set<string> {
    set v, c | v in HotValues(m) && c in LeafCompacts(u, v) :: c
  }

  ghost predicate FlatValue(v: Value) {
    v.Many? ==> forall item | item in v.items :: !item.Many?
  }

  ghost predicate FlatMetadata(m: Metadata) {
    forall v | v in HotValues(m) :: FlatValue(v)
  }

  /** A single identifier matches a value exactly when the value's own normalized form is that
      identifier, or the identifier is one of its compact forms. */
  lemma {:induction false} MatchGivesLeaf(u: Alphabet, v: Value, id: string)
    requires u.Valid() && ValueMatches(u, v, {id})
    ensures RemoveDashes(id) in LeafCompacts(u, v)
  {
    match v
    case Null =>
    case Scalar(text) =>
      EmptyTogether(u, text);
      CompactIsFilter(u, text);
      FilterResult(Lower(u, text));
      CompactIsFixed(u, CompactIdentifier(u, text));
    case Many(items, _) =>
      var item :| item in items && ValueMatches(u, item, {id});
      MatchGivesLeaf(u, item, id);
  }

  lemma {:induction false} LeafGivesMatch(u: Alphabet, v: Value, c: string)
    requires u.Valid() && c in LeafCompacts(u, v)
    ensures IsCompact(c) && ValueMatches(u, v, {c})
  {
    match v
    case Scalar(text) =>
      EmptyTogether(u, text);
      CompactIsFilter(u, text);
      FilterResult(Lower(u, text));
    case Many(items, _) =>
      var item :| item in items && c in LeafCompacts(u, item);
      LeafGivesMatch(u, item, c);
  }

  lemma {:induction false} MatchesSome(u: Alphabet, v: Value, identifiers: set<string>)
    ensures ValueMatches(u, v, identifiers) <==> exists id | id in identifiers :: ValueMatches(u, v, {id})
  {
    match v
    case Null =>
    case Scalar(text) =>
      if ValueMatches(u, v, identifiers) {
        var n := NormalizeIdentifier(u, text);
        var id := if n in identifiers then n else RemoveDashes(n);
        assert id in identifiers && ValueMatches(u, v, {id});
      }
    case Many(items, _) =>
      forall item | item in items
        ensures ValueMatches(u, item, identifiers) <==> exists id | id in identifiers :: ValueMatches(u, item, {id})
      {
        MatchesSome(u, item, identifiers);
      }
  }

  /** For identifiers closed under compaction, the matched compacts are exactly the shared compacts
      of the leaves, at any nesting. */
  lemma MatchedIsLeafIntersection(u: Alphabet, m: Metadata, identifiers: set<string>)
    requires u.Valid() && ClosedUnderCompaction(identifiers)
    ensures MatchedIdentifierCompacts(u, m, identifiers) == Compacts(identifiers) * HotLeafCompacts(u, m)
  {
    hide HotValues, ValueMatches, LeafCompacts, NormalizeIdentifier, RemoveDashes, IsCompact;
    var matched, shared := MatchedIdentifierCompacts(u, m, identifiers), Compacts(identifiers) * HotLeafCompacts(u, m);
    forall c | c in matched ensures c in shared {
      var id :| id in identifiers && (exists v | v in HotValues(m) :: ValueMatches(u, v, {id})) && c == RemoveDashes(id);
      var v :| v in HotValues(m) && ValueMatches(u, v, {id});
      MatchGivesLeaf(u, v, id);
    }
    forall c | c in shared ensures c in matched {
      var v :| v in HotValues(m) && c in LeafCompacts(u, v);
      LeafGivesMatch(u, v, c);
      CompactIsFixed(u, c);
      assert c in identifiers && c == RemoveDashes(c);
    }
  }

  lemma FlatLeaves(u: Alphabet, v: Value)
    requires FlatValue(v)
    ensures LeafCompacts(u, v) == ItemCompacts(u, Items(v))
  {
    match v
    case Null =>
    case Scalar(text) =>
      assert v in [v];
    case Many(items, _) =>
      EmptyCompact(u);
      forall c ensures c in LeafCompacts(u, v) <==> c in ItemCompacts(u, items) {
        if c in LeafCompacts(u, v) {
          var item :| item in items && c in LeafCompacts(u, item);
          assert c == CompactIdentifier(u, item.Text());
        }
        if c in ItemCompacts(u, items) {
          var item :| item in items && c == CompactIdentifier(u, item.Text());
          assert c in LeafCompacts(u, item);
        }
      }
  }

  lemma EmptyCompact(u: Alphabet)
    ensures CompactIdentifier(u, "") == ""
  {
    assert Lower(u, "") == "";
  }

  lemma FlatMetadataLeaves(u: Alphabet, m: Metadata)
    requires FlatMetadata(m)
    ensures HotLeafCompacts(u, m) == HotIdentifierCompacts(u, m)
  {
    forall v | v in HotValues(m) ensures LeafCompacts(u, v) == ItemCompacts(u, Items(v)) {
      FlatLeaves(u, v);
    }
  }

  /** The index is the same predicate, not a superset: on extracted identifiers and values nested at
      most one list deep. */
  lemma IndexIsExact(u: Alphabet, m: Metadata, found: seq<string>)
    requires u.Valid() && FlatMetadata(m)
    ensures var q := QueryIdentifiers(u, found);
      && MatchedIdentifierCompacts(u, m, q) == Compacts(q) * HotIdentifierCompacts(u, m)
      && (MetadataIdentifierMatches(u, m, q) <==> Compacts(q) * HotIdentifierCompacts(u, m) != {})
  {
    var q := QueryIdentifiers(u, found);
    QueryIdentifiersClosed(u, found);
    MatchedIsLeafIntersection(u, m, q);
    FlatMetadataLeaves(u, m);
    MatchesIffMatched(u, m, q);
  }

  lemma MatchesIffMatched(u: Alphabet, m: Metadata, identifiers: set<string>)
    ensures MetadataIdentifierMatches(u, m, identifiers) <==> MatchedIdentifierCompacts(u, m, identifiers) != {}
  {
    if MetadataIdentifierMatches(u, m, identifiers) {
      var v :| v in HotValues(m) && ValueMatches(u, v, identifiers);
      MatchesSome(u, v, identifiers);
      var id :| id in identifiers && ValueMatches(u, v, {id});
      assert RemoveDashes(id) in MatchedIdentifierCompacts(u, m, identifiers);
    }
    if c :| c in MatchedIdentifierCompacts(u, m, identifiers) {
      var id :| id in identifiers && (exists v | v in HotValues(m) :: ValueMatches(u, v, {id})) && c == RemoveDashes(id);
      var v :| v in HotValues(m) && ValueMatches(u, v, {id});
      MatchesSome(u, v, identifiers);
    }
  }

  // ----- Both conditions are needed -----

  function OnlyField(v: Value): Metadata {
    Mapping(map["isin" := v], map[])
  }

  lemma {:induction false} NoChildren(m: Metadata, depth: nat, k: nat)
    requires depth <= 3 && m.Mapping? && m.nested == map[] && k <= |NESTED_METADATA_KEYS|
    ensures ChildMappings(m, depth, k) == []
    decreases |NESTED_METADATA_KEYS| - k
  {
    if k < |NESTED_METADATA_KEYS| { NoChildren(m, depth, k + 1); }
  }

  lemma OnlyFieldValues(v: Value)
    ensures v in HotValues(OnlyField(v))
    ensures forall x | x in HotValues(OnlyField(v)) :: x == Null || x == v
  {
    var m := OnlyField(v);
    NoChildren(m, 0, 0);
    assert MetadataMappings(m, 0) == [m];
    var row := seq(|HOT_IDENTIFIER_FIELDS|, i requires 0 <= i < |HOT_IDENTIFIER_FIELDS| => Field(m, HOT_IDENTIFIER_FIELDS[i]));
    assert FieldValues([m]) == row + FieldValues([m][1..]);
    assert FieldValues([m][1..]) == [];
    assert row[7] == v;
  }

  /** A set of identifiers is served exactly by the column, over all flat metadata, precisely when
      it is closed under compaction. */
  lemma IndexIsExactExactlyWhenClosed(u: Alphabet, identifiers: set<string>)
    requires u.Valid()
    ensures ClosedUnderCompaction(identifiers) <==>
            forall m | FlatMetadata(m) ::
              MatchedIdentifierCompacts(u, m, identifiers) == Compacts(identifiers) * HotIdentifierCompacts(u, m)
  {
    if ClosedUnderCompaction(identifiers) {
      forall m | FlatMetadata(m)
        ensures MatchedIdentifierCompacts(u, m, identifiers) == Compacts(identifiers) * HotIdentifierCompacts(u, m)
      {
        MatchedIsLeafIntersection(u, m, identifiers);
        FlatMetadataLeaves(u, m);
      }
    } else {
      var id :| id in identifiers && IsCompact(RemoveDashes(id)) && RemoveDashes(id) !in identifiers;
      MissedCompact(u, identifiers, RemoveDashes(id));
    }
  }

  lemma OtherIdentifier(u: Alphabet, c: string, id: string, v: Value)
    requires u.Valid() && IsCompact(c) && id != c && (v == Null || v == Scalar(c))
    ensures !ValueMatches(u, v, {id})
  {
    CompactIsFixed(u, c);
    hide NormalizeIdentifier, IsCompact;
  }

  lemma OnlyFieldIsFlat(c: string)
    ensures FlatMetadata(OnlyField(Scalar(c)))
  {
    OnlyFieldValues(Scalar(c));
    hide HotValues, OnlyField;
  }

  lemma MissedCompact(u: Alphabet, identifiers: set<string>, c: string)
    requires u.Valid() && IsCompact(c) && c !in identifiers && c in Compacts(identifiers)
    ensures var m := OnlyField(Scalar(c));
      FlatMetadata(m)
      && MatchedIdentifierCompacts(u, m, identifiers) != Compacts(identifiers) * HotIdentifierCompacts(u, m)
  {
    hide HotValues, OnlyField, FlatMetadata, HotIdentifierCompacts, ValueMatches, IsCompact;
    var m := OnlyField(Scalar(c));
    OnlyFieldIsFlat(c);
    OnlyFieldValues(Scalar(c));
    ScalarColumn(u, c, m);
    forall id, v | id in identifiers && v in HotValues(m) ensures !ValueMatches(u, v, {id}) {
      OtherIdentifier(u, c, id, v);
    }
    assert c !in MatchedIdentifierCompacts(u, m, identifiers);
  }

  lemma ScalarColumn(u: Alphabet, c: string, m: Metadata)
    requires u.Valid() && IsCompact(c) && Scalar(c) in HotValues(m)
    ensures c in HotIdentifierCompacts(u, m)
  {
    ScalarItems(u, c);
    hide HotValues, ItemCompacts, Items, IsCompact;
  }

  lemma ScalarItems(u: Alphabet, c: string)
    requires u.Valid() && IsCompact(c)
    ensures c in ItemCompacts(u, Items(Scalar(c)))
  {
    CompactIsFixed(u, c);
    assert c != "";
    hide NormalizeIdentifier, IsCompact;
    assert CompactIdentifier(u, Scalar(c).Text()) == c;
    assert Items(Scalar(c))[0] == Scalar(c);
  }

  /** One metadata value is served exactly by the column, for all closed identifier sets, precisely
      when the column equals the leaf compacts; nesting a list inside a list can break that. */
  lemma MetadataIsServedExactly(u: Alphabet, m: Metadata)
    requires u.Valid()
    ensures HotLeafCompacts(u, m) == HotIdentifierCompacts(u, m) <==>
            forall q | ClosedUnderCompaction(q) ::
              MatchedIdentifierCompacts(u, m, q) == Compacts(q) * HotIdentifierCompacts(u, m)
  {
    if HotLeafCompacts(u, m) == HotIdentifierCompacts(u, m) {
      forall q | ClosedUnderCompaction(q)
        ensures MatchedIdentifierCompacts(u, m, q) == Compacts(q) * HotIdentifierCompacts(u, m)
      {
        MatchedIsLeafIntersection(u, m, q);
      }
    } else {
      var q := MissedSet(u, m);
    }
  }

  lemma MissedSet(u: Alphabet, m: Metadata) returns (q: set<string>)
    requires u.Valid() && HotLeafCompacts(u, m) != HotIdentifierCompacts(u, m)
    ensures ClosedUnderCompaction(q)
    ensures MatchedIdentifierCompacts(u, m, q) != Compacts(q) * HotIdentifierCompacts(u, m)
  {
    hide *;
    var leaf, column := HotLeafCompacts(u, m), HotIdentifierCompacts(u, m);
    var c := Separating(leaf, column);
    HotCompactsAreCompact(u, m, c);
    q := {c};
    SingletonIsClosed(u, c);
    MatchedIsLeafIntersection(u, m, q);
    assert c in q * leaf <==> c !in q * column;
  }

  lemma Separating(a: set<string>, b: set<string>) returns (c: string)
    requires a != b
    ensures c in a + b && c !in a * b
  {
    if a <= b {
      assert !(b <= a);
      c :| c in b && c !in a;
    } else {
      c :| c in a && c !in b;
    }
  }

  lemma SingletonIsClosed(u: Alphabet, c: string)
    requires u.Valid() && IsCompact(c)
    ensures Compacts({c}) == {c} && ClosedUnderCompaction({c})
  {
    CompactIsFixed(u, c);
  }

  lemma HotCompactsAreCompact(u: Alphabet, m: Metadata, c: string)
    requires u.Valid() && c in HotLeafCompacts(u, m) + HotIdentifierCompacts(u, m)
    ensures IsCompact(c)
  {
    if c in HotLeafCompacts(u, m) {
      var v :| v in HotValues(m) && c in LeafCompacts(u, v);
      LeafGivesMatch(u, v, c);
    } else {
      var v :| v in HotValues(m) && c in ItemCompacts(u, Items(v));
      var item :| item in Items(v) && c == CompactIdentifier(u, item.Text());
      CompactIsFilter(u, item.Text());
      FilterResult(Lower(u, item.Text()));
    }
  }

  /** The Python text of a list of two strings. */
  function ListText(a: string, b: string): string {
    "['" + (a + ("', '" + (b + "']")))
  }

  /** A list inside a list: the predicate finds either inner identifier, the column holds only their
      joined text. */
  lemma NestedListEscapesTheIndex(u: Alphabet, a: string, b: string, inner: Value, v: Value)
    requires u.Valid() && u.lower('[') == '[' && u.lower(']') == ']' && u.lower('\'') == '\'' && u.lower(',') == ','
    requires IsCompact(a) && IsCompact(b)
    requires inner.Many? && inner.items == [Scalar(a), Scalar(b)] && inner.text == ListText(a, b)
    requires v.Many? && v.items == [inner]
    ensures MatchedIdentifierCompacts(u, OnlyField(v), {a}) == {a}
    ensures Compacts({a}) * HotIdentifierCompacts(u, OnlyField(v)) == {}
  {
    hide *;
    assert inner.items[0] == Scalar(a) && v.items[0] == inner;
    NestedLeaf(u, a, inner, v);
    NestedColumn(u, a, b, inner, v);
    SingletonIsClosed(u, a);
    MatchedIsLeafIntersection(u, OnlyField(v), {a});
    Longer(a, b);
    var leaf, column := HotLeafCompacts(u, OnlyField(v)), HotIdentifierCompacts(u, OnlyField(v));
    assert {a} * leaf == {a} && {a} * column == {};
  }

  lemma Longer(a: string, b: string)
    requires IsCompact(b)
    ensures a != a + b
  {
    assert |a + b| > |a|;
  }

  lemma NestedLeaf(u: Alphabet, a: string, inner: Value, v: Value)
    requires u.Valid() && IsCompact(a) && inner.Many? && v.Many? && Scalar(a) in inner.items && inner in v.items
    ensures a in HotLeafCompacts(u, OnlyField(v))
  {
    OnlyFieldValues(v);
    CompactIsFixed(u, a);
    hide OnlyField, HotValues, NormalizeIdentifier;
    assert a in LeafCompacts(u, Scalar(a));
    assert a in LeafCompacts(u, inner);
    assert a in LeafCompacts(u, v);
  }

  lemma NestedColumn(u: Alphabet, a: string, b: string, inner: Value, v: Value)
    requires u.Valid() && u.lower('[') == '[' && u.lower(']') == ']' && u.lower('\'') == '\'' && u.lower(',') == ','
    requires IsCompact(a) && IsCompact(b)
    requires inner.Many? && v.Many? && inner.text == ListText(a, b) && v.items == [inner]
    ensures HotIdentifierCompacts(u, OnlyField(v)) <= {a + b}
  {
    OnlyFieldValues(v);
    JoinedCompact(u, a, b);
    hide OnlyField, HotValues, CompactIdentifier, ListText;
    assert ItemCompacts(u, Items(v)) <= {a + b} && ItemCompacts(u, Items(Null)) == {};
  }

  lemma JoinedCompact(u: Alphabet, a: string, b: string)
    requires u.Valid() && u.lower('[') == '[' && u.lower(']') == ']' && u.lower('\'') == '\'' && u.lower(',') == ','
    requires IsCompact(a) && IsCompact(b)
    ensures CompactIdentifier(u, ListText(a, b)) == a + b
  {
    CompactIsFilter(u, ListText(a, b));
    ListTextIsLower(u, a, b);
    ListTextFilter(a, b);
  }

  lemma ListTextIsLower(u: Alphabet, a: string, b: string)
    requires u.Valid() && u.lower('[') == '[' && u.lower(']') == ']' && u.lower('\'') == '\'' && u.lower(',') == ','
    requires IsCompact(a) && IsCompact(b)
    ensures Lower(u, ListText(a, b)) == ListText(a, b)
  {
    LowerConcat(u, b, "']");
    LowerConcat(u, "', '", b + "']");
    LowerConcat(u, a, "', '" + (b + "']"));
    LowerConcat(u, "['", a + ("', '" + (b + "']")));
    assert Lower(u, "['") == "['" && Lower(u, "', '") == "', '" && Lower(u, "']") == "']";
    assert Lower(u, a) == a && Lower(u, b) == b;
  }

  lemma ListTextFilter(a: string, b: string)
    requires IsCompact(a) && IsCompact(b)
    ensures IdChars(ListText(a, b)) == a + b
  {
    NothingKept("['");
    NothingKept("', '");
    NothingKept("']");
    FilterOfCompact(a);
    FilterOfCompact(b);
    hide IdChars;
    IdCharsConcat("['", a + ("', '" + (b + "']")));
    IdCharsConcat(a, "', '" + (b + "']"));
    IdCharsConcat("', '", b + "']");
    IdCharsConcat(b, "']");
    assert b + "" == b && "" + b == b && "" + (a + b) == a + b;
  }

  lemma {:induction false} NothingKept(s: string)
    requires forall i | 0 <= i < |s| :: !IdChar(s[i])
    ensures IdChars(s) == ""
  {
    if s != "" { NothingKept(s[1..]); }
  }
}
