/** Where the hot values of nested metadata come from (src/raku_rag/core/hybrid_retrieval.py). */
module MetadataPaths {
  import opened Common
  import opened Text
  import opened Identifiers
  import opened MetadataIndex

  predicate NestingKey(key: string) {
    key == "_mfg_meta" || key == "manufacturing_metadata" || key == "manufacturing" || key == "industry_metadata"
  }

  predicate HotField(field: string) {
    || field == "equipment_id" || field == "alarm_code" || field == "part_no"
    || field == "property_id" || field == "room_number" || field == "contract_id"
    || field == "fund_id" || field == "isin" || field == "invoice_id"
  }

  lemma KeyNumber(key: string)
    ensures NestingKey(key) <==> exists k :: 0 <= k < |NESTED_METADATA_KEYS| && NESTED_METADATA_KEYS[k] == key
  {
    var keys := NESTED_METADATA_KEYS;
    assert NestingKey(key) <==> key == keys[0] || key == keys[1] || key == keys[2] || key == keys[3];
    assert |keys| == 4;
  }

  lemma FieldNumber(field: string)
    ensures HotField(field) <==> exists i :: 0 <= i < |HOT_IDENTIFIER_FIELDS| && HOT_IDENTIFIER_FIELDS[i] == field
  {
    var fields := HOT_IDENTIFIER_FIELDS;
    assert HotField(field) <==>
      || field == fields[0] || field == fields[1] || field == fields[2] || field == fields[3] || field == fields[4]
      || field == fields[5] || field == fields[6] || field == fields[7] || field == fields[8];
    assert |fields| == 9;
  }

  /** The path of nesting keys leads from the metadata down to the target. */
  ghost predicate Leads(m: Metadata, path: seq<string>, target: Metadata) {
    if path == [] then m == target
    else m.Mapping? && NestingKey(path[0]) && path[0] in m.nested && Leads(m.nested[path[0]], path[1..], target)
  }

  /** The value lies under a hot field of a mapping that at most `steps` nesting keys lead to. */
  ghost predicate HotWithin(m: Metadata, v: Value, steps: nat) {
    exists path, target, field ::
      |path| <= steps && Leads(m, path, target) && HoldsAt(target, field, v)
  }

  predicate HoldsAt(target: Metadata, field: string, v: Value) {
    target.Mapping? && HotField(field) && field in target.fields && target.fields[field] == v
  }

  // ----- The mappings visited are those within three steps -----

  ghost predicate Within(m: Metadata, steps: int, target: Metadata) {
    exists path :: |path| <= steps && Leads(m, path, target)
  }

  /** The k-th nesting key leads on to the target. */
  ghost predicate ChildLeads(m: Metadata, k: nat, steps: int, target: Metadata)
    requires m.Mapping? && k < |NESTED_METADATA_KEYS|
  {
    NESTED_METADATA_KEYS[k] in m.nested && Within(m.nested[NESTED_METADATA_KEYS[k]], steps - 1, target)
  }

  lemma StepDown(m: Metadata, k: nat, steps: int, target: Metadata)
    requires m.Mapping? && k < |NESTED_METADATA_KEYS| && ChildLeads(m, k, steps, target)
    ensures Within(m, steps, target)
  {
    var key := NESTED_METADATA_KEYS[k];
    var path :| |path| <= steps - 1 && Leads(m.nested[key], path, target);
    KeyNumber(key);
    hide NestingKey;
    assert ([key] + path)[1..] == path;
    assert Leads(m, [key] + path, target);
  }

  lemma FirstStep(m: Metadata, path: seq<string>, target: Metadata)
    requires path != [] && Leads(m, path, target)
    ensures m.Mapping? && exists k: nat | k < |NESTED_METADATA_KEYS| :: ChildLeads(m, k, |path|, target)
  {
    KeyNumber(path[0]);
    hide NestingKey;
    var k :| 0 <= k < |NESTED_METADATA_KEYS| && NESTED_METADATA_KEYS[k] == path[0];
    assert |path[1..]| <= |path| - 1 && Leads(m.nested[path[0]], path[1..], target);
    assert ChildLeads(m, k, |path|, target);
  }

  lemma ChildWidens(m: Metadata, k: nat, steps: int, more: int, target: Metadata)
    requires m.Mapping? && k < |NESTED_METADATA_KEYS| && ChildLeads(m, k, steps, target) && steps <= more
    ensures ChildLeads(m, k, more, target)
  {
    var path :| |path| <= steps - 1 && Leads(m.nested[NESTED_METADATA_KEYS[k]], path, target);
    assert |path| <= more - 1;
  }

  /** Reaching a target means being it or having a nesting key that leads on. */
  lemma WithinExactly(m: Metadata, steps: int, target: Metadata)
    requires m.Mapping? && steps >= 0
    ensures Within(m, steps, target) <==>
            m == target || exists k: nat | k < |NESTED_METADATA_KEYS| :: ChildLeads(m, k, steps, target)
  {
    hide ChildLeads;
    if m == target {
      var here: seq<string> := [];
      assert |here| <= steps && Leads(m, here, target);
    }
    if k: nat :| k < |NESTED_METADATA_KEYS| && ChildLeads(m, k, steps, target) { StepDown(m, k, steps, target); }
    if path :| |path| <= steps && Leads(m, path, target) {
      if path != [] {
        FirstStep(m, path, target);
        var k: nat :| k < |NESTED_METADATA_KEYS| && ChildLeads(m, k, |path|, target);
        ChildWidens(m, k, |path|, steps, target);
      }
    }
  }

  lemma OpaqueLeadsNowhere(m: Metadata, steps: int, target: Metadata)
    requires m.Opaque? && Within(m, steps, target)
    ensures target == m
  {
  }

  lemma {:induction false} MappingsWithin(m: Metadata, depth: nat, target: Metadata)
    ensures target in MetadataMappings(m, depth) <==> target.Mapping? && depth <= 3 && Within(m, 3 - depth, target)
    decreases 4 - depth, 1, 0
  {
    hide Within, ChildLeads;
    if depth <= 3 && m.Mapping? {
      WithinExactly(m, 3 - depth, target);
      ChildrenWithin(m, depth, 0, 3 - depth, target);
    } else if depth <= 3 && Within(m, 3 - depth, target) {
      OpaqueLeadsNowhere(m, 3 - depth, target);
    }
  }

  lemma {:induction false} ChildrenWithin(m: Metadata, depth: nat, k: nat, steps: int, target: Metadata)
    requires depth <= 3 && m.Mapping? && k <= |NESTED_METADATA_KEYS| && steps == 3 - depth
    ensures target in ChildMappings(m, depth, k) <==>
            target.Mapping? && exists j: nat | k <= j < |NESTED_METADATA_KEYS| :: ChildLeads(m, j, steps, target)
    decreases 4 - depth, 0, |NESTED_METADATA_KEYS| - k
  {
    hide Within, MetadataMappings;
    if k < |NESTED_METADATA_KEYS| {
      ChildrenWithin(m, depth, k + 1, steps, target);
      var key := NESTED_METADATA_KEYS[k];
      if key in m.nested {
        MappingsWithin(m.nested[key], depth + 1, target);
        NoSteps(m.nested[key], target);
      }
      assert ChildLeads(m, k, steps, target) <==> key in m.nested && Within(m.nested[key], steps - 1, target);
      assert ChildMappings(m, depth, k)
          == (if key in m.nested then MetadataMappings(m.nested[key], depth + 1) else []) + ChildMappings(m, depth, k + 1);
    }
  }

  lemma NoSteps(m: Metadata, target: Metadata)
    ensures !Within(m, -1, target)
  {
  }

  // ----- The hot values, the predicate and the column over paths -----

  lemma {:induction false} FieldValuesOf(mappings: seq<Metadata>, v: Value)
    requires v != Null
    ensures v in FieldValues(mappings) <==> exists target, field | target in mappings :: HoldsAt(target, field, v)
  {
    if mappings != [] {
      var first, rest := mappings[0], mappings[1..];
      FieldValuesOf(rest, v);
      RowOf(first, v);
      assert forall t :: t in mappings <==> t == first || t in rest;
      FieldValuesStep(mappings);
    }
  }

  function HotRow(m: Metadata): seq<Value> {
    seq(|HOT_IDENTIFIER_FIELDS|, i requires 0 <= i < |HOT_IDENTIFIER_FIELDS| => Field(m, HOT_IDENTIFIER_FIELDS[i]))
  }

  lemma FieldValuesStep(mappings: seq<Metadata>)
    requires mappings != []
    ensures FieldValues(mappings) == HotRow(mappings[0]) + FieldValues(mappings[1..])
  {
  }

  lemma RowOf(m: Metadata, v: Value)
    requires v != Null
    ensures v in HotRow(m) <==> exists field :: HoldsAt(m, field, v)
  {
    hide HotField;
    if v in HotRow(m) {
      var i :| 0 <= i < |HotRow(m)| && HotRow(m)[i] == v;
      FieldNumber(HOT_IDENTIFIER_FIELDS[i]);
      assert HoldsAt(m, HOT_IDENTIFIER_FIELDS[i], v);
    }
    if field :| HoldsAt(m, field, v) {
      FieldNumber(field);
      var i :| 0 <= i < |HOT_IDENTIFIER_FIELDS| && HOT_IDENTIFIER_FIELDS[i] == field;
      assert HotRow(m)[i] == v;
    }
  }

  /** A value is hot exactly when at most three nesting keys lead to a mapping that holds it under a hot
      field. */
  lemma HotValuesExactly(m: Metadata, v: Value)
    requires v != Null
    ensures v in HotValues(m) <==> HotWithin(m, v, 3)
  {
    hide MetadataMappings, FieldValues, HoldsAt, Leads;
    FieldValuesOf(MetadataMappings(m, 0), v);
    if v in HotValues(m) {
      var target, field :| target in MetadataMappings(m, 0) && HoldsAt(target, field, v);
      MappingsWithin(m, 0, target);
      var path :| |path| <= 3 && Leads(m, path, target);
    }
    if path, target, field :| |path| <= 3 && Leads(m, path, target) && HoldsAt(target, field, v) {
      HolderIsMapping(target, field, v);
      MappingsWithin(m, 0, target);
    }
  }

  lemma HolderIsMapping(target: Metadata, field: string, v: Value)
    requires HoldsAt(target, field, v)
    ensures target.Mapping?
  {
  }

  /** A text at some depth of the lists of a value. */
  ghost predicate HasLeaf(v: Value, text: string) {
    if v.Scalar? then v.text == text
    else v.Many? && exists item | item in v.items :: HasLeaf(item, text)
  }

  lemma {:induction false} ValueMatchesExactly(u: Alphabet, v: Value, identifiers: set<string>)
    ensures ValueMatches(u, v, identifiers) <==>
            exists text | HasLeaf(v, text) ::
              NormalizeIdentifier(u, text) != ""
              && (NormalizeIdentifier(u, text) in identifiers || CompactIdentifier(u, text) in identifiers)
  {
    hide NormalizeIdentifier, RemoveDashes;
    if v.Many? {
      forall item | item in v.items
        ensures ValueMatches(u, item, identifiers) <==>
                exists text | HasLeaf(item, text) ::
                  NormalizeIdentifier(u, text) != ""
                  && (NormalizeIdentifier(u, text) in identifiers || CompactIdentifier(u, text) in identifiers)
      {
        ValueMatchesExactly(u, item, identifiers);
      }
      assert forall text :: HasLeaf(v, text) <==> exists item | item in v.items :: HasLeaf(item, text);
    } else if v.Scalar? {
      assert HasLeaf(v, v.text);
    }
  }

  /** A text directly in a value: its own, or that of an item of its list, "" for a missing one. */
  ghost predicate HasItem(v: Value, text: string) {
    || (v.Scalar? && v.text == text)
    || (v.Many? && exists item | item in v.items :: if item.Null? then text == "" else item.text == text)
  }

  lemma ItemExactly(u: Alphabet, v: Value, c: string)
    ensures c in ItemCompacts(u, Items(v)) <==>
            c != "" && exists text | HasItem(v, text) :: CompactIdentifier(u, text) == c
  {
    hide CompactIdentifier;
    forall text ensures HasItem(v, text) <==> exists item | item in Items(v) :: item.Text() == text {
      ItemTexts(v, text);
    }
  }

  lemma ItemTexts(v: Value, text: string)
    ensures HasItem(v, text) <==> exists item | item in Items(v) :: item.Text() == text
  {
    var items := Items(v);
    if v.Scalar? {
      assert v in items && v.Text() == v.text;
    }
    if item :| item in items && item.Text() == text {
      assert v.Many? ==> item in v.items;
    }
    if v.Many? && exists item | item in v.items :: if item.Null? then text == "" else item.text == text {
      var item :| item in v.items && if item.Null? then text == "" else item.text == text;
      assert item in items && item.Text() == text;
    }
  }

  /** Metadata matches exactly when a text at any depth of the lists of a value within three steps has a
      normal or a compact form among the identifiers; the column holds the non-empty compact forms of the
      texts directly in such values. */
  lemma PredicateAndColumnOverPaths(u: Alphabet, m: Metadata, identifiers: set<string>, c: string)
    ensures MetadataIdentifierMatches(u, m, identifiers) <==>
            exists v, text | HotWithin(m, v, 3) && HasLeaf(v, text) ::
              NormalizeIdentifier(u, text) != ""
              && (NormalizeIdentifier(u, text) in identifiers || CompactIdentifier(u, text) in identifiers)
    ensures c in HotIdentifierCompacts(u, m) <==>
            c != "" && exists v, text | HotWithin(m, v, 3) && HasItem(v, text) :: CompactIdentifier(u, text) == c
  {
    hide HotValues, HotWithin, NormalizeIdentifier, RemoveDashes, ItemCompacts, ValueMatches, HasLeaf, HasItem;
    MatchesOverPaths(u, m, identifiers);
    ColumnOverPaths(u, m, c);
    forall v
      ensures ValueMatches(u, v, identifiers) <==>
              exists text | HasLeaf(v, text) ::
                NormalizeIdentifier(u, text) != ""
                && (NormalizeIdentifier(u, text) in identifiers || CompactIdentifier(u, text) in identifiers)
      ensures c in ItemCompacts(u, Items(v)) <==>
              c != "" && exists text | HasItem(v, text) :: CompactIdentifier(u, text) == c
    {
      ValueMatchesExactly(u, v, identifiers);
      ItemExactly(u, v, c);
    }
    hide *;
  }

  lemma MatchesOverPaths(u: Alphabet, m: Metadata, identifiers: set<string>)
    ensures MetadataIdentifierMatches(u, m, identifiers) <==>
            exists v | HotWithin(m, v, 3) :: ValueMatches(u, v, identifiers)
  {
    hide HotValues, HotWithin;
    forall v | v != Null ensures v in HotValues(m) <==> HotWithin(m, v, 3) { HotValuesExactly(m, v); }
    forall v | ValueMatches(u, v, {}) ensures false { ValueMatchesExactly(u, v, {}); }
  }

  lemma ColumnOverPaths(u: Alphabet, m: Metadata, c: string)
    ensures c in HotIdentifierCompacts(u, m) <==> exists v | HotWithin(m, v, 3) :: c in ItemCompacts(u, Items(v))
  {
    hide HotValues, HotWithin;
    forall v | v != Null ensures v in HotValues(m) <==> HotWithin(m, v, 3) { HotValuesExactly(m, v); }
  }
}
