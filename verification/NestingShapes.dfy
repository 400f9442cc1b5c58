/** Which nestings of lists the identifier column serves (src/raku_rag/core/hybrid_retrieval.py). */
module NestingShapes {
  import opened Common
  import opened Text
  import opened Identifiers
  import opened MetadataIndex

  // ----- Leaves in order -----

  /** The non-empty compacts of the scalars inside a value, in order and with repetition. */
  function Leaves(u: Alphabet, v: Value): seq<string> {
    match v
    case Null => []
    case Scalar(text) => if CompactIdentifier(u, text) == "" then [] else [CompactIdentifier(u, text)]
    case Many(items, _) => LeavesAll(u, items)
  }

  function LeavesAll(u: Alphabet, items: seq<Value>): seq<string> {
    if items == [] then [] else Leaves(u, items[0]) + LeavesAll(u, items[1..])
  }

  function Joined(words: seq<string>): string {
    if words == [] then "" else words[0] + Joined(words[1..])
  }

  /** Python's text of a list shows its items between brackets, quotes and commas, so that compaction
      joins the compacts of its leaves. This holds for lists of plain texts at any depth. */
  predicate Rendered(u: Alphabet, v: Value) {
    v.Many? ==>
      CompactIdentifier(u, v.text) == Joined(LeavesAll(u, v.items)) && forall item | item in v.items :: Rendered(u, item)
  }

  lemma {:induction false} LeavesAreLeafCompacts(u: Alphabet, v: Value, c: string)
    ensures c in LeafCompacts(u, v) <==> c in Leaves(u, v)
    decreases v
  {
    hide CompactIdentifier;
    match v
    case Null =>
    case Scalar(_) =>
    case Many(items, _) => LeavesOfItems(u, items, c);
  }

  lemma {:induction false} LeavesOfItems(u: Alphabet, items: seq<Value>, c: string)
    ensures c in LeavesAll(u, items) <==> exists item | item in items :: c in LeafCompacts(u, item)
    decreases items
  {
    hide LeafCompacts, Leaves;
    if items != [] {
      LeavesAreLeafCompacts(u, items[0], c);
      LeavesOfItems(u, items[1..], c);
      assert forall item :: item in items <==> item == items[0] || item in items[1..];
    }
  }

  lemma {:induction false} LeavesAreNotEmpty(u: Alphabet, v: Value)
    ensures "" !in Leaves(u, v)
    decreases v
  {
    hide CompactIdentifier;
    match v
    case Null =>
    case Scalar(_) =>
    case Many(items, _) => LeavesAllNotEmpty(u, items);
  }

  lemma {:induction false} LeavesAllNotEmpty(u: Alphabet, items: seq<Value>)
    ensures "" !in LeavesAll(u, items)
    decreases items
  {
    hide Leaves;
    if items != [] {
      LeavesAreNotEmpty(u, items[0]);
      LeavesAllNotEmpty(u, items[1..]);
    }
  }

  lemma {:induction false} JoinedLonger(words: seq<string>, w: string)
    requires w in words && |words| >= 2 && "" !in words
    ensures |Joined(words)| > |w|
  {
    var rest := words[1..];
    assert words[0] in words && rest[0] in words && rest[0] in rest;
    assert "" !in rest;
    if |rest| == 1 {
      assert words == [words[0], rest[0]] && rest[1..] == [];
    } else {
      JoinedLonger(rest, if w in rest then w else rest[0]);
    }
  }

  // ----- One inner list -----

  function ColumnOf(u: Alphabet, v: Value): set<string> {
    ItemCompacts(u, Items(v))
  }

  /** An item of a hot list is indexed under its own leaves exactly when it has at most one. */
  lemma ItemIsIndexedExactly(u: Alphabet, item: Value)
    requires Rendered(u, item)
    ensures {CompactIdentifier(u, item.Text())} - {""} == LeafCompacts(u, item) <==> |Leaves(u, item)| <= 1
  {
    hide CompactIdentifier, LeafCompacts, Leaves;
    ItemText(u, item);
    LeavesAreNotEmpty(u, item);
    forall c ensures c in LeafCompacts(u, item) <==> c in Leaves(u, item) { LeavesAreLeafCompacts(u, item, c); }
    var leaves := Leaves(u, item);
    if |leaves| == 1 {
      assert leaves == [leaves[0]] && leaves[1..] == [] && Joined(leaves) == leaves[0];
    } else if |leaves| >= 2 {
      JoinedLonger(leaves, leaves[0]);
      if Joined(leaves) in leaves { JoinedLonger(leaves, Joined(leaves)); }
      assert leaves[0] in LeafCompacts(u, item);
    }
  }

  lemma ItemText(u: Alphabet, item: Value)
    requires Rendered(u, item)
    ensures CompactIdentifier(u, item.Text()) == Joined(Leaves(u, item))
  {
    EmptyCompact(u);
    hide CompactIdentifier;
    if item.Scalar? {
      var c := CompactIdentifier(u, item.text);
      assert [c][1..] == [] && Joined([c]) == c + Joined([c][1..]);
    }
  }

  /** The metadata is served: every closed set of identifiers matches it exactly as its column says. */
  ghost predicate Served(u: Alphabet, m: Metadata) {
    forall q | ClosedUnderCompaction(q) :: MatchedIdentifierCompacts(u, m, q) == Compacts(q) * HotIdentifierCompacts(u, m)
  }

  lemma OnlyFieldServed(u: Alphabet, v: Value)
    requires u.Valid()
    ensures Served(u, OnlyField(v)) <==> LeafCompacts(u, v) == ColumnOf(u, v)
  {
    hide OnlyField, HotLeafCompacts, HotIdentifierCompacts, LeafCompacts, ColumnOf, MatchedIdentifierCompacts, ClosedUnderCompaction, Compacts;
    MetadataIsServedExactly(u, OnlyField(v));
    OnlyFieldLeaves(u, v);
    OnlyFieldColumn(u, v);
  }

  lemma OnlyFieldLeaves(u: Alphabet, v: Value)
    ensures HotLeafCompacts(u, OnlyField(v)) == LeafCompacts(u, v)
  {
    OnlyFieldValues(v);
    NullIsEmpty(u);
    hide OnlyField, HotValues, LeafCompacts;
  }

  lemma OnlyFieldColumn(u: Alphabet, v: Value)
    ensures HotIdentifierCompacts(u, OnlyField(v)) == ColumnOf(u, v)
  {
    OnlyFieldValues(v);
    NullIsEmpty(u);
    hide OnlyField, HotValues, ItemCompacts, Items;
  }

  lemma NullIsEmpty(u: Alphabet)
    ensures LeafCompacts(u, Null) == {} && ItemCompacts(u, Items(Null)) == {}
  {
  }

  /** A hot list that holds one item, a list nested to any depth, is served exactly when that item has
      at most one identifier-like leaf. */
  lemma OneInnerListExactly(u: Alphabet, inner: Value, text: string)
    requires u.Valid() && Rendered(u, inner)
    ensures Served(u, OnlyField(Many([inner], text))) <==> |Leaves(u, inner)| <= 1
  {
    var v := Many([inner], text);
    OnlyFieldServed(u, v);
    ItemIsIndexedExactly(u, inner);
    OneItem(u, inner, text);
    hide Served, OnlyField, LeafCompacts, Leaves, ColumnOf;
  }

  lemma ListLeaves(u: Alphabet, items: seq<Value>, text: string, c: string)
    ensures c in LeafCompacts(u, Many(items, text)) <==> exists item | item in items :: c in LeafCompacts(u, item)
    ensures c in ColumnOf(u, Many(items, text)) <==> c != "" && exists item | item in items :: c == CompactIdentifier(u, item.Text())
  {
    hide CompactIdentifier;
  }

  lemma OneItem(u: Alphabet, inner: Value, text: string)
    ensures LeafCompacts(u, Many([inner], text)) == LeafCompacts(u, inner)
    ensures ColumnOf(u, Many([inner], text)) == {CompactIdentifier(u, inner.Text())} - {""}
  {
    hide CompactIdentifier, LeafCompacts, ColumnOf;
    assert forall item :: item in [inner] <==> item == inner;
    forall c
      ensures c in LeafCompacts(u, Many([inner], text)) <==> c in LeafCompacts(u, inner)
      ensures c in ColumnOf(u, Many([inner], text)) <==> c in {CompactIdentifier(u, inner.Text())} - {""}
    {
      ListLeaves(u, [inner], text, c);
    }
  }

  // ----- Which shapes are served whatever they hold -----

  /** The shape of a value: a place for a scalar, or a list of shapes. */
  datatype Shape = Slot | Row(items: seq<Shape>)

  predicate Fits(v: Value, s: Shape) {
    match s
    case Slot => !v.Many?
    case Row(items) => v.Many? && FitsAll(v.items, items)
  }

  predicate FitsAll(vs: seq<Value>, shapes: seq<Shape>) {
    |vs| == |shapes| && (vs == [] || (Fits(vs[0], shapes[0]) && FitsAll(vs[1..], shapes[1..])))
  }

  function Slots(s: Shape): nat {
    match s
    case Slot => 1
    case Row(items) => SlotsAll(items)
  }

  function SlotsAll(shapes: seq<Shape>): nat {
    if shapes == [] then 0 else Slots(shapes[0]) + SlotsAll(shapes[1..])
  }

  /** Every item of the list, if it is one, has place for at most one scalar. */
  predicate OneSlotPerItem(s: Shape) {
    s.Row? ==> forall item | item in s.items :: Slots(item) <= 1
  }

  lemma {:induction false} LeavesWithinSlots(u: Alphabet, v: Value, s: Shape)
    requires Fits(v, s)
    ensures |Leaves(u, v)| <= Slots(s)
    decreases v
  {
    hide CompactIdentifier;
    match s
    case Slot =>
    case Row(items) => LeavesWithinAll(u, v.items, items);
  }

  lemma {:induction false} LeavesWithinAll(u: Alphabet, vs: seq<Value>, shapes: seq<Shape>)
    requires FitsAll(vs, shapes)
    ensures |LeavesAll(u, vs)| <= SlotsAll(shapes)
    decreases vs
  {
    hide Leaves, Fits, Slots;
    if vs != [] {
      LeavesWithinSlots(u, vs[0], shapes[0]);
      LeavesWithinAll(u, vs[1..], shapes[1..]);
    }
  }

  lemma {:induction false} ItemFits(vs: seq<Value>, shapes: seq<Shape>, k: nat)
    requires FitsAll(vs, shapes) && k < |vs|
    ensures Fits(vs[k], shapes[k])
  {
    hide Fits;
    if k > 0 { ItemFits(vs[1..], shapes[1..], k - 1); }
  }

  lemma IndexedMember(u: Alphabet, item: Value, c: string)
    requires {CompactIdentifier(u, item.Text())} - {""} == LeafCompacts(u, item)
    ensures c in LeafCompacts(u, item) <==> c == CompactIdentifier(u, item.Text()) && c != ""
  {
    hide CompactIdentifier;
    OneOrNone(CompactIdentifier(u, item.Text()), LeafCompacts(u, item), c);
  }

  lemma OneOrNone(word: string, leaves: set<string>, c: string)
    requires {word} - {""} == leaves
    ensures c in leaves <==> c == word && c != ""
  {
  }

  /** When each item has at most one leaf, the column holds exactly the leaves. */
  lemma ItemsIndexed(u: Alphabet, items: seq<Value>, text: string)
    requires forall item | item in items :: {CompactIdentifier(u, item.Text())} - {""} == LeafCompacts(u, item)
    ensures LeafCompacts(u, Many(items, text)) == ColumnOf(u, Many(items, text))
  {
    hide CompactIdentifier, LeafCompacts, ColumnOf;
    forall c ensures c in LeafCompacts(u, Many(items, text)) <==> c in ColumnOf(u, Many(items, text)) {
      ListLeaves(u, items, text, c);
      forall item | item in items ensures c in LeafCompacts(u, item) <==> c == CompactIdentifier(u, item.Text()) && c != "" {
        IndexedMember(u, item, c);
      }
    }
  }

  lemma SafeShapeIsServed(u: Alphabet, v: Value, s: Shape)
    requires u.Valid() && OneSlotPerItem(s) && Fits(v, s) && Rendered(u, v)
    ensures LeafCompacts(u, v) == ColumnOf(u, v)
  {
    if s.Slot? {
      FlatLeaves(u, v);
    } else {
      hide CompactIdentifier, LeafCompacts, Leaves, Slots, ColumnOf, Fits;
      FitsRow(v, s);
      forall item | item in v.items ensures {CompactIdentifier(u, item.Text())} - {""} == LeafCompacts(u, item) {
        var k :| 0 <= k < |v.items| && v.items[k] == item;
        ItemFits(v.items, s.items, k);
        LeavesWithinSlots(u, item, s.items[k]);
        ItemIsIndexedExactly(u, item);
      }
      ItemsIndexed(u, v.items, v.text);
    }
  }

  lemma FitsRow(v: Value, s: Shape)
    requires Fits(v, s) && s.Row?
    ensures v.Many? && FitsAll(v.items, s.items) && |v.items| == |s.items|
  {
  }

  // ----- A filling that an unsafe shape does not serve -----

  function Times(n: nat): seq<string> {
    if n == 0 then [] else ["a"] + Times(n - 1)
  }

  /** The value of this shape with the identifier "a" in every slot. */
  function Filling(s: Shape): Value {
    match s
    case Slot => Scalar("a")
    case Row(items) => Many(FillingAll(items), Joined(Times(SlotsAll(items))))
  }

  function FillingAll(shapes: seq<Shape>): seq<Value> {
    if shapes == [] then [] else [Filling(shapes[0])] + FillingAll(shapes[1..])
  }

  lemma {:induction false} TimesAdd(m: nat, n: nat)
    ensures Times(m) + Times(n) == Times(m + n)
  {
    if m > 0 {
      TimesAdd(m - 1, n);
      assert ["a"] + (Times(m - 1) + Times(n)) == (["a"] + Times(m - 1)) + Times(n);
    }
  }

  lemma {:induction false} JoinedTimes(u: Alphabet, n: nat)
    requires u.Valid()
    ensures |Joined(Times(n))| == n && CompactIdentifier(u, Joined(Times(n))) == Joined(Times(n))
  {
    var s := Joined(Times(n));
    OnlyAs(n);
    if n == 0 {
      EmptyCompact(u);
    } else {
      CompactIsFixed(u, s);
    }
  }

  lemma {:induction false} OnlyAs(n: nat)
    ensures |Joined(Times(n))| == n && forall i | 0 <= i < n :: Joined(Times(n))[i] == 'a'
  {
    if n > 0 {
      OnlyAs(n - 1);
      assert Times(n)[1..] == Times(n - 1);
      assert Joined(Times(n)) == "a" + Joined(Times(n - 1));
    }
  }

  lemma {:induction false} FillingFacts(u: Alphabet, s: Shape)
    requires u.Valid()
    ensures Fits(Filling(s), s) && Rendered(u, Filling(s)) && Leaves(u, Filling(s)) == Times(Slots(s))
    decreases s
  {
    match s
    case Slot =>
      CompactIsFixed(u, "a");
      assert Times(1) == ["a"] + Times(0);
    case Row(items) =>
      FillingAllFacts(u, items);
      JoinedTimes(u, SlotsAll(items));
      hide CompactIdentifier;
  }

  lemma {:induction false} FillingAt(shapes: seq<Shape>, k: nat)
    requires k < |shapes|
    ensures |FillingAll(shapes)| == |shapes| && FillingAll(shapes)[k] == Filling(shapes[k])
  {
    hide Filling;
    FillingLength(shapes);
    if k > 0 { FillingAt(shapes[1..], k - 1); }
  }

  lemma {:induction false} FillingLength(shapes: seq<Shape>)
    ensures |FillingAll(shapes)| == |shapes|
  {
    hide Filling;
    if shapes != [] { FillingLength(shapes[1..]); }
  }

  lemma {:induction false} FillingAllFacts(u: Alphabet, shapes: seq<Shape>)
    requires u.Valid()
    ensures FitsAll(FillingAll(shapes), shapes) && LeavesAll(u, FillingAll(shapes)) == Times(SlotsAll(shapes))
    ensures forall v | v in FillingAll(shapes) :: Rendered(u, v)
    decreases shapes
  {
    hide Filling, Fits, Leaves, Slots, Rendered, Times;
    if shapes == [] {
      NoTimes();
    } else {
      FillingFacts(u, shapes[0]);
      FillingAllFacts(u, shapes[1..]);
      FillingLength(shapes[1..]);
      TimesAdd(Slots(shapes[0]), SlotsAll(shapes[1..]));
      ConsFacts(Filling(shapes[0]), FillingAll(shapes[1..]));
    }
  }

  lemma NoTimes()
    ensures Times(0) == []
  {
  }

  lemma ConsFacts(v: Value, vs: seq<Value>)
    ensures ([v] + vs)[0] == v && ([v] + vs)[1..] == vs
    ensures forall x :: x in [v] + vs <==> x == v || x in vs
  {
  }

  lemma UnsafeShapeIsNotServed(u: Alphabet, s: Shape)
    requires u.Valid() && !OneSlotPerItem(s)
    ensures LeafCompacts(u, Filling(s)) != ColumnOf(u, Filling(s))
  {
    var item :| item in s.items && Slots(item) > 1;
    var k :| 0 <= k < |s.items| && s.items[k] == item;
    var n := Slots(item);
    FillingAllFacts(u, s.items);
    FillingFacts(u, item);
    JoinedTimes(u, n);
    JoinedInColumn(u, s.items, k, n);
    hide LeafCompacts, ColumnOf, CompactIdentifier, Leaves;
    LeavesAreLeafCompacts(u, Filling(s), Joined(Times(n)));
    FillingFacts(u, s);
    OnlyA(Slots(s), Joined(Times(n)));
  }

  lemma {:induction false} OnlyA(n: nat, w: string)
    ensures w in Times(n) ==> w == "a"
  {
    if n > 0 { OnlyA(n - 1, w); }
  }

  lemma JoinedInColumn(u: Alphabet, shapes: seq<Shape>, k: nat, n: nat)
    requires u.Valid() && k < |shapes| && Slots(shapes[k]) == n > 1
    ensures Joined(Times(n)) in ColumnOf(u, Filling(Row(shapes)))
  {
    FillingAt(shapes, k);
    FillingFacts(u, shapes[k]);
    ItemText(u, Filling(shapes[k]));
    JoinedTimes(u, n);
    hide CompactIdentifier, Filling, Leaves, Rendered, Fits;
    ColumnHolds(u, shapes, Filling(shapes[k]));
    assert FillingAll(shapes)[k] in FillingAll(shapes);
  }

  lemma ColumnHolds(u: Alphabet, shapes: seq<Shape>, item: Value)
    ensures item in FillingAll(shapes) && CompactIdentifier(u, item.Text()) != "" ==>
      CompactIdentifier(u, item.Text()) in ColumnOf(u, Filling(Row(shapes)))
  {
    hide CompactIdentifier;
  }

  /** The column serves a nesting shape, whatever identifiers fill it, exactly when each item of a hot
      list has place for at most one scalar. */
  lemma ShapeIsServedExactly(u: Alphabet, s: Shape)
    requires u.Valid()
    ensures OneSlotPerItem(s) <==> forall v | Fits(v, s) && Rendered(u, v) :: Served(u, OnlyField(v))
  {
    if OneSlotPerItem(s) {
      forall v | Fits(v, s) && Rendered(u, v) ensures Served(u, OnlyField(v)) {
        SafeShapeIsServed(u, v, s);
        OnlyFieldServed(u, v);
      }
    } else {
      UnsafeShapeIsNotServed(u, s);
      FillingFacts(u, s);
      OnlyFieldServed(u, Filling(s));
    }
  }

  // ----- The index beyond flat values -----

  /** Each item of a hot list holds at most one identifier-like leaf, however deep. */
  predicate OneLeafPerItem(u: Alphabet, v: Value) {
    v.Many? ==> forall item | item in v.items :: |Leaves(u, item)| <= 1
  }

  lemma OneLeafIsIndexed(u: Alphabet, v: Value)
    requires Rendered(u, v) && OneLeafPerItem(u, v)
    ensures LeafCompacts(u, v) == ColumnOf(u, v)
  {
    if v.Many? {
      hide CompactIdentifier, LeafCompacts, Leaves, ColumnOf;
      forall item | item in v.items ensures {CompactIdentifier(u, item.Text())} - {""} == LeafCompacts(u, item) {
        ItemIsIndexedExactly(u, item);
      }
      ItemsIndexed(u, v.items, v.text);
    } else {
      FlatLeaves(u, v);
    }
  }

  /** For extracted identifiers the index is the same predicate on all metadata whose hot values hold at
      most one identifier per list item. */
  lemma IndexIsExactBeyondFlat(u: Alphabet, m: Metadata, found: seq<string>)
    requires u.Valid() && forall v | v in HotValues(m) :: Rendered(u, v) && OneLeafPerItem(u, v)
    ensures var q := QueryIdentifiers(u, found);
      && MatchedIdentifierCompacts(u, m, q) == Compacts(q) * HotIdentifierCompacts(u, m)
      && (MetadataIdentifierMatches(u, m, q) <==> Compacts(q) * HotIdentifierCompacts(u, m) != {})
  {
    hide Rendered, OneLeafPerItem, HotValues, ItemCompacts, Items, LeafCompacts, ValueMatches;
    var q := QueryIdentifiers(u, found);
    QueryIdentifiersClosed(u, found);
    MatchedIsLeafIntersection(u, m, q);
    MatchesIffMatched(u, m, q);
    forall v | v in HotValues(m) ensures LeafCompacts(u, v) == ItemCompacts(u, Items(v)) { OneLeafIsIndexed(u, v); }
    SameColumn(u, m);
  }

  lemma SameColumn(u: Alphabet, m: Metadata)
    requires forall v | v in HotValues(m) :: LeafCompacts(u, v) == ItemCompacts(u, Items(v))
    ensures HotLeafCompacts(u, m) == HotIdentifierCompacts(u, m)
  {
    hide HotValues, LeafCompacts, ItemCompacts, Items;
  }
}
