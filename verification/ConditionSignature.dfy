/** Condition signatures: the normal form that they print, that it keeps the meaning of a condition,
    and what it means for two conditions to share a signature. */
module ConditionSignature {
  import opened Common
  import opened Json
  import opened CanonicalJson
  import opened ConditionMeaning

  /** `left.localeCompare(right)`, whatever the host's collation is. */
  type Collation = (Units, Units) -> int

  // ----- Sorting items by their text ---------------------------------------

  function Place(item: Json, items: seq<Json>, collate: Collation): seq<Json> {
    if items == [] || collate(Print(item), Print(items[0])) <= 0 then [item] + items
    else [items[0]] + Place(item, items[1..], collate)
  }

  function Arrange(items: seq<Json>, collate: Collation): seq<Json> {
    if items == [] then [] else Place(items[0], Arrange(items[1..], collate), collate)
  }

  lemma {:induction false} PlaceKeeps(item: Json, items: seq<Json>, collate: Collation)
    ensures multiset(Place(item, items, collate)) == multiset([item] + items)
  {
    hide Print;
    if items != [] && collate(Print(item), Print(items[0])) > 0 {
      PlaceKeeps(item, items[1..], collate);
      assert items == [items[0]] + items[1..];
    }
  }

  /** Whatever the collation, sorting only reorders the items. */
  lemma {:induction false} ArrangePermutes(items: seq<Json>, collate: Collation)
    ensures multiset(Arrange(items, collate)) == multiset(items)
    ensures forall x :: x in Arrange(items, collate) <==> x in items
  {
    if items != [] {
      ArrangePermutes(items[1..], collate);
      PlaceKeeps(items[0], Arrange(items[1..], collate), collate);
      assert items == [items[0]] + items[1..];
    }
    SameMembers(Arrange(items, collate), items);
  }

  lemma SameMembers(a: seq<Json>, b: seq<Json>)
    requires multiset(a) == multiset(b)
    ensures forall x :: x in a <==> x in b
  {
    forall x
      ensures x in a <==> x in b
    {
      assert x in a <==> x in multiset(a);
      assert x in b <==> x in multiset(b);
    }
  }

  // ----- The normal form ---------------------------------------------------

  /** `normalizeConditionForSignature` */
  function Normal(j: Json, collate: Collation): Json
    decreases j, 0
  {
    match j
    case Arr(items) => Arr(Arrange(NormalItems(items, collate), collate))
    case Obj(fields) => Obj(Sort(NormalFields(fields, collate)))
    case _ => j
  }

  function NormalItems(items: seq<Json>, collate: Collation): (r: seq<Json>)
    ensures |r| == |items| && forall i :: 0 <= i < |r| ==> r[i] == Normal(items[i], collate)
    decreases items, 1
  {
    if items == [] then [] else [Normal(items[0], collate)] + NormalItems(items[1..], collate)
  }

  function NormalFields(fields: seq<Field>, collate: Collation): (r: seq<Field>)
    ensures |r| == |fields|
    ensures forall i :: 0 <= i < |r| ==> r[i] == Field(fields[i].key, Normal(fields[i].value, collate))
    decreases fields, 1
  {
    if fields == [] then []
    else
      var first := fields[0];
      [Field(first.key, Normal(first.value, collate))] + NormalFields(fields[1..], collate)
  }

  /** `stableConditionSignature` */
  function Signature(j: Json, collate: Collation): Units {
    Print(Normal(j, collate))
  }

  lemma {:induction false} NormalValid(j: Json, collate: Collation)
    requires Valid(j)
    ensures Valid(Normal(j, collate))
  {
    match j
    case Arr(items) =>
      forall i | 0 <= i < |items|
        ensures Valid(NormalItems(items, collate)[i])
      {
        NormalValid(items[i], collate);
      }
      ArrangePermutes(NormalItems(items, collate), collate);
      AllValid(Arrange(NormalItems(items, collate), collate), NormalItems(items, collate));
    case Obj(fields) =>
      var normal := NormalFields(fields, collate);
      forall i | 0 <= i < |fields|
        ensures Valid(normal[i].value)
      {
        NormalValid(fields[i].value, collate);
      }
      SortSorts(normal);
      SortDistinct(normal);
      forall i | 0 <= i < |Sort(normal)|
        ensures Valid(Sort(normal)[i].value)
      {
        assert Sort(normal)[i] in normal;
      }
    case _ =>
  }

  lemma AllValid(a: seq<Json>, b: seq<Json>)
    requires (forall x :: x in a ==> x in b) && forall i :: 0 <= i < |b| ==> Valid(b[i])
    ensures forall i :: 0 <= i < |a| ==> Valid(a[i])
  {
    forall i | 0 <= i < |a|
      ensures Valid(a[i])
    {
      assert a[i] in b;
    }
  }

  // ----- Key order does not matter -----------------------------------------

  lemma {:induction false} SortOfSorted(fs: seq<Field>)
    requires Sorted(fs)
    ensures Sort(fs) == fs
  {
    if fs != [] {
      SortOfSorted(fs[1..]);
      assert fs == [fs[0]] + fs[1..];
      if |fs| > 1 { assert Upto(fs[0].key, fs[1].key); }
    }
  }

  lemma {:induction false} InsertNormal(f: Field, fs: seq<Field>, collate: Collation)
    ensures NormalFields(Insert(f, fs), collate) == Insert(Field(f.key, Normal(f.value, collate)), NormalFields(fs, collate))
  {
    hide Normal, Upto;
    var done := NormalFields(Insert(f, fs), collate);
    if fs != [] && !Upto(f.key, fs[0].key) {
      InsertNormal(f, fs[1..], collate);
      assert Insert(f, fs)[1..] == Insert(f, fs[1..]);
    } else {
      assert Insert(f, fs)[1..] == fs;
    }
  }

  /** Normalising the values and sorting the keys can be done in either order. */
  lemma {:induction false} SortNormal(fs: seq<Field>, collate: Collation)
    ensures NormalFields(Sort(fs), collate) == Sort(NormalFields(fs, collate))
  {
    hide Normal, Upto, Insert;
    if fs != [] {
      SortNormal(fs[1..], collate);
      InsertNormal(fs[0], Sort(fs[1..]), collate);
    }
  }

  lemma {:induction false} NormalOfCanon(j: Json, collate: Collation)
    ensures Normal(Canon(j), collate) == Normal(j, collate)
  {
    match j
    case Arr(items) =>
      forall i | 0 <= i < |items|
        ensures Normal(CanonItems(items)[i], collate) == Normal(items[i], collate)
      {
        NormalOfCanon(items[i], collate);
      }
      assert NormalItems(CanonItems(items), collate) == NormalItems(items, collate);
    case Obj(fields) =>
      forall i | 0 <= i < |fields|
        ensures Normal(CanonFields(fields)[i].value, collate) == Normal(fields[i].value, collate)
      {
        NormalOfCanon(fields[i].value, collate);
      }
      var normal := NormalFields(fields, collate);
      assert NormalFields(CanonFields(fields), collate) == normal;
      SortNormal(CanonFields(fields), collate);
      SortSorts(normal);
      SortOfSorted(Sort(normal));
    case _ =>
  }

  /** Conditions that differ only in the order of keys share a signature. */
  lemma SignatureIgnoresKeyOrder(a: Json, b: Json, collate: Collation)
    requires Valid(a) && Valid(b) && Same(a, b)
    ensures Signature(a, collate) == Signature(b, collate)
  {
    SameIffCanonEqual(a, b);
    NormalOfCanon(a, collate);
    NormalOfCanon(b, collate);
  }

  // ----- The normal form keeps the meaning ---------------------------------

  /** Normalising would not reorder the operand. */
  predicate Settled(v: Option<Json>, collate: Collation) {
    IsArr(v) ==> Normal(v.value, collate) == v.value
  }

  /** An array is the parts of a group, the literal of a leaf whose operator does not read its text, a
      literal with the text of its normal form, or in the order of its normal form already. */
  predicate OrderFree(j: Json, collate: Collation)
    decreases j
  {
    match ShapeOf(j)
    case Always => true
    case All(items) => forall x :: x in items ==> OrderFree(x, collate)
    case Any(items) => forall x :: x in items ==> OrderFree(x, collate)
    case Not(part) => OrderFree(part, collate)
    case Expression(text) => Settled(Some(text), collate)
    case Plain => OrderFreeLeaf(j, collate)
  }

  function NormalMaybe(v: Option<Json>, collate: Collation): Option<Json> {
    if v.None? then None else Some(Normal(v.value, collate))
  }

  predicate OrderFreeLeaf(j: Json, collate: Collation) {
    var op, other := OperatorOf(Prop(Some(j), Text("operator"))), Prop(Some(j), Text("value_source"));
    && Settled(Prop(Some(j), Text("key")), collate) && Settled(Prop(other, Text("key")), collate)
    && (Truthy(other) || OrderFreeLiteral(op, Prop(Some(j), Text("value")), collate))
  }

  /** The operator does not read the text of its literal, or normalising keeps that text. */
  predicate OrderFreeLiteral(op: Option<Operator>, literal: Option<Json>, collate: Collation) {
    op.Some? && ReadsText(op.value) ==> MaybeText(NormalMaybe(literal, collate)) == MaybeText(literal)
  }

  lemma NormalMembers(fields: seq<Field>, key: Units, v: Json, collate: Collation)
    ensures Field(key, v) in fields ==> Field(key, Normal(v, collate)) in NormalFields(fields, collate)
  {
    hide Normal;
    if Field(key, v) in fields {
      var i :| 0 <= i < |fields| && fields[i] == Field(key, v);
      assert NormalFields(fields, collate)[i] == Field(key, Normal(v, collate));
    }
  }

  lemma {:induction false} LookupNone(fields: seq<Field>, key: Units)
    ensures Lookup(fields, key).None? <==> !HasKey(fields, key)
  {
    if fields != [] {
      if fields[0].key == key {
      } else {
        LookupNone(fields[1..], key);
        assert forall i :: 0 < i < |fields| ==> fields[i] == fields[1..][i - 1];
        assert HasKey(fields[1..], key) ==> HasKey(fields, key);
        if HasKey(fields, key) {
          var i :| 0 <= i < |fields| && fields[i].key == key;
          assert fields[1..][i - 1].key == key;
        }
      }
    }
  }

  lemma SortKeys(fields: seq<Field>, key: Units, collate: Collation)
    ensures HasKey(Sort(NormalFields(fields, collate)), key) <==> HasKey(fields, key)
  {
    hide Normal, Sort;
    var normal := NormalFields(fields, collate);
    SortSorts(normal);
    if HasKey(fields, key) {
      var i :| 0 <= i < |fields| && fields[i].key == key;
      assert normal[i].key == key && normal[i] in Sort(normal);
      var k :| 0 <= k < |Sort(normal)| && Sort(normal)[k] == normal[i];
    }
    if HasKey(Sort(normal), key) {
      var k :| 0 <= k < |Sort(normal)| && Sort(normal)[k].key == key;
      assert Sort(normal)[k] in normal;
      var i :| 0 <= i < |normal| && normal[i] == Sort(normal)[k];
      assert fields[i].key == key;
    }
  }

  lemma LookupNormal(fields: seq<Field>, key: Units, collate: Collation)
    requires DistinctKeys(fields)
    ensures Lookup(Sort(NormalFields(fields, collate)), key) == NormalMaybe(Lookup(fields, key), collate)
  {
    hide Normal, Sort, Lookup, HasKey;
    var normal := NormalFields(fields, collate);
    SortSorts(normal);
    SortDistinct(normal);
    LookupNone(fields, key);
    LookupNone(Sort(normal), key);
    SortKeys(fields, key, collate);
    var found := Lookup(fields, key);
    if found.Some? {
      NormalMembers(fields, key, found.value, collate);
      LookupIff(Sort(normal), key, Normal(found.value, collate));
    }
  }

  /** Reading a property of the normal form is normalising what the original holds there. */
  lemma PropNormal(v: Option<Json>, key: Units, collate: Collation)
    requires v.Some? ==> Valid(v.value)
    ensures Prop(NormalMaybe(v, collate), key) == NormalMaybe(Prop(v, key), collate)
    ensures Prop(v, key).Some? ==> Valid(Prop(v, key).value)
  {
    if v.Some? && v.value.Obj? {
      LookupNormal(v.value.fields, key, collate);
      var found := Lookup(v.value.fields, key);
      if found.Some? {
        var i :| 0 <= i < |v.value.fields| && v.value.fields[i] == Field(key, found.value);
      }
    }
  }

  lemma KindsKept(v: Option<Json>, collate: Collation)
    ensures Truthy(NormalMaybe(v, collate)) == Truthy(v) && IsArr(NormalMaybe(v, collate)) == IsArr(v)
    ensures v.None? || (!v.value.Arr? && !v.value.Obj?) ==> NormalMaybe(v, collate) == v
    ensures v.Some? && (v.value.Arr? || v.value.Obj?) ==> !Normal(v.value, collate).Str?
    ensures IsArr(v) ==> Normal(v.value, collate) == Arr(Arrange(NormalItems(v.value.items, collate), collate))
  {
  }

  lemma ItemsValid(v: Option<Json>)
    requires IsArr(v) && Valid(v.value)
    ensures forall x :: x in v.value.items ==> Valid(x)
  {
  }

  lemma NamesKept(v: Option<Json>, s: string, collate: Collation)
    ensures IsName(NormalMaybe(v, collate), s) == IsName(v, s)
  {
    hide Text;
  }

  lemma SeenKept(v: Option<Json>, collate: Collation)
    requires Settled(v, collate)
    ensures Seen(NormalMaybe(v, collate)) == Seen(v)
  {
    if v.Some? && v.value.Obj? {
      var fields := v.value.fields;
      var sorted := Sort(NormalFields(fields, collate));
      KeySetsAgree(fields, sorted, collate);
      assert NormalMaybe(v, collate) == Some(Obj(sorted));
    }
  }

  lemma KeySetsAgree(fields: seq<Field>, sorted: seq<Field>, collate: Collation)
    requires sorted == Sort(NormalFields(fields, collate))
    ensures (set f | f in sorted :: f.key) == (set f | f in fields :: f.key)
  {
    hide Normal, Sort;
    var a, b := (set f | f in sorted :: f.key), (set f | f in fields :: f.key);
    forall key
      ensures key in a <==> key in b
    {
      SortKeys(fields, key, collate);
      assert key in a <==> HasKey(sorted, key);
      assert key in b <==> HasKey(fields, key);
    }
  }

  lemma SourcesKept(c: Option<Json>, env: Env, collate: Collation)
    requires c.Some? ==> Valid(c.value)
    requires Settled(Prop(c, Text("key")), collate)
    ensures ReadSource(NormalMaybe(c, collate), env) == ReadSource(c, env)
  {
    hide Text, Prop, Seen, NormalMaybe, Settled;
    var source := Prop(c, Text("source"));
    PropNormal(c, Text("source"), collate);
    PropNormal(c, Text("key"), collate);
    SourceNameKept(source, collate);
    SeenKept(Prop(c, Text("key")), collate);
  }

  lemma SourceNameKept(source: Option<Json>, collate: Collation)
    ensures KnownSource(NormalMaybe(source, collate)) == KnownSource(source)
    ensures KnownSource(source) ==> NormalMaybe(source, collate) == source
  {
    hide Text, NormalMaybe;
    NamesKept(source, "attribute", collate);
    NamesKept(source, "segment", collate);
    NamesKept(source, "context", collate);
    NamesKept(source, "score", collate);
    KindsKept(source, collate);
  }

  /** An operator that is known is a name, so it is its own normal form; one that is not stays unknown. */
  lemma OperatorKept(op: Option<Json>, collate: Collation)
    ensures OperatorOf(NormalMaybe(op, collate)) == OperatorOf(op)
  {
    hide Text, NormalMaybe;
    KindsKept(op, collate);
    if op.Some? && (op.value.Arr? || op.value.Obj?) { NotAName(op, collate); }
  }

  lemma NotAName(op: Option<Json>, collate: Collation)
    requires op.Some? && (op.value.Arr? || op.value.Obj?)
    ensures OperatorOf(op).None? && OperatorOf(NormalMaybe(op, collate)).None?
  {
    hide Text;
  }

  lemma IncludesKept(items: seq<Json>, value: Option<Json>, collate: Collation)
    ensures Includes(Arrange(NormalItems(items, collate), collate), value) == Includes(items, value)
  {
    hide Arrange;
    var normal := NormalItems(items, collate);
    ArrangePermutes(normal, collate);
    if Includes(items, value) {
      var j :| j in items && Identical(value, Some(j));
      var i :| 0 <= i < |items| && items[i] == j;
      assert normal[i] == j && j in Arrange(normal, collate);
    }
    if Includes(Arrange(normal, collate), value) {
      var j :| j in Arrange(normal, collate) && Identical(value, Some(j));
      var i :| 0 <= i < |normal| && normal[i] == j;
      assert items[i] == j;
    }
  }

  // ----- Texts and numerals of the normal form -----------------------------

  /** Both texts are missing, both have a comma, or they are the same. */
  predicate CloseTexts(a: Option<Units>, b: Option<Units>) {
    a == b || (a.Some? && b.Some? && COMMA in a.value && COMMA in b.value)
  }

  predicate AllTexts(items: seq<Json>) {
    forall x :: x in items ==> ItemText(x).Some?
  }

  lemma {:induction false} JoinedWhen(items: seq<Json>)
    ensures Joined(items).Some? <==> AllTexts(items)
    ensures Joined(items).Some? && 2 <= |items| ==> COMMA in Joined(items).value
  {
    hide ItemText;
    if 2 <= |items| {
      JoinedWhen(items[1..]);
      assert items == [items[0]] + items[1..];
    }
  }

  /** Reordering a list moves the parts between its commas; without commas there is nothing to move. */
  lemma {:induction false} NormalText(j: Json, collate: Collation)
    ensures CloseTexts(TextOf(Normal(j, collate)), TextOf(j))
  {
    match j
    case Arr(items) =>
      forall i | 0 <= i < |items|
        ensures CloseTexts(ItemText(Normal(items[i], collate)), ItemText(items[i]))
      {
        NormalText(items[i], collate);
      }
      NormalJoined(items, collate);
    case Obj(fields) =>
      SortKeys(fields, Text("toString"), collate);
      LookupNone(fields, Text("toString"));
      LookupNone(Sort(NormalFields(fields, collate)), Text("toString"));
      hide Text;
    case _ =>
  }

  lemma NormalJoined(items: seq<Json>, collate: Collation)
    requires forall i :: 0 <= i < |items| ==> CloseTexts(ItemText(Normal(items[i], collate)), ItemText(items[i]))
    ensures CloseTexts(Joined(Arrange(NormalItems(items, collate), collate)), Joined(items))
  {
    hide Normal, ItemText, Arrange;
    var normal := NormalItems(items, collate);
    var arranged := Arrange(normal, collate);
    ArrangePermutes(normal, collate);
    assert |arranged| == |multiset(arranged)| == |multiset(normal)| == |items|;
    if |items| <= 1 {
      FewArranged(normal, collate);
    } else {
      JoinedWhen(items);
      JoinedWhen(arranged);
      forall i | 0 <= i < |items|
        ensures ItemText(normal[i]).Some? == ItemText(items[i]).Some?
      {
        assert CloseTexts(ItemText(Normal(items[i], collate)), ItemText(items[i]));
      }
      TextsOfItems(items, normal, arranged);
    }
  }

  lemma FewArranged(items: seq<Json>, collate: Collation)
    requires |items| <= 1
    ensures Arrange(items, collate) == items
  {
    hide Print;
  }

  lemma TextsOfItems(items: seq<Json>, normal: seq<Json>, arranged: seq<Json>)
    requires |normal| == |items| && forall x :: x in arranged <==> x in normal
    requires forall i :: 0 <= i < |items| ==> ItemText(normal[i]).Some? == ItemText(items[i]).Some?
    ensures AllTexts(arranged) <==> AllTexts(items)
  {
    hide ItemText;
    if AllTexts(items) {
      forall x | x in arranged
        ensures ItemText(x).Some?
      {
        var i :| 0 <= i < |normal| && normal[i] == x;
        assert items[i] in items;
      }
    }
    if AllTexts(arranged) {
      forall x | x in items
        ensures ItemText(x).Some?
      {
        var i :| 0 <= i < |items| && items[i] == x;
        assert normal[i] in arranged;
      }
    }
  }

  /** Numeric operators do not see the order of a list: two items or more are no number in any order. */
  lemma NumeralKept(v: Option<Json>, collate: Collation)
    ensures NumeralOf(NormalMaybe(v, collate)) == NumeralOf(v)
  {
    if v.Some? { NormalText(v.value, collate); }
    KindsKept(v, collate);
    hide Normal, TextOf;
  }

  // ----- Leaves of the normal form -----------------------------------------

  lemma IdenticalKept(actual: Option<Json>, literal: Option<Json>, collate: Collation)
    ensures Identical(actual, NormalMaybe(literal, collate)) == Identical(actual, literal)
  {
  }

  lemma IncludedKept(items: seq<Json>, literal: Option<Json>, collate: Collation)
    ensures Includes(items, NormalMaybe(literal, collate)) == Includes(items, literal)
  {
    hide NormalMaybe;
    forall j
      ensures Identical(NormalMaybe(literal, collate), Some(j)) == Identical(literal, Some(j))
    {
      IdenticalKept(Some(j), literal, collate);
    }
  }

  lemma LiteralKept(op: Operator, actual: Option<Json>, literal: Option<Json>, env: Env, collate: Collation)
    requires OrderFreeLiteral(Some(op), literal, collate)
    ensures CompareLiteral(op, actual, NormalMaybe(literal, collate), env) == CompareLiteral(op, actual, literal, env)
  {
    KindsKept(literal, collate);
    IdenticalKept(actual, literal, collate);
    NumeralKept(literal, collate);
    if IsArr(literal) { IncludesKept(literal.value.items, actual, collate); }
    if IsArr(actual) { IncludedKept(actual.value.items, literal, collate); }
    hide Includes, Identical, Normal, Arrange, NumeralOf, MaybeText, ActualText, Substring;
  }

  lemma LeafKept(j: Json, env: Env, collate: Collation)
    requires Valid(j) && OrderFreeLeaf(j, collate)
    ensures Leaf(Normal(j, collate), env) == Leaf(j, env)
  {
    hide Text, Prop, Normal, ReadSource, OperatorOf, CompareLiteral, OrderFreeLiteral, Settled, Valid;
    var c := Some(j);
    var op, other := Prop(c, Text("operator")), Prop(c, Text("value_source"));
    PropNormal(c, Text("operator"), collate);
    PropNormal(c, Text("value_source"), collate);
    PropNormal(c, Text("value"), collate);
    SourcesKept(c, env, collate);
    SourcesKept(other, env, collate);
    KindsKept(other, collate);
    OperatorKept(op, collate);
    var reading := ReadSource(c, env);
    if !Truthy(other) && reading.Got? && OperatorOf(op).Some? {
      LiteralKept(OperatorOf(op).value, reading.value, Prop(c, Text("value")), env, collate);
    }
  }

  function NormalShape(s: Shape, collate: Collation): Shape {
    match s
    case All(items) => All(Arrange(NormalItems(items, collate), collate))
    case Any(items) => Any(Arrange(NormalItems(items, collate), collate))
    case Not(part) => Not(Normal(part, collate))
    case Expression(text) => Expression(Normal(text, collate))
    case _ => s
  }

  lemma ShapeKept(j: Json, collate: Collation)
    requires Valid(j)
    ensures ShapeOf(Normal(j, collate)) == NormalShape(ShapeOf(j), collate)
  {
    hide Text, Prop, Arrange, Normal;
    var c := Some(j);
    KindsKept(c, collate);
    PropNormal(c, Text("all"), collate);
    PropNormal(c, Text("any"), collate);
    PropNormal(c, Text("not"), collate);
    PropNormal(c, Text("expression"), collate);
    KindsKept(Prop(c, Text("all")), collate);
    KindsKept(Prop(c, Text("any")), collate);
    KindsKept(Prop(c, Text("not")), collate);
    KindsKept(Prop(c, Text("expression")), collate);
  }

  /** The parts of a valid condition are valid. */
  predicate ValidParts(s: Shape) {
    match s
    case All(items) => forall x :: x in items ==> Valid(x)
    case Any(items) => forall x :: x in items ==> Valid(x)
    case Not(part) => Valid(part)
    case Expression(text) => Valid(text)
    case _ => true
  }

  lemma PartsValid(j: Json, collate: Collation)
    requires Valid(j)
    ensures ValidParts(ShapeOf(j))
  {
    hide Text, Prop;
    var c := Some(j);
    PropNormal(c, Text("all"), collate);
    PropNormal(c, Text("any"), collate);
    PropNormal(c, Text("not"), collate);
    PropNormal(c, Text("expression"), collate);
    if IsArr(Prop(c, Text("all"))) { ItemsValid(Prop(c, Text("all"))); }
    if IsArr(Prop(c, Text("any"))) { ItemsValid(Prop(c, Text("any"))); }
  }

  /** Every part of the normal form is the normal form of a part, and the other way round. */
  lemma ArrangedParts(items: seq<Json>, collate: Collation)
    ensures forall x :: x in items ==> Normal(x, collate) in Arrange(NormalItems(items, collate), collate)
    ensures forall y :: y in Arrange(NormalItems(items, collate), collate) ==>
              exists x :: x in items && y == Normal(x, collate)
  {
    hide Normal, Arrange;
    var normal := NormalItems(items, collate);
    ArrangePermutes(normal, collate);
    forall x | x in items
      ensures Normal(x, collate) in Arrange(normal, collate)
    {
      var i :| 0 <= i < |items| && items[i] == x;
      assert normal[i] == Normal(x, collate);
    }
    forall y | y in Arrange(normal, collate)
      ensures exists x :: x in items && y == Normal(x, collate)
    {
      var i :| 0 <= i < |normal| && normal[i] == y;
      assert items[i] in items;
    }
  }

  /** The normal form of a condition has the truth value of the condition, in every environment. */
  lemma {:induction false} NormalKeepsTruth(j: Json, env: Env, collate: Collation)
    requires Valid(j) && OrderFree(j, collate)
    ensures Truth(Normal(j, collate), env) == Truth(j, env)
    decreases j
  {
    ShapeKept(j, collate);
    PartsValid(j, collate);
    hide ShapeOf, Leaf, Normal, Arrange, Valid, OrderFreeLeaf, Settled;
    match ShapeOf(j)
    case All(items) =>
      forall x | x in items
        ensures Truth(Normal(x, collate), env) == Truth(x, env)
      {
        NormalKeepsTruth(x, env, collate);
      }
      ArrangedParts(items, collate);
    case Any(items) =>
      forall x | x in items
        ensures Truth(Normal(x, collate), env) == Truth(x, env)
      {
        NormalKeepsTruth(x, env, collate);
      }
      ArrangedParts(items, collate);
    case Not(part) =>
      NormalKeepsTruth(part, env, collate);
    case Expression(text) =>
      SeenKept(Some(text), collate);
      assert NormalMaybe(Some(text), collate) == Some(Normal(text, collate));
    case Plain =>
      LeafKept(j, env, collate);
    case Always =>
  }

  /** A condition none of whose leaves throws has such a normal form, and the other way round. */
  lemma {:induction false} NormalKeepsSafety(j: Json, env: Env, collate: Collation)
    requires Valid(j) && OrderFree(j, collate)
    ensures Safe(Normal(j, collate), env) <==> Safe(j, env)
    decreases j
  {
    ShapeKept(j, collate);
    PartsValid(j, collate);
    hide ShapeOf, Leaf, Normal, Arrange, Valid, OrderFreeLeaf, Settled;
    match ShapeOf(j)
    case All(items) =>
      forall x | x in items
        ensures Safe(Normal(x, collate), env) == Safe(x, env)
      {
        NormalKeepsSafety(x, env, collate);
      }
      ArrangedParts(items, collate);
    case Any(items) =>
      forall x | x in items
        ensures Safe(Normal(x, collate), env) == Safe(x, env)
      {
        NormalKeepsSafety(x, env, collate);
      }
      ArrangedParts(items, collate);
    case Not(part) =>
      NormalKeepsSafety(part, env, collate);
    case Expression(text) =>
      SeenKept(Some(text), collate);
      assert NormalMaybe(Some(text), collate) == Some(Normal(text, collate));
    case Plain =>
      LeafKept(j, env, collate);
    case Always =>
  }

  /** Evaluating the normal form gives the same answer, unless one of the two throws; when no leaf
      throws, neither does. */
  lemma NormalKeepsMeaning(j: Json, env: Env, collate: Collation)
    requires Valid(j) && OrderFree(j, collate)
    ensures Evaluate(j, env).Value? && Evaluate(Normal(j, collate), env).Value? ==>
              Evaluate(j, env) == Evaluate(Normal(j, collate), env)
    ensures Safe(j, env) ==> Evaluate(j, env).Value? && Evaluate(Normal(j, collate), env).Value?
  {
    hide Evaluate, Truth, Safe, Normal;
    NormalKeepsTruth(j, env, collate);
    AnswersAreTruth(j, env);
    AnswersAreTruth(Normal(j, collate), env);
    if Safe(j, env) {
      NormalKeepsSafety(j, env, collate);
      SafeAnswers(j, env);
      SafeAnswers(Normal(j, collate), env);
    }
  }

  /** Conditions with one signature select the same audience: they have the same order-insensitive truth
      value in every environment, give the same answer wherever both give one, and where no leaf of one
      throws both do give one. */
  lemma SharedSignatureSameAudience(a: Json, b: Json, env: Env, collate: Collation)
    requires Valid(a) && Valid(b) && OrderFree(a, collate) && OrderFree(b, collate)
    requires Signature(a, collate) == Signature(b, collate)
    ensures Normal(a, collate) == Normal(b, collate)
    ensures Truth(a, env) == Truth(b, env)
    ensures Evaluate(a, env).Value? && Evaluate(b, env).Value? ==> Evaluate(a, env) == Evaluate(b, env)
    ensures Safe(a, env) || Safe(b, env) ==> Evaluate(a, env).Value? && Evaluate(a, env) == Evaluate(b, env)
  {
    hide Evaluate, Truth, Normal, Safe;
    NormalValid(a, collate);
    NormalValid(b, collate);
    PrintInjective(Normal(a, collate), Normal(b, collate));
    NormalKeepsTruth(a, env, collate);
    NormalKeepsTruth(b, env, collate);
    AnswersAreTruth(a, env);
    AnswersAreTruth(b, env);
    NormalKeepsSafety(a, env, collate);
    NormalKeepsSafety(b, env, collate);
    if Safe(a, env) || Safe(b, env) {
      SafeAnswers(a, env);
      SafeAnswers(b, env);
    }
  }

  /** Arrays are parts of groups, or literals of leaves that do not read their text; a condition the
      author can read off without knowing the collation. */
  predicate ArraysOnlyInLists(j: Json)
    decreases j
  {
    match ShapeOf(j)
    case Always => true
    case All(items) => forall x :: x in items ==> ArraysOnlyInLists(x)
    case Any(items) => forall x :: x in items ==> ArraysOnlyInLists(x)
    case Not(part) => ArraysOnlyInLists(part)
    case Expression(text) => !text.Arr?
    case Plain => ArrayOnlyInList(j)
  }

  predicate ArrayOnlyInList(j: Json) {
    var op, other := OperatorOf(Prop(Some(j), Text("operator"))), Prop(Some(j), Text("value_source"));
    && !IsArr(Prop(Some(j), Text("key"))) && !IsArr(Prop(other, Text("key")))
    && (IsArr(Prop(Some(j), Text("value"))) ==> Truthy(other) || op.None? || !ReadsText(op.value))
  }

  lemma {:induction false} ArraysOnlyInListsSuffice(j: Json, collate: Collation)
    requires ArraysOnlyInLists(j)
    ensures OrderFree(j, collate)
    decreases j
  {
    hide ShapeOf, ArrayOnlyInList, OrderFreeLeaf;
    match ShapeOf(j)
    case All(items) =>
      forall x | x in items
        ensures OrderFree(x, collate)
      {
        ArraysOnlyInListsSuffice(x, collate);
      }
    case Any(items) =>
      forall x | x in items
        ensures OrderFree(x, collate)
      {
        ArraysOnlyInListsSuffice(x, collate);
      }
    case Not(part) => ArraysOnlyInListsSuffice(part, collate);
    case Plain => ArrayOnlyInListSuffices(j, collate);
    case _ =>
  }

  lemma ArrayOnlyInListSuffices(j: Json, collate: Collation)
    requires ArrayOnlyInList(j)
    ensures OrderFreeLeaf(j, collate)
  {
    hide Text, Prop, OperatorOf, Normal;
    if !IsArr(Prop(Some(j), Text("value"))) { ObjectText(Prop(Some(j), Text("value")), collate); }
  }

  lemma ObjectText(v: Option<Json>, collate: Collation)
    requires !IsArr(v)
    ensures MaybeText(NormalMaybe(v, collate)) == MaybeText(v)
  {
    if v.Some? && v.value.Obj? {
      SortKeys(v.value.fields, Text("toString"), collate);
      LookupNone(v.value.fields, Text("toString"));
      LookupNone(Sort(NormalFields(v.value.fields, collate)), Text("toString"));
      hide Text;
    }
  }

  // ----- Where the order of a literal list matters -------------------------

  /** A leaf that compares what it reads with a literal. */
  predicate ComparesLiteral(j: Json) {
    && KnownSource(Prop(Some(j), Text("source"))) && !IsArr(Prop(Some(j), Text("key")))
    && KnownOperator(Prop(Some(j), Text("operator"))) && !Truthy(Prop(Some(j), Text("value_source")))
  }

  /** Reads `actual` everywhere; the one pattern that matches and the one date that compares is `text`. */
  function Answering(actual: Option<Json>, text: Units): Env {
    Env((s, k) => Got(actual), (op, x, y) => Value(true), (op, x, n) => Value(true),
        (p, t) => Value(p == text), (op, x, t) => Value(t == text), v => Value(true))
  }

  lemma AnsweredLeaf(j: Json, actual: Option<Json>, text: Units)
    requires ComparesLiteral(j)
    ensures Leaf(j, Answering(actual, text)) ==
            CompareLiteral(OperatorOf(Prop(Some(j), Text("operator"))).value, actual, Prop(Some(j), Text("value")),
                           Answering(actual, text))
  {
    hide Text, Prop, Seen, OperatorOf, CompareLiteral;
  }

  lemma ComparesLiteralKept(j: Json, collate: Collation)
    requires Valid(j) && ComparesLiteral(j)
    ensures ComparesLiteral(Normal(j, collate))
    ensures OperatorOf(Prop(Some(Normal(j, collate)), Text("operator"))) == OperatorOf(Prop(Some(j), Text("operator")))
    ensures Prop(Some(Normal(j, collate)), Text("value")) == NormalMaybe(Prop(Some(j), Text("value")), collate)
  {
    hide Text, Prop, Normal, KnownSource, OperatorOf;
    var c := Some(j);
    PropNormal(c, Text("source"), collate);
    PropNormal(c, Text("key"), collate);
    PropNormal(c, Text("operator"), collate);
    PropNormal(c, Text("value"), collate);
    PropNormal(c, Text("value_source"), collate);
    SourceNameKept(Prop(c, Text("source")), collate);
    OperatorKept(Prop(c, Text("operator")), collate);
    KindsKept(Prop(c, Text("key")), collate);
    KindsKept(Prop(c, Text("value_source")), collate);
  }

  lemma SubstringSelf(t: Units)
    ensures Substring(t, t)
  {
    assert PartAt(t, t, 0);
  }

  lemma SubstringOne(a: Units, b: Units)
    requires Substring(a, b) && Substring(b, a)
    ensures a == b
  {
    var i :| 0 <= i <= |b| && PartAt(a, b, i);
    assert i == 0 && b[0..|a|] == b;
  }

  lemma TextContained(t: Units, literal: Option<Json>)
    ensures Containment(Some(Str(t)), literal) ==
            if MaybeText(literal).None? then Threw else Value(Substring(MaybeText(literal).value, t))
  {
    hide MaybeText, Substring;
  }

  /** The text that tells two literals apart: one of them is contained in it and the other not. */
  lemma TellingText(a: Option<Json>, b: Option<Json>) returns (t: Units)
    requires MaybeText(a).Some? && MaybeText(b).Some? && MaybeText(a) != MaybeText(b)
    ensures Containment(Some(Str(t)), a) != Containment(Some(Str(t)), b)
    ensures Containment(Some(Str(t)), a).Value? && Containment(Some(Str(t)), b).Value?
  {
    hide MaybeText, Substring, Containment;
    var x, y := MaybeText(a).value, MaybeText(b).value;
    SubstringSelf(x);
    SubstringSelf(y);
    if Substring(y, x) && Substring(x, y) { SubstringOne(x, y); }
    t := if Substring(y, x) then y else x;
    TextContained(t, a);
    TextContained(t, b);
  }

  /** `contains` sees the order of a literal list exactly when normalising changes the joined text: then
      some text that is read contains the one and not the other. */
  lemma ContainmentOrderIff(literal: Option<Json>, collate: Collation)
    ensures (forall actual :: Containment(actual, NormalMaybe(literal, collate)) == Containment(actual, literal)) <==>
              MaybeText(NormalMaybe(literal, collate)) == MaybeText(literal)
  {
    TextsClose(literal, collate);
    hide MaybeText, NormalMaybe, Containment;
    if MaybeText(NormalMaybe(literal, collate)) == MaybeText(literal) {
      forall actual
        ensures Containment(actual, NormalMaybe(literal, collate)) == Containment(actual, literal)
      {
        ContainmentKept(actual, literal, collate);
      }
    } else {
      var t := TellingText(NormalMaybe(literal, collate), literal);
    }
  }

  lemma TextsClose(literal: Option<Json>, collate: Collation)
    ensures CloseTexts(MaybeText(NormalMaybe(literal, collate)), MaybeText(literal))
  {
    if literal.Some? { NormalText(literal.value, collate); }
    hide TextOf, Normal;
  }

  lemma ContainmentKept(actual: Option<Json>, literal: Option<Json>, collate: Collation)
    requires MaybeText(NormalMaybe(literal, collate)) == MaybeText(literal)
    ensures Containment(actual, NormalMaybe(literal, collate)) == Containment(actual, literal)
  {
    if IsArr(actual) { IncludedKept(actual.value.items, literal, collate); }
    hide NormalMaybe, MaybeText, Includes;
  }

  /** A leaf that compares with a literal keeps its meaning in every environment exactly when the operator
      does not read the literal's text (equality, lists, blank tests, numbers) or normalising keeps that
      text; patterns and dates are left to the host. */
  lemma LiteralOrderIff(j: Json, collate: Collation)
    requires Valid(j) && ComparesLiteral(j)
    ensures (forall env :: Leaf(Normal(j, collate), env) == Leaf(j, env)) <==>
              OrderFreeLiteral(OperatorOf(Prop(Some(j), Text("operator"))), Prop(Some(j), Text("value")), collate)
  {
    hide Text, Prop, Normal, Leaf, OperatorOf;
    var op, literal := OperatorOf(Prop(Some(j), Text("operator"))), Prop(Some(j), Text("value"));
    if OrderFreeLiteral(op, literal, collate) {
      forall env
        ensures Leaf(Normal(j, collate), env) == Leaf(j, env)
      {
        NoOtherSource(j, collate);
        LeafKept(j, env, collate);
      }
    } else {
      TextsClose(literal, collate);
      var env := TellingEnv(j, collate);
      assert Leaf(Normal(j, collate), env) != Leaf(j, env);
    }
  }

  lemma TellingEnv(j: Json, collate: Collation) returns (env: Env)
    requires Valid(j) && ComparesLiteral(j)
    requires !OrderFreeLiteral(OperatorOf(Prop(Some(j), Text("operator"))), Prop(Some(j), Text("value")), collate)
    ensures Leaf(Normal(j, collate), env) != Leaf(j, env)
  {
    hide Text, Prop, Normal, NormalMaybe, Leaf, OperatorOf, MaybeText, Containment, ComparesLiteral, TextOf;
    var op, literal := OperatorOf(Prop(Some(j), Text("operator"))), Prop(Some(j), Text("value"));
    var normal := NormalMaybe(literal, collate);
    TextsClose(literal, collate);
    var t := TellingText(normal, literal);
    env := Answering(Some(Str(t)), MaybeText(literal).value);
    ComparesLiteralKept(j, collate);
    AnsweredLeaf(j, Some(Str(t)), MaybeText(literal).value);
    AnsweredLeaf(Normal(j, collate), Some(Str(t)), MaybeText(literal).value);
    StringHasText(t);
  }

  lemma StringHasText(t: Units)
    ensures ActualText(Some(Str(t))).Some?
  {
  }

  lemma NoOtherSource(j: Json, collate: Collation)
    requires ComparesLiteral(j)
    requires OrderFreeLiteral(OperatorOf(Prop(Some(j), Text("operator"))), Prop(Some(j), Text("value")), collate)
    ensures OrderFreeLeaf(j, collate)
  {
    hide Text, OrderFreeLiteral, OperatorOf;
    var other := Prop(Some(j), Text("value_source"));
    assert other.None? || !other.value.Obj?;
  }
}
