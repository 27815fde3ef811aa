/** When two conditions share a signature: only when they are equal up to the order of keys and of list
    items, and always then if the collation orders texts. */
module SignatureEquality {
  import opened Common
  import opened Json
  import opened CanonicalJson
  import opened ConditionSignature

  function Without(items: seq<Json>, j: nat): seq<Json>
    requires j < |items|
  {
    items[..j] + items[j + 1..]
  }

  /** Equal up to the order of keys and of items, defined without any sorting. */
  predicate Alike(a: Json, b: Json)
    decreases a, 0
  {
    match (a, b)
    case (Arr(x), Arr(y)) => AlikeItems(x, y)
    case (Obj(x), Obj(y)) =>
      && (forall j :: 0 <= j < |y| ==> HasKey(x, y[j].key))
      && (forall i :: 0 <= i < |x| ==> HasKey(y, x[i].key))
      && (forall i, j :: 0 <= i < |x| && 0 <= j < |y| && x[i].key == y[j].key ==> Alike(x[i].value, y[j].value))
    case _ => a == b
  }

  /** The items of one list can be paired off with those of the other. */
  predicate AlikeItems(x: seq<Json>, y: seq<Json>)
    decreases x, 1
  {
    if x == [] then y == []
    else exists j :: 0 <= j < |y| && Alike(x[0], y[j]) && AlikeItems(x[1..], Without(y, j))
  }

  /** The collation orders texts: two texts that sort together are the same. */
  ghost predicate Orders(collate: Collation) {
    && (forall s, t :: collate(s, t) <= 0 || collate(t, s) <= 0)
    && (forall s, t :: collate(s, t) <= 0 && collate(t, s) <= 0 ==> s == t)
    && (forall s, t, u :: collate(s, t) <= 0 && collate(t, u) <= 0 ==> collate(s, u) <= 0)
  }

  // ----- Sorted lists of the same items are the same -----------------------

  predicate Arranged(items: seq<Json>, collate: Collation) {
    forall i, j :: 0 <= i < j < |items| ==> collate(Print(items[i]), Print(items[j])) <= 0
  }

  lemma {:induction false} PlaceArranged(item: Json, items: seq<Json>, collate: Collation)
    requires Orders(collate) && Arranged(items, collate)
    ensures Arranged(Place(item, items, collate), collate)
  {
    hide Print;
    if items == [] {
    } else if collate(Print(item), Print(items[0])) <= 0 {
      forall j | 0 <= j < |items|
        ensures collate(Print(item), Print(items[j])) <= 0
      {
        if j > 0 { assert collate(Print(items[0]), Print(items[j])) <= 0; }
      }
    } else {
      PlaceArranged(item, items[1..], collate);
      var rest := Place(item, items[1..], collate);
      PlaceKeeps(item, items[1..], collate);
      forall j | 0 <= j < |rest|
        ensures collate(Print(items[0]), Print(rest[j])) <= 0
      {
        PlacedMember(item, items, rest, rest[j]);
      }
    }
  }

  lemma PlacedMember(item: Json, items: seq<Json>, rest: seq<Json>, x: Json)
    requires items != [] && multiset(rest) == multiset([item] + items[1..]) && x in rest
    ensures x == item || exists i :: 0 < i < |items| && items[i] == x
  {
    assert x in multiset(rest);
    assert x in [item] + items[1..];
    if x != item {
      var i :| 0 <= i < |items[1..]| && items[1..][i] == x;
      assert items[i + 1] == x;
    }
  }

  lemma {:induction false} ArrangeArranged(items: seq<Json>, collate: Collation)
    requires Orders(collate)
    ensures Arranged(Arrange(items, collate), collate)
  {
    hide Print;
    if items != [] {
      ArrangeArranged(items[1..], collate);
      PlaceArranged(items[0], Arrange(items[1..], collate), collate);
    }
  }

  predicate AllValid(items: seq<Json>) {
    forall i :: 0 <= i < |items| ==> Valid(items[i])
  }

  lemma {:induction false} ArrangedUnique(a: seq<Json>, b: seq<Json>, collate: Collation)
    requires Orders(collate) && Arranged(a, collate) && Arranged(b, collate)
    requires multiset(a) == multiset(b) && AllValid(a) && AllValid(b)
    ensures a == b
  {
    hide Print, Valid, Orders, Arranged, AllValid;
    assert |a| == |multiset(a)| == |multiset(b)| == |b|;
    if a != [] {
      FirstsAgree(a, b, collate);
      TailArranged(a, collate);
      TailArranged(b, collate);
      assert a == [a[0]] + a[1..] && b == [b[0]] + b[1..];
      ArrangedUnique(a[1..], b[1..], collate);
    }
  }

  lemma TailArranged(a: seq<Json>, collate: Collation)
    requires a != [] && Arranged(a, collate) && AllValid(a)
    ensures Arranged(a[1..], collate) && AllValid(a[1..]) && multiset(a[1..]) == multiset(a) - multiset{a[0]}
  {
    hide Print, Valid;
    assert a == [a[0]] + a[1..];
  }

  lemma FirstsAgree(a: seq<Json>, b: seq<Json>, collate: Collation)
    requires Orders(collate) && Arranged(a, collate) && Arranged(b, collate)
    requires a != [] && b != [] && multiset(a) == multiset(b) && AllValid(a) && AllValid(b)
    ensures a[0] == b[0]
  {
    hide Print, Valid;
    FirstIsLeast(a, b, collate);
    FirstIsLeast(b, a, collate);
    assert Print(a[0]) == Print(b[0]);
    PrintInjective(a[0], b[0]);
  }

  lemma FirstIsLeast(a: seq<Json>, b: seq<Json>, collate: Collation)
    requires Orders(collate) && Arranged(a, collate) && a != [] && b != [] && multiset(a) == multiset(b)
    ensures collate(Print(a[0]), Print(b[0])) <= 0
  {
    hide Print;
    assert b[0] in multiset(b);
    assert b[0] in a;
    var i :| 0 <= i < |a| && a[i] == b[0];
  }

  // ----- Pairing off items with the same normal form -----------------------

  lemma WithoutCounts(items: seq<Json>, j: nat)
    requires j < |items|
    ensures multiset(items) == multiset(Without(items, j)) + multiset{items[j]}
  {
    assert items == items[..j] + [items[j]] + items[j + 1..];
  }

  lemma WithoutAt(items: seq<Json>, j: nat, i: nat)
    requires j < |items| && i < |items| - 1
    ensures |Without(items, j)| == |items| - 1
    ensures Without(items, j)[i] == items[if i < j then i else i + 1]
  {
  }

  lemma NormalWithout(items: seq<Json>, j: nat, collate: Collation)
    requires j < |items|
    ensures NormalItems(Without(items, j), collate) == Without(NormalItems(items, collate), j)
  {
    hide Normal, Without;
    var normal := NormalItems(items, collate);
    WithoutLength(items, j);
    WithoutLength(normal, j);
    forall i | 0 <= i < |items| - 1
      ensures NormalItems(Without(items, j), collate)[i] == Without(normal, j)[i]
    {
      WithoutAt(items, j, i);
      WithoutAt(normal, j, i);
    }
  }

  lemma WithoutLength(items: seq<Json>, j: nat)
    requires j < |items|
    ensures |Without(items, j)| == |items| - 1
  {
  }

  lemma NormalCounts(items: seq<Json>, j: nat, collate: Collation)
    requires j < |items|
    ensures multiset(NormalItems(items, collate)) ==
            multiset(NormalItems(Without(items, j), collate)) + multiset{Normal(items[j], collate)}
  {
    hide Normal;
    NormalWithout(items, j, collate);
    WithoutCounts(NormalItems(items, collate), j);
  }

  lemma WithoutValid(items: seq<Json>, j: nat)
    requires j < |items| && AllValid(items)
    ensures AllValid(Without(items, j)) && Valid(items[j])
  {
    hide Valid;
  }

  /** Values with equal normal forms are alike, and the other way round when the collation orders texts. */
  lemma {:induction false} AlikeIffNormal(a: Json, b: Json, collate: Collation)
    requires Valid(a) && Valid(b)
    ensures Normal(a, collate) == Normal(b, collate) ==> Alike(a, b)
    ensures Orders(collate) && Alike(a, b) ==> Normal(a, collate) == Normal(b, collate)
    decreases a, 0
  {
    match (a, b)
    case (Arr(x), Arr(y)) =>
      AlikeItemsIff(x, y, collate);
      ArrangedIff(x, y, collate);
    case (Obj(x), Obj(y)) =>
      forall i, j | 0 <= i < |x| && 0 <= j < |y| && x[i].key == y[j].key
        ensures Implied(x[i].value, y[j].value, collate)
      {
        AlikeIffNormal(x[i].value, y[j].value, collate);
      }
      AlikeFields(x, y, collate);
    case _ =>
  }

  /** Equal normal forms mean alike, and with ordered texts alike means equal normal forms. */
  ghost predicate Implied(a: Json, b: Json, collate: Collation) {
    && (Normal(a, collate) == Normal(b, collate) ==> Alike(a, b))
    && (Orders(collate) && Alike(a, b) ==> Normal(a, collate) == Normal(b, collate))
  }

  /** Lists that sort to one list have the same items, counted, and the other way round when the
      collation orders texts. */
  lemma ArrangedIff(x: seq<Json>, y: seq<Json>, collate: Collation)
    requires Valid(Arr(x)) && Valid(Arr(y))
    ensures Normal(Arr(x), collate) == Normal(Arr(y), collate) ==>
              multiset(NormalItems(x, collate)) == multiset(NormalItems(y, collate))
    ensures Orders(collate) && multiset(NormalItems(x, collate)) == multiset(NormalItems(y, collate)) ==>
              Normal(Arr(x), collate) == Normal(Arr(y), collate)
  {
    var p, q := NormalItems(x, collate), NormalItems(y, collate);
    NormalValid(Arr(x), collate);
    NormalValid(Arr(y), collate);
    hide Arrange, Print;
    ArrangePermutes(p, collate);
    ArrangePermutes(q, collate);
    if Orders(collate) && multiset(p) == multiset(q) {
      ArrangeArranged(p, collate);
      ArrangeArranged(q, collate);
      ArrangedUnique(Arrange(p, collate), Arrange(q, collate), collate);
    }
  }

  /** Leaving out two items with one normal form keeps equal counts equal. */
  lemma CountsWithout(x: seq<Json>, y: seq<Json>, j: nat, collate: Collation)
    requires x != [] && j < |y| && Normal(x[0], collate) == Normal(y[j], collate)
    ensures multiset(NormalItems(x, collate)) == multiset(NormalItems(y, collate)) <==>
            multiset(NormalItems(x[1..], collate)) == multiset(NormalItems(Without(y, j), collate))
  {
    hide Normal, NormalItems, Without;
    NormalCounts(x, 0, collate);
    NormalCounts(y, j, collate);
    WithoutFirst(x);
    if multiset(NormalItems(x, collate)) == multiset(NormalItems(y, collate)) {
      SameRest(multiset(NormalItems(x[1..], collate)), multiset(NormalItems(Without(y, j), collate)), Normal(x[0], collate));
    }
  }

  lemma WithoutFirst(x: seq<Json>)
    requires x != []
    ensures Without(x, 0) == x[1..]
  {
  }

  lemma {:induction false} AlikeItemsIff(x: seq<Json>, y: seq<Json>, collate: Collation)
    requires AllValid(x) && AllValid(y)
    ensures multiset(NormalItems(x, collate)) == multiset(NormalItems(y, collate)) ==> AlikeItems(x, y)
    ensures Orders(collate) && AlikeItems(x, y) ==> multiset(NormalItems(x, collate)) == multiset(NormalItems(y, collate))
    decreases x, 1
  {
    hide Alike, Normal, Valid, Orders, Without;
    if x == [] {
      assert |multiset(NormalItems(x, collate))| == 0 && |multiset(NormalItems(y, collate))| == |y|;
    } else {
      if Orders(collate) && AlikeItems(x, y) {
        var j :| 0 <= j < |y| && Alike(x[0], y[j]) && AlikeItems(x[1..], Without(y, j));
        WithoutValid(y, j);
        AlikeIffNormal(x[0], y[j], collate);
        AlikeItemsIff(x[1..], Without(y, j), collate);
        CountsWithout(x, y, j, collate);
      }
      if multiset(NormalItems(x, collate)) == multiset(NormalItems(y, collate)) {
        var j := Partner(NormalItems(x, collate), NormalItems(y, collate));
        WithoutValid(y, j);
        AlikeIffNormal(x[0], y[j], collate);
        CountsWithout(x, y, j, collate);
        AlikeItemsIff(x[1..], Without(y, j), collate);
      }
    }
  }

  lemma Partner(p: seq<Json>, q: seq<Json>) returns (j: nat)
    requires p != [] && multiset(p) == multiset(q)
    ensures j < |q| && q[j] == p[0]
  {
    assert p[0] in multiset(q);
    j :| 0 <= j < |q| && q[j] == p[0];
  }

  lemma SameRest(a: multiset<Json>, b: multiset<Json>, x: Json)
    requires a + multiset{x} == b + multiset{x}
    ensures a == b
  {
    assert a == a + multiset{x} - multiset{x} && b == b + multiset{x} - multiset{x};
  }

  // ----- Objects -----------------------------------------------------------

  predicate ValuesNormal(x: seq<Field>, y: seq<Field>, collate: Collation) {
    forall i, j :: 0 <= i < |x| && 0 <= j < |y| && x[i].key == y[j].key ==>
      Normal(x[i].value, collate) == Normal(y[j].value, collate)
  }

  predicate KeysIn(x: seq<Field>, y: seq<Field>) {
    forall i :: 0 <= i < |x| ==> HasKey(y, x[i].key)
  }

  lemma AlikeFields(x: seq<Field>, y: seq<Field>, collate: Collation)
    requires DistinctKeys(x) && DistinctKeys(y)
    requires forall i, j :: 0 <= i < |x| && 0 <= j < |y| && x[i].key == y[j].key ==> Implied(x[i].value, y[j].value, collate)
    ensures Implied(Obj(x), Obj(y), collate)
  {
    SortedFields(x, y, collate);
    hide HasKey, Sort, Orders;
  }

  lemma SortedFields(x: seq<Field>, y: seq<Field>, collate: Collation)
    requires DistinctKeys(x) && DistinctKeys(y)
    ensures Sort(NormalFields(x, collate)) == Sort(NormalFields(y, collate)) <==>
            KeysIn(y, x) && KeysIn(x, y) && ValuesNormal(x, y, collate)
  {
    hide Normal, Sort, HasKey;
    var p, q := NormalFields(x, collate), NormalFields(y, collate);
    SortSorts(p);
    SortSorts(q);
    if Sort(p) == Sort(q) {
      FieldsBack(x, y, collate);
      FieldsBack(y, x, collate);
    } else if KeysIn(y, x) && KeysIn(x, y) && ValuesNormal(x, y, collate) {
      SortDistinct(p);
      SortDistinct(q);
      FieldsThere(x, y, collate);
      FieldsThere(y, x, collate);
      SortedUnique(Sort(p), Sort(q));
    }
  }

  lemma FieldsThere(x: seq<Field>, y: seq<Field>, collate: Collation)
    requires KeysIn(x, y) && ValuesNormal(x, y, collate)
    ensures forall f :: f in NormalFields(x, collate) ==> f in NormalFields(y, collate)
  {
    hide Normal;
    forall f | f in NormalFields(x, collate)
      ensures f in NormalFields(y, collate)
    {
      var i :| 0 <= i < |x| && NormalFields(x, collate)[i] == f;
      var j :| 0 <= j < |y| && y[j].key == x[i].key;
      assert NormalFields(y, collate)[j] == f;
    }
  }

  lemma FieldsBack(x: seq<Field>, y: seq<Field>, collate: Collation)
    requires DistinctKeys(y) && forall f :: f in NormalFields(x, collate) ==> f in NormalFields(y, collate)
    ensures KeysIn(x, y) && ValuesNormal(x, y, collate)
  {
    hide Normal, DistinctKeys;
    var p, q := NormalFields(x, collate), NormalFields(y, collate);
    forall i | 0 <= i < |x|
      ensures HasKey(y, x[i].key)
      ensures forall j :: 0 <= j < |y| && x[i].key == y[j].key ==> Normal(x[i].value, collate) == Normal(y[j].value, collate)
    {
      assert p[i] in q;
      var k :| 0 <= k < |q| && q[k] == p[i];
      assert y[k].key == x[i].key && Normal(y[k].value, collate) == Normal(x[i].value, collate);
      forall j | 0 <= j < |y| && x[i].key == y[j].key
        ensures j == k
      {
        OnePlace(y, k, j);
      }
    }
  }

  /** Conditions that share a signature are equal up to the order of keys and items; with a collation that
      orders texts, exactly those share one. */
  lemma SignaturesEqualIff(a: Json, b: Json, collate: Collation)
    requires Valid(a) && Valid(b)
    ensures Signature(a, collate) == Signature(b, collate) ==> Alike(a, b)
    ensures Orders(collate) ==> (Signature(a, collate) == Signature(b, collate) <==> Alike(a, b))
  {
    hide Alike, Normal, Orders;
    NormalValid(a, collate);
    NormalValid(b, collate);
    PrintInjective(Normal(a, collate), Normal(b, collate));
    AlikeIffNormal(a, b, collate);
  }
}
