/** Text that does not depend on the order of object keys: `stableStringify`, and the equality of
    values up to key order that it decides. */
module CanonicalJson {
  import opened Json

  // ----- The order of keys -------------------------------------------------

  /** Code unit order, as `Array.prototype.sort` compares strings. */
  predicate Upto(a: Units, b: Units) {
    a == [] || (b != [] && (a[0] < b[0] || (a[0] == b[0] && Upto(a[1..], b[1..]))))
  }

  lemma {:induction false} UptoTotal(a: Units, b: Units)
    ensures Upto(a, b) || Upto(b, a)
  {
    if a != [] && b != [] && a[0] == b[0] { UptoTotal(a[1..], b[1..]); }
  }

  lemma {:induction false} UptoAntisymmetric(a: Units, b: Units)
    requires Upto(a, b) && Upto(b, a)
    ensures a == b
  {
    if a != [] { UptoAntisymmetric(a[1..], b[1..]); }
  }

  lemma {:induction false} UptoTransitive(a: Units, b: Units, c: Units)
    requires Upto(a, b) && Upto(b, c)
    ensures Upto(a, c)
  {
    if a != [] && a[0] == b[0] == c[0] { UptoTransitive(a[1..], b[1..], c[1..]); }
  }

  // ----- Sorting fields by key ---------------------------------------------

  function Insert(f: Field, fs: seq<Field>): seq<Field> {
    if fs == [] || Upto(f.key, fs[0].key) then [f] + fs else [fs[0]] + Insert(f, fs[1..])
  }

  function Sort(fs: seq<Field>): seq<Field> {
    if fs == [] then [] else Insert(fs[0], Sort(fs[1..]))
  }

  predicate Sorted(fs: seq<Field>) {
    forall i, j :: 0 <= i < j < |fs| ==> Upto(fs[i].key, fs[j].key)
  }

  lemma {:induction false} InsertMembers(f: Field, fs: seq<Field>, g: Field)
    ensures g in Insert(f, fs) <==> g == f || g in fs
    ensures |Insert(f, fs)| == |fs| + 1
  {
    if fs != [] && !Upto(f.key, fs[0].key) {
      InsertMembers(f, fs[1..], g);
      assert fs == [fs[0]] + fs[1..];
    }
  }

  lemma {:induction false} InsertSorted(f: Field, fs: seq<Field>)
    requires Sorted(fs)
    ensures Sorted(Insert(f, fs))
  {
    if fs == [] {
    } else if Upto(f.key, fs[0].key) {
      forall j | 0 <= j < |fs|
        ensures Upto(f.key, fs[j].key)
      {
        if j > 0 { UptoTransitive(f.key, fs[0].key, fs[j].key); }
      }
    } else {
      UptoTotal(f.key, fs[0].key);
      InsertSorted(f, fs[1..]);
      var rest := Insert(f, fs[1..]);
      forall j | 0 <= j < |rest|
        ensures Upto(fs[0].key, rest[j].key)
      {
        InsertMembers(f, fs[1..], rest[j]);
      }
    }
  }

  lemma {:induction false} InsertDistinct(f: Field, fs: seq<Field>)
    requires DistinctKeys(fs) && forall g :: g in fs ==> g.key != f.key
    ensures DistinctKeys(Insert(f, fs))
  {
    if fs != [] && !Upto(f.key, fs[0].key) {
      InsertDistinct(f, fs[1..]);
      var rest := Insert(f, fs[1..]);
      forall j | 0 <= j < |rest|
        ensures fs[0].key != rest[j].key
      {
        InsertMembers(f, fs[1..], rest[j]);
      }
    }
  }

  /** Sorting orders the fields and keeps them. */
  lemma {:induction false} SortSorts(fs: seq<Field>)
    ensures Sorted(Sort(fs)) && |Sort(fs)| == |fs| && forall f :: f in Sort(fs) <==> f in fs
  {
    if fs != [] {
      SortSorts(fs[1..]);
      InsertSorted(fs[0], Sort(fs[1..]));
      assert fs == [fs[0]] + fs[1..];
      forall f
        ensures f in Sort(fs) <==> f in fs
      {
        InsertMembers(fs[0], Sort(fs[1..]), f);
      }
      InsertMembers(fs[0], Sort(fs[1..]), fs[0]);
    }
  }

  lemma {:induction false} SortDistinct(fs: seq<Field>)
    requires DistinctKeys(fs)
    ensures DistinctKeys(Sort(fs))
  {
    if fs != [] {
      SortDistinct(fs[1..]);
      SortSorts(fs[1..]);
      InsertDistinct(fs[0], Sort(fs[1..]));
    }
  }

  /** Two sorted lists of the same fields with distinct keys are the same list. */
  lemma {:induction false} SortedUnique(a: seq<Field>, b: seq<Field>)
    requires Sorted(a) && Sorted(b) && DistinctKeys(a) && DistinctKeys(b)
    requires forall f :: f in a <==> f in b
    ensures a == b
  {
    assert b != [] ==> b[0] in b;
    if a != [] {
      assert a[0] in b;
      assert b != [] && b[0] in a;
      var i :| 0 <= i < |b| && b[i] == a[0];
      var j :| 0 <= j < |a| && a[j] == b[0];
      if 0 < i && 0 < j { UptoAntisymmetric(a[0].key, b[0].key); }
      assert a[0] == b[0];
      forall f
        ensures f in a[1..] <==> f in b[1..]
      {
        TailMember(a, f);
        TailMember(b, f);
      }
      SortedUnique(a[1..], b[1..]);
      assert a == [a[0]] + a[1..] && b == [b[0]] + b[1..];
    }
  }

  lemma TailMember(a: seq<Field>, f: Field)
    requires a != [] && DistinctKeys(a)
    ensures f in a[1..] <==> f in a && f != a[0]
  {
  }

  // ----- Canonical values --------------------------------------------------

  /** The value with the keys of every object in order. */
  function Canon(j: Json): Json
    decreases j, 0
  {
    match j
    case Arr(items) => Arr(CanonItems(items))
    case Obj(fields) => Obj(Sort(CanonFields(fields)))
    case _ => j
  }

  function CanonItems(items: seq<Json>): (r: seq<Json>)
    ensures |r| == |items| && forall i :: 0 <= i < |r| ==> r[i] == Canon(items[i])
    decreases items, 1
  {
    if items == [] then [] else [Canon(items[0])] + CanonItems(items[1..])
  }

  function CanonFields(fields: seq<Field>): (r: seq<Field>)
    ensures |r| == |fields|
    ensures forall i :: 0 <= i < |r| ==> r[i] == Field(fields[i].key, Canon(fields[i].value))
    decreases fields, 1
  {
    if fields == [] then []
    else
      var first := fields[0];
      [Field(first.key, Canon(first.value))] + CanonFields(fields[1..])
  }

  /** `stableStringify` */
  function Stable(j: Json): Units {
    Print(Canon(j))
  }

  lemma {:induction false} CanonValid(j: Json)
    requires Valid(j)
    ensures Valid(Canon(j))
  {
    match j
    case Arr(items) =>
      forall i | 0 <= i < |items|
        ensures Valid(Canon(items[i]))
      {
        CanonValid(items[i]);
      }
    case Obj(fields) =>
      var canon := CanonFields(fields);
      forall i | 0 <= i < |fields|
        ensures Valid(canon[i].value)
      {
        CanonValid(fields[i].value);
      }
      SortSorts(canon);
      SortDistinct(canon);
      forall i | 0 <= i < |Sort(canon)|
        ensures Valid(Sort(canon)[i].value)
      {
        assert Sort(canon)[i] in canon;
      }
    case _ =>
  }

  // ----- Equality up to key order ------------------------------------------

  predicate HasKey(fields: seq<Field>, key: Units) {
    exists i :: 0 <= i < |fields| && fields[i].key == key
  }

  /** Equal values up to the order of object keys, defined without any sorting. */
  predicate Same(a: Json, b: Json)
    decreases a
  {
    match (a, b)
    case (Arr(x), Arr(y)) => |x| == |y| && forall i :: 0 <= i < |x| ==> Same(x[i], y[i])
    case (Obj(x), Obj(y)) =>
      && (forall j :: 0 <= j < |y| ==> HasKey(x, y[j].key))
      && (forall i :: 0 <= i < |x| ==> HasKey(y, x[i].key))
      && (forall i, j :: 0 <= i < |x| && 0 <= j < |y| && x[i].key == y[j].key ==> Same(x[i].value, y[j].value))
    case _ => a == b
  }

  lemma {:induction false} SameIffCanonEqual(a: Json, b: Json)
    requires Valid(a) && Valid(b)
    ensures Same(a, b) <==> Canon(a) == Canon(b)
    decreases a
  {
    match (a, b)
    case (Arr(x), Arr(y)) => SameItems(x, y);
    case (Obj(x), Obj(y)) =>
      forall i, j | 0 <= i < |x| && 0 <= j < |y| && x[i].key == y[j].key
        ensures Same(x[i].value, y[j].value) <==> Canon(x[i].value) == Canon(y[j].value)
      {
        SameIffCanonEqual(x[i].value, y[j].value);
      }
      SameFields(x, y);
    case _ =>
  }

  lemma {:induction false} SameItems(x: seq<Json>, y: seq<Json>)
    requires Valid(Arr(x)) && Valid(Arr(y))
    ensures Same(Arr(x), Arr(y)) <==> Canon(Arr(x)) == Canon(Arr(y))
    decreases x
  {
    if |x| == |y| {
      forall i | 0 <= i < |x|
        ensures Same(x[i], y[i]) <==> Canon(x[i]) == Canon(y[i])
      {
        SameIffCanonEqual(x[i], y[i]);
      }
      if CanonItems(x) == CanonItems(y) {
        forall i | 0 <= i < |x|
          ensures Canon(x[i]) == Canon(y[i])
        {
          assert CanonItems(x)[i] == CanonItems(y)[i];
        }
      }
    }
  }

  lemma SameFields(x: seq<Field>, y: seq<Field>)
    requires DistinctKeys(x) && DistinctKeys(y)
    requires forall i, j :: 0 <= i < |x| && 0 <= j < |y| && x[i].key == y[j].key ==>
               (Same(x[i].value, y[j].value) <==> Canon(x[i].value) == Canon(y[j].value))
    ensures Same(Obj(x), Obj(y)) <==> Canon(Obj(x)) == Canon(Obj(y))
  {
    if Same(Obj(x), Obj(y)) { SameSortsAlike(x, y); }
    if Sort(CanonFields(x)) == Sort(CanonFields(y)) { SortedAlikeSame(x, y); }
  }

  lemma SameSortsAlike(x: seq<Field>, y: seq<Field>)
    requires DistinctKeys(x) && DistinctKeys(y)
    requires (forall j :: 0 <= j < |y| ==> HasKey(x, y[j].key)) && (forall i :: 0 <= i < |x| ==> HasKey(y, x[i].key))
    requires forall i, j :: 0 <= i < |x| && 0 <= j < |y| && x[i].key == y[j].key ==> Canon(x[i].value) == Canon(y[j].value)
    ensures Sort(CanonFields(x)) == Sort(CanonFields(y))
  {
    hide Canon;
    var cx, cy := CanonFields(x), CanonFields(y);
    CanonIncluded(x, y);
    CanonIncluded(y, x);
    SortSorts(cx);
    SortSorts(cy);
    SortDistinct(cx);
    SortDistinct(cy);
    SortedUnique(Sort(cx), Sort(cy));
  }

  lemma SortedAlikeSame(x: seq<Field>, y: seq<Field>)
    requires DistinctKeys(x) && DistinctKeys(y) && Sort(CanonFields(x)) == Sort(CanonFields(y))
    ensures (forall j :: 0 <= j < |y| ==> HasKey(x, y[j].key)) && (forall i :: 0 <= i < |x| ==> HasKey(y, x[i].key))
    ensures forall i, j :: 0 <= i < |x| && 0 <= j < |y| && x[i].key == y[j].key ==> Canon(x[i].value) == Canon(y[j].value)
  {
    hide Canon, CanonFields, HasKey, Sort, Sorted, DistinctKeys;
    SortSorts(CanonFields(x));
    SortSorts(CanonFields(y));
    KeysIncluded(x, y);
    KeysIncluded(y, x);
    forall i, j | 0 <= i < |x| && 0 <= j < |y| && x[i].key == y[j].key
      ensures Canon(x[i].value) == Canon(y[j].value)
    {
      ValuesAgree(x, y, i, j);
    }
  }

  lemma ValuesAgree(x: seq<Field>, y: seq<Field>, i: nat, j: nat)
    requires DistinctKeys(y) && i < |x| && j < |y| && x[i].key == y[j].key
    requires CanonFields(x)[i] in CanonFields(y)
    ensures Canon(x[i].value) == Canon(y[j].value)
  {
    hide Canon, CanonFields, DistinctKeys;
    var cx, cy := CanonFields(x), CanonFields(y);
    var k :| 0 <= k < |cy| && cy[k] == cx[i];
    assert cy[k] == Field(y[k].key, Canon(y[k].value)) && cx[i] == Field(x[i].key, Canon(x[i].value));
    OnePlace(y, k, j);
  }

  lemma OnePlace(y: seq<Field>, k: nat, j: nat)
    requires DistinctKeys(y) && k < |y| && j < |y| && y[k].key == y[j].key
    ensures k == j
  {
  }

  lemma CanonIncluded(x: seq<Field>, y: seq<Field>)
    requires forall i :: 0 <= i < |x| ==> HasKey(y, x[i].key)
    requires forall i, j :: 0 <= i < |x| && 0 <= j < |y| && x[i].key == y[j].key ==> Canon(x[i].value) == Canon(y[j].value)
    ensures forall f :: f in CanonFields(x) ==> f in CanonFields(y)
  {
    forall f | f in CanonFields(x)
      ensures f in CanonFields(y)
    {
      var i :| 0 <= i < |x| && CanonFields(x)[i] == f;
      var j :| 0 <= j < |y| && y[j].key == x[i].key;
      assert CanonFields(y)[j] == f;
    }
  }

  lemma KeysIncluded(x: seq<Field>, y: seq<Field>)
    requires forall f :: f in CanonFields(x) ==> f in CanonFields(y)
    ensures forall i :: 0 <= i < |x| ==> HasKey(y, x[i].key)
  {
    hide Canon, CanonFields;
    forall i | 0 <= i < |x|
      ensures HasKey(y, x[i].key)
    {
      assert CanonFields(x)[i] in CanonFields(y);
      var j :| 0 <= j < |y| && CanonFields(y)[j] == CanonFields(x)[i];
      assert y[j].key == x[i].key;
    }
  }

  /** The stable text of two values is the same exactly when they are equal up to key order. */
  lemma StableIff(a: Json, b: Json)
    requires Valid(a) && Valid(b)
    ensures Stable(a) == Stable(b) <==> Same(a, b)
  {
    CanonValid(a);
    CanonValid(b);
    PrintInjective(Canon(a), Canon(b));
    SameIffCanonEqual(a, b);
  }
}
