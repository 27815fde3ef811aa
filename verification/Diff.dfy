/** The structural diff of two definitions: what it reports, and that applying it gives the right side. */
module Diff {
  import opened Common
  import opened Json
  import opened CanonicalJson

  type Path = seq<Units>

  datatype Kind = Added | Removed | Changed
  datatype Change = Change(path: Path, before: Option<Json>, after: Option<Json>, kind: Kind)

  // ----- The keys of two objects, in order ---------------------------------

  function InsertKey(key: Units, keys: seq<Units>): seq<Units> {
    if keys == [] then [key]
    else if keys[0] == key then keys
    else if Upto(key, keys[0]) then [key] + keys
    else [keys[0]] + InsertKey(key, keys[1..])
  }

  function KeysOf(fields: seq<Field>, keys: seq<Units>): seq<Units> {
    if fields == [] then keys else InsertKey(fields[0].key, KeysOf(fields[1..], keys))
  }

  /** `[...new Set([...leftKeys, ...rightKeys])].sort()` */
  function UnionKeys(left: seq<Field>, right: seq<Field>): seq<Units> {
    KeysOf(left, KeysOf(right, []))
  }

  predicate Ascending(keys: seq<Units>) {
    forall i, j :: 0 <= i < j < |keys| ==> Upto(keys[i], keys[j]) && keys[i] != keys[j]
  }

  lemma {:induction false} InsertKeyKeeps(key: Units, keys: seq<Units>)
    requires Ascending(keys)
    ensures Ascending(InsertKey(key, keys))
    ensures forall k :: k in InsertKey(key, keys) <==> k == key || k in keys
  {
    if keys == [] || keys[0] == key {
    } else if Upto(key, keys[0]) {
      forall j | 0 <= j < |keys|
        ensures Upto(key, keys[j]) && key != keys[j]
      {
        if j > 0 {
          UptoTransitive(key, keys[0], keys[j]);
          if key == keys[j] { UptoAntisymmetric(keys[0], keys[j]); }
        }
      }
    } else {
      UptoTotal(key, keys[0]);
      InsertKeyKeeps(key, keys[1..]);
      var rest := InsertKey(key, keys[1..]);
      assert keys == [keys[0]] + keys[1..];
      forall j | 0 <= j < |rest|
        ensures Upto(keys[0], rest[j]) && keys[0] != rest[j]
      {
        assert rest[j] in rest;
        if rest[j] != key {
          var i :| 0 <= i < |keys[1..]| && keys[1..][i] == rest[j];
          assert keys[1..][i] == keys[i + 1];
        }
      }
    }
  }

  lemma {:induction false} KeysOfKeeps(fields: seq<Field>, keys: seq<Units>)
    requires Ascending(keys)
    ensures Ascending(KeysOf(fields, keys))
    ensures forall k :: k in KeysOf(fields, keys) <==> Lookup(fields, k).Some? || k in keys
  {
    if fields != [] {
      KeysOfKeeps(fields[1..], keys);
      InsertKeyKeeps(fields[0].key, KeysOf(fields[1..], keys));
    }
  }

  lemma UnionKeysExact(left: seq<Field>, right: seq<Field>)
    ensures Ascending(UnionKeys(left, right))
    ensures forall k :: k in UnionKeys(left, right) <==> Lookup(left, k).Some? || Lookup(right, k).Some?
  {
    KeysOfKeeps(right, []);
    KeysOfKeeps(left, KeysOf(right, []));
  }

  // ----- diffValues --------------------------------------------------------

  /** `JSON.stringify(value)`, undefined for an absent value. */
  function TextOf(v: Option<Json>): Option<Units> {
    if v.None? then None else Some(Print(v.value))
  }

  predicate IsObj(v: Option<Json>) { v.Some? && v.value.Obj? }

  function DiffValues(left: Option<Json>, right: Option<Json>, path: Path): seq<Change>
    decreases left.Some?, if left.Some? then left.value else Null, 1, 0
  {
    if TextOf(left) == TextOf(right) then []
    else if !IsObj(left) || !IsObj(right) then
      [Change(path, left, right, if left.None? then Added else if right.None? then Removed else Changed)]
    else DiffKeys(UnionKeys(left.value.fields, right.value.fields), left.value.fields, right.value.fields, path)
  }

  function DiffKeys(keys: seq<Units>, left: seq<Field>, right: seq<Field>, path: Path): seq<Change>
    decreases true, Obj(left), 0, |keys|
  {
    if keys == [] then []
    else
      DiffValues(Lookup(left, keys[0]), Lookup(right, keys[0]), path + [keys[0]]) + DiffKeys(keys[1..], left, right, path)
  }

  // ----- Applying changes --------------------------------------------------

  function PutField(fields: seq<Field>, key: Units, v: Option<Json>): seq<Field> {
    if fields == [] then (if v.Some? then [Field(key, v.value)] else [])
    else if fields[0].key == key then (if v.Some? then [Field(key, v.value)] else []) + fields[1..]
    else [fields[0]] + PutField(fields[1..], key, v)
  }

  function Put(v: Option<Json>, path: Path, after: Option<Json>): Option<Json>
    decreases |path|
  {
    if path == [] then after
    else if !IsObj(v) then v
    else
      var fields := v.value.fields;
      Some(Obj(PutField(fields, path[0], Put(Lookup(fields, path[0]), path[1..], after))))
  }

  function Apply(changes: seq<Change>, v: Option<Json>): Option<Json> {
    if changes == [] then v else Apply(changes[1..], Put(v, changes[0].path, changes[0].after))
  }

  /** What a path leads to. */
  function At(v: Option<Json>, path: Path): Option<Json>
    decreases |path|
  {
    if path == [] then v else At(Prop(v, path[0]), path[1..])
  }

  // ----- Equality up to the order of keys outside arrays -------------------

  predicate Equivalent(a: Json, b: Json)
    decreases a
  {
    match (a, b)
    case (Obj(x), Obj(y)) =>
      && (forall j :: 0 <= j < |y| ==> HasKey(x, y[j].key))
      && (forall i :: 0 <= i < |x| ==> HasKey(y, x[i].key))
      && (forall i, j :: 0 <= i < |x| && 0 <= j < |y| && x[i].key == y[j].key ==> Equivalent(x[i].value, y[j].value))
    case _ => a == b
  }

  predicate EquivalentMaybe(a: Option<Json>, b: Option<Json>) {
    a.Some? == b.Some? && (a.Some? ==> Equivalent(a.value, b.value))
  }

  predicate ValidMaybe(v: Option<Json>) { v.Some? ==> Valid(v.value) }

  lemma {:induction false} EquivalentReflexive(a: Json)
    requires Valid(a)
    ensures Equivalent(a, a)
  {
    if a.Obj? {
      forall i, j | 0 <= i < |a.fields| && 0 <= j < |a.fields| && a.fields[i].key == a.fields[j].key
        ensures Equivalent(a.fields[i].value, a.fields[j].value)
      {
        EquivalentReflexive(a.fields[i].value);
      }
    }
  }

  lemma {:induction false} EquivalentIsSame(a: Json, b: Json)
    requires Equivalent(a, b) && Valid(a)
    ensures Same(a, b)
    decreases a
  {
    match (a, b)
    case (Obj(x), Obj(y)) =>
      forall i, j | 0 <= i < |x| && 0 <= j < |y| && x[i].key == y[j].key
        ensures Same(x[i].value, y[j].value)
      {
        EquivalentIsSame(x[i].value, y[j].value);
      }
    case _ =>
      SameIffCanonEqual(a, b);
  }

  ghost predicate EveryKeyEquivalent(x: seq<Field>, y: seq<Field>) {
    forall k :: EquivalentMaybe(Lookup(x, k), Lookup(y, k))
  }

  /** Objects are equivalent exactly when every key leads to equivalent values. */
  lemma EquivalentByKey(x: seq<Field>, y: seq<Field>)
    requires DistinctKeys(x) && DistinctKeys(y)
    ensures Equivalent(Obj(x), Obj(y)) <==> EveryKeyEquivalent(x, y)
  {
    hide Lookup, HasKey, DistinctKeys, ValuesEquivalent, KeysIn;
    if EveryKeyEquivalent(x, y) {
      forall k
        ensures Lookup(x, k).Some? == Lookup(y, k).Some?
      {
        assert EquivalentMaybe(Lookup(x, k), Lookup(y, k));
        BothOrNeither(Lookup(x, k), Lookup(y, k));
      }
      KeysAgree(x, y);
      KeysAgree(y, x);
      ValuesAgree(x, y);
      EquivalentFields(x, y);
    }
    if Equivalent(Obj(x), Obj(y)) {
      forall k
        ensures EquivalentMaybe(Lookup(x, k), Lookup(y, k))
      {
        LookupAgrees(x, y, k);
      }
    }
  }

  predicate KeysIn(x: seq<Field>, y: seq<Field>) {
    forall i :: 0 <= i < |x| ==> HasKey(y, x[i].key)
  }

  predicate ValuesEquivalent(x: seq<Field>, y: seq<Field>) {
    forall i, j :: 0 <= i < |x| && 0 <= j < |y| && x[i].key == y[j].key ==> Equivalent(x[i].value, y[j].value)
  }

  lemma EquivalentFields(x: seq<Field>, y: seq<Field>)
    ensures Equivalent(Obj(x), Obj(y)) <==> KeysIn(y, x) && KeysIn(x, y) && ValuesEquivalent(x, y)
  {
  }

  lemma BothOrNeither(a: Option<Json>, b: Option<Json>)
    requires EquivalentMaybe(a, b)
    ensures a.Some? == b.Some?
  {
  }

  lemma KeysAgree(x: seq<Field>, y: seq<Field>)
    requires forall k :: Lookup(x, k).Some? ==> Lookup(y, k).Some?
    ensures KeysIn(x, y)
  {
    hide Lookup, HasKey;
    forall i | 0 <= i < |x|
      ensures HasKey(y, x[i].key)
    {
      LookupHas(x, x[i].key);
      LookupHas(y, x[i].key);
      HasAt(x, i);
    }
  }

  lemma ValuesAgree(x: seq<Field>, y: seq<Field>)
    requires DistinctKeys(x) && DistinctKeys(y)
    requires forall k :: EquivalentMaybe(Lookup(x, k), Lookup(y, k))
    ensures ValuesEquivalent(x, y)
  {
    hide Lookup, Equivalent;
    forall i, j | 0 <= i < |x| && 0 <= j < |y| && x[i].key == y[j].key
      ensures Equivalent(x[i].value, y[j].value)
    {
      LookupIff(x, x[i].key, x[i].value);
      LookupIff(y, x[i].key, y[j].value);
      assert EquivalentMaybe(Lookup(x, x[i].key), Lookup(y, x[i].key));
    }
  }

  lemma HasAt(x: seq<Field>, i: nat)
    requires i < |x|
    ensures HasKey(x, x[i].key)
  {
  }

  lemma {:induction false} LookupHas(fields: seq<Field>, key: Units)
    ensures Lookup(fields, key).Some? <==> HasKey(fields, key)
  {
    if fields != [] && fields[0].key != key {
      LookupHas(fields[1..], key);
      if HasKey(fields, key) {
        var i :| 0 <= i < |fields| && fields[i].key == key;
        assert fields[1..][i - 1].key == key;
      }
    }
  }

  lemma LookupAgrees(x: seq<Field>, y: seq<Field>, k: Units)
    requires Equivalent(Obj(x), Obj(y))
    ensures EquivalentMaybe(Lookup(x, k), Lookup(y, k))
  {
    hide Lookup;
    LookupHas(x, k);
    LookupHas(y, k);
    if Lookup(x, k).Some? {
      var i :| 0 <= i < |x| && x[i] == Field(k, Lookup(x, k).value);
      assert HasKey(y, x[i].key);
      var j :| 0 <= j < |y| && y[j] == Field(k, Lookup(y, k).value);
      assert Equivalent(x[i].value, y[j].value);
    }
  }

  // ----- Changes below a key -----------------------------------------------

  function Under(prefix: Path, changes: seq<Change>): (r: seq<Change>)
    ensures |r| == |changes|
    ensures forall i :: 0 <= i < |r| ==> r[i] == changes[i].(path := prefix + changes[i].path)
  {
    if changes == [] then []
    else
      var first := changes[0];
      [first.(path := prefix + first.path)] + Under(prefix, changes[1..])
  }

  lemma UnderUnder(p: Path, q: Path, changes: seq<Change>)
    ensures Under(p, Under(q, changes)) == Under(p + q, changes)
  {
    forall i | 0 <= i < |changes|
      ensures Under(p, Under(q, changes))[i] == Under(p + q, changes)[i]
    {
      assert p + (q + changes[i].path) == p + q + changes[i].path;
    }
  }

  lemma UnderAppend(p: Path, a: seq<Change>, b: seq<Change>)
    ensures Under(p, a + b) == Under(p, a) + Under(p, b)
  {
  }

  /** A diff below some path is the diff at the root with that path in front. */
  lemma {:induction false} DiffUnder(left: Option<Json>, right: Option<Json>, path: Path)
    ensures DiffValues(left, right, path) == Under(path, DiffValues(left, right, []))
    decreases left.Some?, if left.Some? then left.value else Null, 1, 0
  {
    hide Print, UnionKeys, Under;
    UnderEmpty(path, left, right);
    if TextOf(left) != TextOf(right) && IsObj(left) && IsObj(right) {
      KeysUnder(UnionKeys(left.value.fields, right.value.fields), left.value.fields, right.value.fields, path);
    }
  }

  lemma UnderEmpty(path: Path, left: Option<Json>, right: Option<Json>)
    ensures Under(path, []) == []
    ensures forall kind :: Under(path, [Change([], left, right, kind)]) == [Change(path, left, right, kind)]
  {
    assert path + [] == path;
  }

  lemma {:induction false} KeysUnder(keys: seq<Units>, left: seq<Field>, right: seq<Field>, path: Path)
    ensures DiffKeys(keys, left, right, path) == Under(path, DiffKeys(keys, left, right, []))
    decreases true, Obj(left), 0, |keys|
  {
    hide DiffValues, Under, Lookup;
    if keys == [] {
      UnderEmpty(path, None, None);
    } else {
      var l, r, k := Lookup(left, keys[0]), Lookup(right, keys[0]), [keys[0]];
      DiffUnder(l, r, path + k);
      DiffUnder(l, r, [] + k);
      assert [] + k == k;
      UnderUnder(path, k, DiffValues(l, r, []));
      KeysUnder(keys[1..], left, right, path);
      UnderAppend(path, Under(k, DiffValues(l, r, [])), DiffKeys(keys[1..], left, right, []));
    }
  }

  /** The changes for the first key, and the rest. */
  lemma KeysSplit(keys: seq<Units>, left: seq<Field>, right: seq<Field>)
    requires keys != []
    ensures DiffKeys(keys, left, right, []) ==
            Under([keys[0]], DiffValues(Lookup(left, keys[0]), Lookup(right, keys[0]), [])) + DiffKeys(keys[1..], left, right, [])
  {
    DiffUnder(Lookup(left, keys[0]), Lookup(right, keys[0]), [keys[0]]);
    assert [] + [keys[0]] == [keys[0]];
    hide DiffValues, Under, Lookup;
  }

  // ----- Applying the diff gives the right side ----------------------------

  /** The fields after writing one key: nothing else changed. */
  ghost predicate Written(out: seq<Field>, fields: seq<Field>, key: Units, v: Option<Json>) {
    && Lookup(out, key) == v
    && (forall k :: k != key ==> Lookup(out, k) == Lookup(fields, k))
    && (forall f :: f in out ==> f.key == key || f in fields)
  }

  lemma {:induction false} PutFieldKeeps(fields: seq<Field>, key: Units, v: Option<Json>)
    requires DistinctKeys(fields)
    ensures Written(PutField(fields, key, v), fields, key, v) && DistinctKeys(PutField(fields, key, v))
  {
    hide Lookup, Written;
    if fields == [] {
      PutNew(key, v);
    } else if fields[0].key == key {
      PutFirst(fields, v);
    } else {
      PutFieldKeeps(fields[1..], key, v);
      PutLater(fields, PutField(fields[1..], key, v), key, v);
    }
  }

  lemma PutNew(key: Units, v: Option<Json>)
    ensures Written(PutField([], key, v), [], key, v)
  {
  }

  lemma PutFirst(fields: seq<Field>, v: Option<Json>)
    requires fields != [] && DistinctKeys(fields)
    ensures Written(PutField(fields, fields[0].key, v), fields, fields[0].key, v)
    ensures DistinctKeys(PutField(fields, fields[0].key, v))
  {
    if v.Some? { Replaced(fields, Field(fields[0].key, v.value)); } else { Dropped(fields); }
    hide Written;
  }

  lemma Replaced(fields: seq<Field>, f: Field)
    requires fields != [] && DistinctKeys(fields) && f.key == fields[0].key
    ensures Written([f] + fields[1..], fields, f.key, Some(f.value)) && DistinctKeys([f] + fields[1..])
  {
    assert ([f] + fields[1..])[1..] == fields[1..];
  }

  lemma Dropped(fields: seq<Field>)
    requires fields != [] && DistinctKeys(fields)
    ensures Written([] + fields[1..], fields, fields[0].key, None) && DistinctKeys([] + fields[1..])
  {
    GoneFromRest(fields);
    assert [] + fields[1..] == fields[1..];
  }

  lemma PutLater(fields: seq<Field>, rest: seq<Field>, key: Units, v: Option<Json>)
    requires fields != [] && fields[0].key != key && DistinctKeys(fields)
    requires Written(rest, fields[1..], key, v) && DistinctKeys(rest)
    ensures Written([fields[0]] + rest, fields, key, v) && DistinctKeys([fields[0]] + rest)
  {
    var out := [fields[0]] + rest;
    assert out[1..] == rest && fields == [fields[0]] + fields[1..];
    forall f | f in rest
      ensures f.key != fields[0].key
    {
      if f.key != key { assert f in fields[1..]; }
    }
  }

  lemma GoneFromRest(fields: seq<Field>)
    requires fields != [] && DistinctKeys(fields)
    ensures Lookup(fields[1..], fields[0].key).None?
  {
    LookupHas(fields[1..], fields[0].key);
  }

  lemma {:induction false} ApplyAppend(a: seq<Change>, b: seq<Change>, v: Option<Json>)
    ensures Apply(a + b, v) == Apply(b, Apply(a, v))
  {
    hide Put;
    if a == [] {
      assert a + b == b;
    } else {
      assert (a + b)[1..] == a[1..] + b;
      ApplyAppend(a[1..], b, Put(v, a[0].path, a[0].after));
    }
  }

  /** What applying changes to an object leaves: an object that differs at one key only. */
  ghost predicate Rewritten(out: Option<Json>, fields: seq<Field>, key: Units, v: Option<Json>) {
    && IsObj(out) && DistinctKeys(out.value.fields)
    && Lookup(out.value.fields, key) == v
    && forall k :: k != key ==> Lookup(out.value.fields, k) == Lookup(fields, k)
  }

  lemma PutRewrites(fields: seq<Field>, path: Path, after: Option<Json>)
    requires DistinctKeys(fields) && path != []
    ensures Rewritten(Put(Some(Obj(fields)), path, after), fields, path[0], Put(Lookup(fields, path[0]), path[1..], after))
  {
    PutFieldKeeps(fields, path[0], Put(Lookup(fields, path[0]), path[1..], after));
  }

  /** Changes below one key act on what that key holds, and on nothing else. */
  lemma {:induction false} ApplyUnder(key: Units, changes: seq<Change>, fields: seq<Field>)
    requires DistinctKeys(fields)
    ensures Rewritten(Apply(Under([key], changes), Some(Obj(fields))), fields, key, Apply(changes, Lookup(fields, key)))
    decreases |changes|
  {
    hide Put, Lookup;
    if changes != [] {
      var below := Under([key], changes);
      assert below[0].path == [key] + changes[0].path && below[0].path[1..] == changes[0].path;
      assert below[1..] == Under([key], changes[1..]);
      PutRewrites(fields, below[0].path, below[0].after);
      var next := Put(Some(Obj(fields)), below[0].path, below[0].after);
      ApplyUnder(key, changes[1..], next.value.fields);
    }
  }

  /** An object that has the wanted value at every key listed and is untouched elsewhere. */
  ghost predicate Patched(out: Option<Json>, fields: seq<Field>, keys: seq<Units>, right: seq<Field>) {
    && IsObj(out) && DistinctKeys(out.value.fields)
    && (forall k :: k in keys ==> EquivalentMaybe(Lookup(out.value.fields, k), Lookup(right, k)))
    && (forall k :: k !in keys ==> Lookup(out.value.fields, k) == Lookup(fields, k))
  }

  /** Applying the reported changes to the left value gives the right value, up to the order of the
      keys of objects outside arrays. */
  lemma {:induction false} DiffThenApply(left: Option<Json>, right: Option<Json>)
    requires ValidMaybe(left) && ValidMaybe(right)
    ensures EquivalentMaybe(Apply(DiffValues(left, right, []), left), right)
    decreases left.Some?, if left.Some? then left.value else Null, 1, 0
  {
    if TextOf(left) == TextOf(right) {
      SameText(left, right);
    } else if !IsObj(left) || !IsObj(right) {
      OneChange(left, right);
    } else {
      var l, r := left.value.fields, right.value.fields;
      var keys := UnionKeys(l, r);
      UnionKeysExact(l, r);
      KeysThenApply(keys, l, r, l);
      PatchedIsRight(Apply(DiffKeys(keys, l, r, []), left), l, keys, r);
    }
  }

  lemma SameText(left: Option<Json>, right: Option<Json>)
    requires ValidMaybe(left) && ValidMaybe(right) && TextOf(left) == TextOf(right)
    ensures left == right && EquivalentMaybe(left, right)
  {
    if left.Some? {
      PrintInjective(left.value, right.value);
      EquivalentReflexive(left.value);
    }
  }

  lemma OneChange(left: Option<Json>, right: Option<Json>)
    requires ValidMaybe(right) && TextOf(left) != TextOf(right) && (!IsObj(left) || !IsObj(right))
    ensures EquivalentMaybe(Apply(DiffValues(left, right, []), left), right)
  {
    if right.Some? { EquivalentReflexive(right.value); }
  }

  lemma PatchedIsRight(out: Option<Json>, left: seq<Field>, keys: seq<Units>, right: seq<Field>)
    requires Patched(out, left, keys, right) && DistinctKeys(right)
    requires forall k :: k in keys <==> Lookup(left, k).Some? || Lookup(right, k).Some?
    ensures EquivalentMaybe(out, Some(Obj(right)))
  {
    hide Lookup;
    forall k
      ensures EquivalentMaybe(Lookup(out.value.fields, k), Lookup(right, k))
    {
    }
    EquivalentByKey(out.value.fields, right);
  }

  lemma {:induction false} KeysThenApply(keys: seq<Units>, left: seq<Field>, right: seq<Field>, fields: seq<Field>)
    requires Valid(Obj(left)) && Valid(Obj(right)) && DistinctKeys(fields) && Ascending(keys)
    requires forall k :: k in keys ==> Lookup(fields, k) == Lookup(left, k)
    ensures Patched(Apply(DiffKeys(keys, left, right, []), Some(Obj(fields))), fields, keys, right)
    decreases true, Obj(left), 0, |keys|
  {
    hide DiffValues, Lookup, Under, Valid, EquivalentMaybe;
    if keys != [] {
      var key, rest := keys[0], keys[1..];
      var l, r := Lookup(left, key), Lookup(right, key);
      LookupValid(left, key);
      LookupValid(right, key);
      KeysSplit(keys, left, right);
      DiffThenApply(l, r);
      var first := Under([key], DiffValues(l, r, []));
      ApplyUnder(key, DiffValues(l, r, []), fields);
      var next := Apply(first, Some(Obj(fields))).value.fields;
      ApplyAppend(first, DiffKeys(rest, left, right, []), Some(Obj(fields)));
      assert keys == [key] + rest;
      assert key !in rest;
      KeysThenApply(rest, left, right, next);
    }
  }

  lemma LookupValid(fields: seq<Field>, key: Units)
    requires Valid(Obj(fields))
    ensures ValidMaybe(Lookup(fields, key))
    ensures Lookup(fields, key).Some? ==> Lookup(fields, key).value < Obj(fields)
  {
  }

  // ----- When nothing is reported ------------------------------------------

  lemma {:induction false} EquivalentReportsNothing(left: Option<Json>, right: Option<Json>)
    requires ValidMaybe(left) && ValidMaybe(right) && EquivalentMaybe(left, right)
    ensures DiffValues(left, right, []) == []
    decreases left.Some?, if left.Some? then left.value else Null, 1, 0
  {
    if TextOf(left) != TextOf(right) && IsObj(left) && IsObj(right) {
      var l, r := left.value.fields, right.value.fields;
      EquivalentByKey(l, r);
      KeysReportNothing(UnionKeys(l, r), l, r);
    }
  }

  lemma {:induction false} KeysReportNothing(keys: seq<Units>, left: seq<Field>, right: seq<Field>)
    requires Valid(Obj(left)) && Valid(Obj(right)) && EveryKeyEquivalent(left, right)
    ensures DiffKeys(keys, left, right, []) == []
    decreases true, Obj(left), 0, |keys|
  {
    hide DiffValues, Lookup, Valid, EquivalentMaybe;
    if keys != [] {
      LookupValid(left, keys[0]);
      LookupValid(right, keys[0]);
      assert EquivalentMaybe(Lookup(left, keys[0]), Lookup(right, keys[0]));
      EquivalentReportsNothing(Lookup(left, keys[0]), Lookup(right, keys[0]));
      KeysReportNothing(keys[1..], left, right);
      KeysSplit(keys, left, right);
    }
  }

  /** A diff is empty exactly when the two sides are equal up to the order of the keys of objects
      outside arrays; then they are equal up to the order of all keys. */
  lemma EmptyIff(left: Option<Json>, right: Option<Json>, path: Path)
    requires ValidMaybe(left) && ValidMaybe(right)
    ensures DiffValues(left, right, path) == [] <==> EquivalentMaybe(left, right)
    ensures DiffValues(left, right, path) == [] && left.Some? ==> right.Some? && Same(left.value, right.value)
  {
    hide DiffValues, Equivalent, Same;
    DiffUnder(left, right, path);
    DiffThenApply(left, right);
    if EquivalentMaybe(left, right) {
      EquivalentReportsNothing(left, right);
      if left.Some? { EquivalentIsSame(left.value, right.value); }
    }
  }

  // ----- What each change says ---------------------------------------------

  /** The change names a place where the two sides hold different values, and those values. */
  predicate Truthful(c: Change, left: Option<Json>, right: Option<Json>) {
    && At(left, c.path) == c.before && At(right, c.path) == c.after
    && !EquivalentMaybe(c.before, c.after)
    && (c.kind.Added? <==> c.before.None?) && (c.kind.Removed? <==> c.after.None?)
  }

  lemma {:induction false} ChangesAreTruthful(left: Option<Json>, right: Option<Json>)
    ensures forall c :: c in DiffValues(left, right, []) ==> Truthful(c, left, right)
    decreases left.Some?, if left.Some? then left.value else Null, 1, 0
  {
    if TextOf(left) != TextOf(right) && IsObj(left) && IsObj(right) {
      KeysAreTruthful(UnionKeys(left.value.fields, right.value.fields), left.value.fields, right.value.fields);
    }
  }

  lemma {:induction false} KeysAreTruthful(keys: seq<Units>, left: seq<Field>, right: seq<Field>)
    ensures forall c :: c in DiffKeys(keys, left, right, []) ==> Truthful(c, Some(Obj(left)), Some(Obj(right)))
    decreases true, Obj(left), 0, |keys|
  {
    hide DiffValues, Lookup, Truthful;
    if keys != [] {
      var l, r := Lookup(left, keys[0]), Lookup(right, keys[0]);
      ChangesAreTruthful(l, r);
      KeysAreTruthful(keys[1..], left, right);
      KeysSplit(keys, left, right);
      var changes := DiffValues(l, r, []);
      forall c | c in Under([keys[0]], changes)
        ensures Truthful(c, Some(Obj(left)), Some(Obj(right)))
      {
        var i :| 0 <= i < |changes| && Under([keys[0]], changes)[i] == c;
        TruthfulUnder(changes[i], keys[0], left, right);
      }
    }
  }

  lemma TruthfulUnder(c: Change, key: Units, left: seq<Field>, right: seq<Field>)
    requires Truthful(c, Lookup(left, key), Lookup(right, key))
    ensures Truthful(c.(path := [key] + c.path), Some(Obj(left)), Some(Obj(right)))
  {
    assert ([key] + c.path)[1..] == c.path;
  }

  /** Objects on both sides are never reported as wholes: the diff goes into them, down to a place where
      one side has something else. */
  lemma {:induction false} ChangesAreDeep(left: Option<Json>, right: Option<Json>, path: Path)
    ensures forall c :: c in DiffValues(left, right, path) ==>
              !(c.before.Some? && c.before.value.Obj? && c.after.Some? && c.after.value.Obj?)
    decreases left.Some?, if left.Some? then left.value else Null, 1, 0
  {
    if TextOf(left) != TextOf(right) && IsObj(left) && IsObj(right) {
      KeysAreDeep(UnionKeys(left.value.fields, right.value.fields), left.value.fields, right.value.fields, path);
    }
  }

  lemma {:induction false} KeysAreDeep(keys: seq<Units>, left: seq<Field>, right: seq<Field>, path: Path)
    ensures forall c :: c in DiffKeys(keys, left, right, path) ==>
              !(c.before.Some? && c.before.value.Obj? && c.after.Some? && c.after.value.Obj?)
    decreases true, Obj(left), 0, |keys|
  {
    hide DiffValues, Lookup;
    if keys != [] {
      ChangesAreDeep(Lookup(left, keys[0]), Lookup(right, keys[0]), path + [keys[0]]);
      KeysAreDeep(keys[1..], left, right, path);
    }
  }

  // ----- The order of the changes ------------------------------------------

  /** The paths part at some key, where the first takes the smaller one. */
  predicate PartsBefore(p: Path, q: Path) {
    p != [] && q != [] && if p[0] == q[0] then PartsBefore(p[1..], q[1..]) else Upto(p[0], q[0])
  }

  lemma {:induction false} PartsNoPrefix(p: Path, q: Path)
    requires PartsBefore(p, q)
    ensures !(p <= q) && !(q <= p)
  {
    if p <= q { PrefixTail(p, q); }
    if q <= p { PrefixTail(q, p); }
    if p[0] == q[0] { PartsNoPrefix(p[1..], q[1..]); }
  }

  lemma PrefixTail(p: Path, q: Path)
    requires p != [] && q != [] && p <= q
    ensures p[0] == q[0] && p[1..] <= q[1..]
  {
  }

  predicate InOrder(changes: seq<Change>) {
    forall i, j :: 0 <= i < j < |changes| ==> PartsBefore(changes[i].path, changes[j].path)
  }

  /** Paths are reported in the order of their keys, and none is a prefix of another. */
  lemma ReportedInOrder(left: Option<Json>, right: Option<Json>)
    ensures InOrder(DiffValues(left, right, []))
    ensures var changes := DiffValues(left, right, []);
            forall i, j :: 0 <= i < |changes| && 0 <= j < |changes| && i != j ==> !(changes[i].path <= changes[j].path)
  {
    hide DiffValues;
    DiffInOrder(left, right);
    var changes := DiffValues(left, right, []);
    forall i, j | 0 <= i < |changes| && 0 <= j < |changes| && i != j
      ensures !(changes[i].path <= changes[j].path)
    {
      if i < j { PartsNoPrefix(changes[i].path, changes[j].path); } else { PartsNoPrefix(changes[j].path, changes[i].path); }
    }
  }

  lemma {:induction false} DiffInOrder(left: Option<Json>, right: Option<Json>)
    ensures InOrder(DiffValues(left, right, []))
    decreases left.Some?, if left.Some? then left.value else Null, 1, 0
  {
    if TextOf(left) != TextOf(right) && IsObj(left) && IsObj(right) {
      UnionKeysExact(left.value.fields, right.value.fields);
      KeysInOrder(UnionKeys(left.value.fields, right.value.fields), left.value.fields, right.value.fields);
    }
  }

  predicate StartIn(changes: seq<Change>, keys: seq<Units>) {
    forall i :: 0 <= i < |changes| ==> changes[i].path != [] && changes[i].path[0] in keys
  }

  lemma {:induction false} KeysInOrder(keys: seq<Units>, left: seq<Field>, right: seq<Field>)
    requires Ascending(keys)
    ensures InOrder(DiffKeys(keys, left, right, [])) && StartIn(DiffKeys(keys, left, right, []), keys)
    decreases true, Obj(left), 0, |keys|
  {
    hide DiffValues, Lookup, InOrder, StartIn;
    if keys == [] {
      NothingInOrder(keys);
    } else {
      var l, r := Lookup(left, keys[0]), Lookup(right, keys[0]);
      DiffInOrder(l, r);
      KeysInOrder(keys[1..], left, right);
      KeysSplit(keys, left, right);
      JoinInOrder(keys, DiffValues(l, r, []), DiffKeys(keys[1..], left, right, []));
    }
  }

  lemma NothingInOrder(keys: seq<Units>)
    ensures InOrder([]) && StartIn([], keys)
  {
  }

  lemma JoinInOrder(keys: seq<Units>, first: seq<Change>, rest: seq<Change>)
    requires keys != [] && Ascending(keys) && InOrder(first) && InOrder(rest) && StartIn(rest, keys[1..])
    ensures InOrder(Under([keys[0]], first) + rest) && StartIn(Under([keys[0]], first) + rest, keys)
  {
    var below := Under([keys[0]], first);
    forall i, j | 0 <= i < j < |below|
      ensures PartsBefore(below[i].path, below[j].path)
    {
      PartsUnder(keys[0], first[i].path, first[j].path);
    }
    forall i, j | 0 <= i < |below| && 0 <= j < |rest|
      ensures PartsBefore(below[i].path, rest[j].path)
    {
      var k :| 0 <= k < |keys[1..]| && keys[1..][k] == rest[j].path[0];
      assert keys[0] != keys[k + 1] && Upto(keys[0], keys[k + 1]);
    }
  }

  lemma PartsUnder(key: Units, p: Path, q: Path)
    requires PartsBefore(p, q)
    ensures PartsBefore([key] + p, [key] + q)
  {
    assert ([key] + p)[1..] == p && ([key] + q)[1..] == q;
  }
}
