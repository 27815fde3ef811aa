/** Which conditions the validator accepts: a statement about every part of a condition and how deep it
    lies, against the recursive check. */
module ConditionAcceptance {
  import opened Common
  import opened Json
  import opened ConditionMeaning
  import opened ConditionLeaves

  type Path = seq<nat>

  /** The parts of a group: the list under `all`, else the one under `any`, else what stands under `not`. */
  function Parts(j: Json): seq<Json> {
    var all, some, negated := Prop(Some(j), Text("all")), Prop(Some(j), Text("any")), Prop(Some(j), Text("not"));
    if all.Some? && all.value.Arr? then all.value.items
    else if some.Some? && some.value.Arr? then some.value.items
    else if Truthy(negated) then [negated.value]
    else []
  }

  /** The part that a path of positions leads to. */
  function PartAlong(j: Json, path: Path): Option<Json>
    decreases |path|
  {
    if path == [] then Some(j)
    else if path[0] < |Parts(j)| then PartAlong(Parts(j)[path[0]], path[1..])
    else None
  }

  /** One of the four sources, with a key. */
  predicate SourceOk(v: Option<Json>) {
    && Prop(v, Text("source")) in {Some(Str(Text("attribute"))), Some(Str(Text("segment"))), Some(Str(Text("context"))), Some(Str(Text("score")))}
    && Truthy(Prop(v, Text("key")))
  }

  /** What is asked of each part: no condition at all, or an object that is a group with parts, an
      expression, or a leaf with a source, a key and one of the sixteen operators, and likewise another
      source if it names one. */
  predicate PartOk(j: Json) {
    var all, some, other := Prop(Some(j), Text("all")), Prop(Some(j), Text("any")), Prop(Some(j), Text("value_source"));
    j.Null? ||
    (&& j.Obj?
     && if Parts(j) != [] then true
        else if (all.Some? && all.value.Arr?) || (some.Some? && some.value.Arr?) then false
        else
          || Truthy(Prop(Some(j), Text("expression")))
          || (&& SourceOk(Some(j)) && (exists name :: name in OPERATORS && IsName(OperatorName(j), name))
              && (other.None? || other == Some(Null) || SourceOk(other))))
  }

  ghost predicate EveryPartOk(j: Json, depth: nat) {
    forall path :: PartAlong(j, path).Some? ==>
      var part := PartAlong(j, path).value;
      PartOk(part) && (part.Null? || depth + |path| <= 3)
  }

  lemma NamedIsKnown(op: Option<Json>)
    ensures KnownOperator(op) <==> exists name :: name in OPERATORS && IsName(op, name)
  {
    if forall name :: name in OPERATORS ==> !IsName(op, name) {
      NoOperator(op);
    } else {
      OperatorNames(op);
      hide IsName, Text, OperatorOf;
    }
  }

  lemma LeafSources(j: Json)
    ensures SourceOk(Some(j)) <==> KnownSource(Prop(Some(j), Text("source"))) && Truthy(Prop(Some(j), Text("key")))
    ensures var other := Prop(Some(j), Text("value_source"));
            SourceOk(other) <==> KnownSource(Prop(other, Text("source"))) && Truthy(Prop(other, Text("key")))
  {
    hide Prop, Text, Truthy;
  }

  /** One step of the check: the part itself, and its parts one level down. */
  lemma AcceptedByParts(j: Json, depth: nat)
    ensures Accepted(j, depth) <==>
              && PartOk(j) && (j.Null? || depth <= 3)
              && forall i :: 0 <= i < |Parts(j)| ==> Accepted(Parts(j)[i], depth + 1)
  {
    NamedIsKnown(OperatorName(j));
    LeafSources(j);
    NothingBelowNull(j);
    hide Prop, Text, OperatorOf, IsName, KnownSource, KnownOperator, SourceOk;
    var all, some, negated := Prop(Some(j), Text("all")), Prop(Some(j), Text("any")), Prop(Some(j), Text("not"));
    if j.Obj? && IsArr(all) {
      assert Parts(j) == all.value.items;
      ItemsByIndex(all.value.items, depth + 1);
      assert Accepted(j, depth) <==>
             depth <= 3 && all.value.items != [] && forall x :: x in all.value.items ==> Accepted(x, depth + 1);
    } else if j.Obj? && IsArr(some) {
      assert Parts(j) == some.value.items;
      ItemsByIndex(some.value.items, depth + 1);
    } else if j.Obj? && Truthy(negated) {
      assert Parts(j) == [negated.value] && Parts(j)[0] == negated.value;
      assert Accepted(j, depth) <==> depth <= 3 && Accepted(negated.value, depth + 1);
    }
  }

  lemma ItemsByIndex(items: seq<Json>, depth: nat)
    ensures (forall x :: x in items ==> Accepted(x, depth)) <==> (forall i :: 0 <= i < |items| ==> Accepted(items[i], depth))
  {
    hide Accepted;
  }

  lemma NothingBelowNull(j: Json)
    ensures j.Null? ==> Parts(j) == []
  {
  }

  lemma {:induction false} PartsSmaller(j: Json, i: nat)
    requires i < |Parts(j)|
    ensures Parts(j)[i] < j
  {
    hide Text;
  }

  /** The check accepts a condition exactly when every part of it, along whatever path, is in order and
      lies no deeper than level three, the condition itself being at level `depth`. */
  lemma {:induction false} AcceptedIff(j: Json, depth: nat)
    ensures Accepted(j, depth) <==> EveryPartOk(j, depth)
    decreases j
  {
    AcceptedByParts(j, depth);
    hide Accepted, Parts, PartOk;
    forall i: nat | i < |Parts(j)|
      ensures Accepted(Parts(j)[i], depth + 1) <==> EveryPartOk(Parts(j)[i], depth + 1)
    {
      PartsSmaller(j, i);
      AcceptedIff(Parts(j)[i], depth + 1);
    }
    PartsOkIff(j, depth);
  }

  lemma PartsOkIff(j: Json, depth: nat)
    ensures EveryPartOk(j, depth) <==>
              && PartOk(j) && (j.Null? || depth <= 3)
              && forall i :: 0 <= i < |Parts(j)| ==> EveryPartOk(Parts(j)[i], depth + 1)
  {
    hide Parts, PartOk;
    assert PartAlong(j, []) == Some(j);
    if EveryPartOk(j, depth) {
      forall i, path | 0 <= i < |Parts(j)| && PartAlong(Parts(j)[i], path).Some?
        ensures PartAlong(j, [i] + path) == PartAlong(Parts(j)[i], path)
      {
        assert ([i] + path)[1..] == path;
      }
      forall i | 0 <= i < |Parts(j)|
        ensures EveryPartOk(Parts(j)[i], depth + 1)
      {
        forall path | PartAlong(Parts(j)[i], path).Some?
          ensures var part := PartAlong(Parts(j)[i], path).value; PartOk(part) && (part.Null? || depth + 1 + |path| <= 3)
        {
          assert PartAlong(j, [i] + path).Some?;
        }
      }
    }
    if PartOk(j) && (j.Null? || depth <= 3) && forall i :: 0 <= i < |Parts(j)| ==> EveryPartOk(Parts(j)[i], depth + 1) {
      forall path | PartAlong(j, path).Some?
        ensures var part := PartAlong(j, path).value; PartOk(part) && (part.Null? || depth + |path| <= 3)
      {
        if path != [] { assert EveryPartOk(Parts(j)[path[0]], depth + 1); }
      }
    }
  }
}
