/** Audience conditions: how the evaluator decides them, which ones the validator accepts, and the
    order-insensitive truth value that evaluation agrees with whenever it gives an answer. */
module ConditionMeaning {
  import opened Common
  import opened Json

  datatype Outcome = Threw | Value(b: bool)

  /** What reading a source gives: an error, or a value that may be missing. */
  datatype Reading = Failed | Got(value: Option<Json>)

  datatype Operator =
    | Equals | NotEquals | GreaterThan | GreaterThanOrEqual | LessThan | LessThanOrEqual | In | NotIn
    | Contains | NotContains | Blank | NotBlank | Matches | WithinLastDays | BeforeDate | AfterDate

  /** What a host operation can tell about an operand: an object is never compared by its contents,
      only by which keys it has. */
  datatype View = Missing | Scalar(j: Json) | Thing(keys: set<Units>) | List(items: seq<Json>)

  /** What `Number` makes of a value: it throws, or gives no number whatever the host does, or what the
      host makes of a scalar or of nothing. */
  datatype Numeral = NotConvertible | NotANumber | Of(v: Option<Json>)

  /** One evaluation environment and the host operations it applies: reading one of the four sources,
      comparing two values read, comparing a value read with a numeral, matching a text against a
      pattern, comparing a value read with a date text, and evaluating an expression. */
  datatype Env = Env(read: (Option<Json>, View) -> Reading,
                     against: (Operator, Option<Json>, Option<Json>) -> Outcome,
                     order: (Operator, Option<Json>, Numeral) -> Outcome,
                     matches: (Units, Units) -> Outcome,
                     dates: (Operator, Option<Json>, Units) -> Outcome,
                     expression: View -> Outcome)

  /** The code units of a name. */
  function Text(s: string): Units {
    seq(|s|, i requires 0 <= i < |s| => if (s[i] as int) < 0x1_0000 then s[i] as int else 0)
  }

  function Seen(v: Option<Json>): View {
    match v
    case None => Missing
    case Some(Arr(items)) => List(items)
    case Some(Obj(fields)) => Thing(set f | f in fields :: f.key)
    case Some(j) => Scalar(j)
  }

  predicate IsArr(v: Option<Json>) { v.Some? && v.value.Arr? }

  predicate IsName(v: Option<Json>, s: string) {
    v == Some(Str(Text(s)))
  }

  // ----- Evaluation --------------------------------------------------------

  predicate KnownSource(v: Option<Json>) {
    IsName(v, "attribute") || IsName(v, "segment") || IsName(v, "context") || IsName(v, "score")
  }

  function OperatorOf(op: Option<Json>): Option<Operator> {
    if IsName(op, "equals") then Some(Equals)
    else if IsName(op, "not_equals") then Some(NotEquals)
    else if IsName(op, "greater_than") then Some(GreaterThan)
    else if IsName(op, "greater_than_or_equal") then Some(GreaterThanOrEqual)
    else if IsName(op, "less_than") then Some(LessThan)
    else if IsName(op, "less_than_or_equal") then Some(LessThanOrEqual)
    else if IsName(op, "in") then Some(In)
    else if IsName(op, "not_in") then Some(NotIn)
    else if IsName(op, "contains") then Some(Contains)
    else if IsName(op, "not_contains") then Some(NotContains)
    else if IsName(op, "is_blank") then Some(Blank)
    else if IsName(op, "is_not_blank") then Some(NotBlank)
    else if IsName(op, "matches_regex") then Some(Matches)
    else if IsName(op, "within_last_days") then Some(WithinLastDays)
    else if IsName(op, "before_date") then Some(BeforeDate)
    else if IsName(op, "after_date") then Some(AfterDate)
    else None
  }

  predicate KnownOperator(op: Option<Json>) { OperatorOf(op).Some? }

  predicate IsNumeric(op: Operator) {
    op in {GreaterThan, GreaterThanOrEqual, LessThan, LessThanOrEqual, WithinLastDays}
  }

  /** The operators that turn their operand into a text and use that. */
  predicate ReadsText(op: Operator) {
    op in {Contains, NotContains, Matches, BeforeDate, AfterDate}
  }

  // ----- Conversions -------------------------------------------------------

  /** `String(value)`: items are joined with commas, an object has one text whatever it holds, unless a
      `toString` of its own gets in the way, which throws. */
  function TextOf(j: Json): Option<Units>
    decreases j, 0
  {
    match j
    case Null => Some(Text("null"))
    case Bool(b) => Some(Text(if b then "true" else "false"))
    case Number(text) => Some(text)
    case Str(s) => Some(s)
    case Arr(items) => Joined(items)
    case Obj(fields) => if Lookup(fields, Text("toString")).Some? then None else Some(Text("[object Object]"))
  }

  function ItemText(j: Json): Option<Units>
    decreases j, 1
  {
    if j.Null? then Some([]) else TextOf(j)
  }

  function Joined(items: seq<Json>): Option<Units>
    decreases items, 2
  {
    if items == [] then Some([])
    else if |items| == 1 then ItemText(items[0])
    else
      var first, rest := ItemText(items[0]), Joined(items[1..]);
      if first.None? || rest.None? then None else Some(first.value + [COMMA] + rest.value)
  }

  function MaybeText(v: Option<Json>): Option<Units> {
    if v.None? then Some(Text("undefined")) else TextOf(v.value)
  }

  /** No number has a comma in its text. */
  function TextNumeral(text: Units): Numeral {
    if COMMA in text then NotANumber else Of(Some(Str(text)))
  }

  /** `Number(value)`, which reads objects and arrays by their text. */
  function NumeralOf(v: Option<Json>): Numeral {
    if v.None? then Of(None)
    else if v.value.Arr? || v.value.Obj? then
      var text := TextOf(v.value);
      if text.None? then NotConvertible else TextNumeral(text.value)
    else if v.value.Str? then TextNumeral(v.value.s)
    else Of(v)
  }

  predicate PartAt(part: Units, whole: Units, i: nat) {
    i + |part| <= |whole| && whole[i..i + |part|] == part
  }

  predicate Substring(part: Units, whole: Units) {
    exists i :: 0 <= i <= |whole| && PartAt(part, whole, i)
  }

  function ReadSource(c: Option<Json>, env: Env): Reading {
    var source := Prop(c, Text("source"));
    if KnownSource(source) then env.read(source, Seen(Prop(c, Text("key")))) else Failed
  }

  /** `items.includes(value)`: objects and arrays in the list equal nothing that comes from elsewhere. */
  predicate Includes(items: seq<Json>, value: Option<Json>) {
    exists j :: j in items && Identical(value, Some(j))
  }

  predicate IsBlank(v: Option<Json>) {
    v.None? || v.value.Null? || v.value == Str([])
  }

  /** `String(actual || "")` */
  function ActualText(actual: Option<Json>): Option<Units> {
    if Truthy(actual) then TextOf(actual.value) else Some([])
  }

  /** Membership in an array that was read, otherwise part of its text. */
  function Containment(actual: Option<Json>, literal: Option<Json>): Outcome {
    if IsArr(actual) then Value(Includes(actual.value.items, literal))
    else
      var whole, part := ActualText(actual), MaybeText(literal);
      if whole.None? || part.None? then Threw else Value(Substring(part.value, whole.value))
  }

  function CompareLiteral(op: Operator, actual: Option<Json>, literal: Option<Json>, env: Env): Outcome {
    match op
    case Equals => Value(Identical(actual, literal))
    case NotEquals => Value(!Identical(actual, literal))
    case In => Value(IsArr(literal) && Includes(literal.value.items, actual))
    case NotIn => Value(IsArr(literal) && !Includes(literal.value.items, actual))
    case Blank => Value(IsBlank(actual))
    case NotBlank => Value(!IsBlank(actual))
    case Contains => Containment(actual, literal)
    case NotContains => Negate(Containment(actual, literal))
    case Matches =>
      var whole, pattern := ActualText(actual), MaybeText(literal);
      if whole.None? || pattern.None? then Threw else env.matches(pattern.value, whole.value)
    case BeforeDate => CompareDate(op, actual, MaybeText(literal), env)
    case AfterDate => CompareDate(op, actual, MaybeText(literal), env)
    case _ => if NumeralOf(literal).NotConvertible? then Threw else env.order(op, actual, NumeralOf(literal))
  }

  function CompareDate(op: Operator, actual: Option<Json>, text: Option<Units>, env: Env): Outcome {
    if text.None? then Threw else env.dates(op, actual, text.value)
  }

  /** `evaluateLeafCondition` */
  function Leaf(c: Json, env: Env): Outcome {
    var op, other := OperatorOf(Prop(Some(c), Text("operator"))), Prop(Some(c), Text("value_source"));
    match ReadSource(Some(c), env)
    case Failed => Threw
    case Got(actual) =>
      if Truthy(other) then
        match ReadSource(other, env)
        case Failed => Threw
        case Got(expected) => if op.Some? then env.against(op.value, actual, expected) else Threw
      else if op.Some? then CompareLiteral(op.value, actual, Prop(Some(c), Text("value")), env)
      else Threw
  }

  function Negate(o: Outcome): Outcome {
    if o.Threw? then Threw else Value(!o.b)
  }

  /** Which of its parts decides a condition. */
  datatype Shape = Always | All(items: seq<Json>) | Any(items: seq<Json>) | Not(part: Json) | Expression(text: Json) | Plain

  function ShapeOf(j: Json): (r: Shape)
    ensures r.All? || r.Any? ==> Arr(r.items) < j
    ensures r.Not? ==> r.part < j
  {
    var all, some, negated, expression :=
      Prop(Some(j), Text("all")), Prop(Some(j), Text("any")), Prop(Some(j), Text("not")), Prop(Some(j), Text("expression"));
    if !Truthy(Some(j)) then Always
    else if IsArr(all) then All(all.value.items)
    else if IsArr(some) then Any(some.value.items)
    else if Truthy(negated) then Not(negated.value)
    else if Truthy(expression) then Expression(expression.value)
    else Plain
  }

  /** `evaluateConditionGroup`: short-circuiting, so parts that are not reached cannot throw. */
  function Evaluate(j: Json, env: Env): Outcome
    decreases j, 0
  {
    match ShapeOf(j)
    case Always => Value(true)
    case All(items) => Every(items, env)
    case Any(items) => AnyOf(items, env)
    case Not(part) => Negate(Evaluate(part, env))
    case Expression(text) => env.expression(Seen(Some(text)))
    case Plain => Leaf(j, env)
  }

  function Every(items: seq<Json>, env: Env): Outcome
    decreases items, 1
  {
    if items == [] then Value(true)
    else
      var first := Evaluate(items[0], env);
      if first == Value(true) then Every(items[1..], env) else first
  }

  function AnyOf(items: seq<Json>, env: Env): Outcome
    decreases items, 1
  {
    if items == [] then Value(false)
    else
      var first := Evaluate(items[0], env);
      if first == Value(false) then AnyOf(items[1..], env) else first
  }

  // ----- What a group decides ----------------------------------------------

  /** The first part whose outcome is not the one that lets the group go on. */
  predicate Stops(items: seq<Json>, env: Env, on: bool, i: nat) {
    && i < |items| && Evaluate(items[i], env) != Value(on)
    && forall k :: 0 <= k < i ==> Evaluate(items[k], env) == Value(on)
  }

  predicate Goes(items: seq<Json>, env: Env, on: bool) {
    forall k :: 0 <= k < |items| ==> Evaluate(items[k], env) == Value(on)
  }

  /** Without a condition everybody is meant. A list of parts under `all` goes on over true parts, one
      under `any` over false ones: the first other outcome is that of the group. Then `not` counts, then
      an expression, and only then is the condition a leaf. */
  lemma GroupMeaning(j: Json, env: Env)
    ensures !Truthy(Some(j)) ==> Evaluate(j, env) == Value(true)
    ensures var all, some, negated, expression :=
              Prop(Some(j), Text("all")), Prop(Some(j), Text("any")), Prop(Some(j), Text("not")), Prop(Some(j), Text("expression"));
            Truthy(Some(j)) ==>
              if all.Some? && all.value.Arr? then
                && (Goes(all.value.items, env, true) ==> Evaluate(j, env) == Value(true))
                && (forall i: nat :: Stops(all.value.items, env, true, i) ==> Evaluate(j, env) == Evaluate(all.value.items[i], env))
              else if some.Some? && some.value.Arr? then
                && (Goes(some.value.items, env, false) ==> Evaluate(j, env) == Value(false))
                && (forall i: nat :: Stops(some.value.items, env, false, i) ==> Evaluate(j, env) == Evaluate(some.value.items[i], env))
              else if Truthy(negated) then
                && (Evaluate(j, env).Threw? <==> Evaluate(negated.value, env).Threw?)
                && forall b :: Evaluate(j, env) == Value(b) <==> Evaluate(negated.value, env) == Value(!b)
              else if Truthy(expression) then Evaluate(j, env) == env.expression(Seen(expression))
              else Evaluate(j, env) == Leaf(j, env)
  {
    var all, some := Prop(Some(j), Text("all")), Prop(Some(j), Text("any"));
    hide Prop, Text, Leaf, Every, AnyOf;
    if all.Some? && all.value.Arr? { EveryMeaning(all.value.items, env); }
    if some.Some? && some.value.Arr? { AnyOfMeaning(some.value.items, env); }
    hide Goes, Stops;
  }

  lemma {:induction false} EveryMeaning(items: seq<Json>, env: Env)
    ensures Goes(items, env, true) ==> Every(items, env) == Value(true)
    ensures forall i: nat :: Stops(items, env, true, i) ==> Every(items, env) == Evaluate(items[i], env)
  {
    hide Evaluate;
    if items != [] {
      EveryMeaning(items[1..], env);
      forall i: nat | Stops(items, env, true, i)
        ensures Every(items, env) == Evaluate(items[i], env)
      {
        if i > 0 { assert Stops(items[1..], env, true, i - 1); }
      }
    }
  }

  lemma {:induction false} AnyOfMeaning(items: seq<Json>, env: Env)
    ensures Goes(items, env, false) ==> AnyOf(items, env) == Value(false)
    ensures forall i: nat :: Stops(items, env, false, i) ==> AnyOf(items, env) == Evaluate(items[i], env)
  {
    hide Evaluate;
    if items != [] {
      AnyOfMeaning(items[1..], env);
      forall i: nat | Stops(items, env, false, i)
        ensures AnyOf(items, env) == Evaluate(items[i], env)
      {
        if i > 0 { assert Stops(items[1..], env, false, i - 1); }
      }
    }
  }

  // ----- The truth value without short-circuiting --------------------------

  /** The truth value that does not depend on the order of parts: `all` is false as soon as one part
      is false, `any` true as soon as one is true, whatever the others do. */
  ghost function Truth(j: Json, env: Env): Outcome
    decreases j
  {
    match ShapeOf(j)
    case Always => Value(true)
    case All(items) =>
      if exists x :: x in items && Truth(x, env) == Value(false) then Value(false)
      else if forall x :: x in items ==> Truth(x, env) == Value(true) then Value(true)
      else Threw
    case Any(items) =>
      if exists x :: x in items && Truth(x, env) == Value(true) then Value(true)
      else if forall x :: x in items ==> Truth(x, env) == Value(false) then Value(false)
      else Threw
    case Not(part) => Negate(Truth(part, env))
    case Expression(text) => env.expression(Seen(Some(text)))
    case Plain => Leaf(j, env)
  }

  /** When evaluation gives an answer, it is the order-insensitive one. */
  lemma {:induction false} AnswersAreTruth(j: Json, env: Env)
    ensures Evaluate(j, env).Value? ==> Evaluate(j, env) == Truth(j, env)
    decreases j, 0
  {
    hide ShapeOf, Leaf;
    match ShapeOf(j)
    case All(items) =>
      EveryIsTruth(items, env);
    case Any(items) =>
      AnyOfIsTruth(items, env);
    case Not(part) =>
      AnswersAreTruth(part, env);
    case _ =>
  }

  lemma {:induction false} EveryIsTruth(items: seq<Json>, env: Env)
    ensures Every(items, env) == Value(true) ==> forall x :: x in items ==> Truth(x, env) == Value(true)
    ensures Every(items, env) == Value(false) ==> exists x :: x in items && Truth(x, env) == Value(false)
    decreases items, 1
  {
    hide Evaluate, Truth;
    if items != [] {
      AnswersAreTruth(items[0], env);
      EveryIsTruth(items[1..], env);
      assert items == [items[0]] + items[1..];
    }
  }

  lemma {:induction false} AnyOfIsTruth(items: seq<Json>, env: Env)
    ensures AnyOf(items, env) == Value(false) ==> forall x :: x in items ==> Truth(x, env) == Value(false)
    ensures AnyOf(items, env) == Value(true) ==> exists x :: x in items && Truth(x, env) == Value(true)
    decreases items, 1
  {
    hide Evaluate, Truth;
    if items != [] {
      AnswersAreTruth(items[0], env);
      AnyOfIsTruth(items[1..], env);
      assert items == [items[0]] + items[1..];
    }
  }

  // ----- Conditions that do not throw --------------------------------------

  /** No leaf and no expression of the condition throws. */
  predicate Safe(j: Json, env: Env)
    decreases j
  {
    match ShapeOf(j)
    case Always => true
    case All(items) => forall x :: x in items ==> Safe(x, env)
    case Any(items) => forall x :: x in items ==> Safe(x, env)
    case Not(part) => Safe(part, env)
    case Expression(text) => env.expression(Seen(Some(text))).Value?
    case Plain => Leaf(j, env).Value?
  }

  lemma {:induction false} SafeAnswers(j: Json, env: Env)
    requires Safe(j, env)
    ensures Evaluate(j, env).Value?
    decreases j, 0
  {
    hide ShapeOf, Leaf;
    match ShapeOf(j)
    case All(items) => SafeParts(items, env);
    case Any(items) => SafeParts(items, env);
    case Not(part) => SafeAnswers(part, env);
    case _ =>
  }

  lemma {:induction false} SafeParts(items: seq<Json>, env: Env)
    requires forall x :: x in items ==> Safe(x, env)
    ensures Every(items, env).Value? && AnyOf(items, env).Value?
    decreases items, 1
  {
    hide Evaluate, Safe;
    if items != [] {
      SafeAnswers(items[0], env);
      SafeParts(items[1..], env);
    }
  }

  /** `validateConditionGroup` */
  predicate Accepted(j: Json, depth: nat)
    decreases j
  {
    var all, some, negated, other :=
      Prop(Some(j), Text("all")), Prop(Some(j), Text("any")), Prop(Some(j), Text("not")), Prop(Some(j), Text("value_source"));
    if j.Null? then true
    else if !j.Obj? || depth > 3 then false
    else if IsArr(all) then all.value.items != [] && forall x :: x in all.value.items ==> Accepted(x, depth + 1)
    else if IsArr(some) then some.value.items != [] && forall x :: x in some.value.items ==> Accepted(x, depth + 1)
    else if Truthy(negated) then Accepted(negated.value, depth + 1)
    else if Truthy(Prop(Some(j), Text("expression"))) then true
    else
      && KnownSource(Prop(Some(j), Text("source"))) && Truthy(Prop(Some(j), Text("key")))
      && KnownOperator(Prop(Some(j), Text("operator")))
      && (other.None? || other.value.Null? || (KnownSource(Prop(other, Text("source"))) && Truthy(Prop(other, Text("key")))))
  }

  /** No host operation throws in this environment, and everything read has a text. */
  ghost predicate Quiet(env: Env) {
    && (forall s, k :: env.read(s, k).Got? && MaybeText(env.read(s, k).value).Some?)
    && (forall op, x, y :: env.against(op, x, y).Value?)
    && (forall op, x, n :: env.order(op, x, n).Value?)
    && (forall p, t :: env.matches(p, t).Value?)
    && (forall op, x, t :: env.dates(op, x, t).Value?)
    && (forall v :: env.expression(v).Value?)
  }

  /** Every literal that an operator converts can be converted. */
  predicate Readable(j: Json)
    decreases j
  {
    match ShapeOf(j)
    case Always => true
    case All(items) => forall x :: x in items ==> Readable(x)
    case Any(items) => forall x :: x in items ==> Readable(x)
    case Not(part) => Readable(part)
    case Expression(_) => true
    case Plain => ReadableLeaf(j)
  }

  predicate ReadableLeaf(j: Json) {
    var op := OperatorOf(Prop(Some(j), Text("operator")));
    op.Some? && (ReadsText(op.value) || IsNumeric(op.value)) && !Truthy(Prop(Some(j), Text("value_source"))) ==>
      MaybeText(Prop(Some(j), Text("value"))).Some?
  }

  /** A condition the validator accepts throws only where a host operation does or a literal has no text,
      never for an unsupported source or operator. */
  lemma {:induction false} AcceptedIsSafe(j: Json, depth: nat, env: Env)
    requires Accepted(j, depth) && Readable(j) && Quiet(env)
    ensures Safe(j, env)
    decreases j
  {
    AcceptedShape(j, depth);
    hide Accepted, ShapeOf, Leaf, ReadableLeaf, Quiet;
    match ShapeOf(j)
    case All(items) =>
      forall x | x in items
        ensures Safe(x, env)
      {
        AcceptedIsSafe(x, depth + 1, env);
      }
    case Any(items) =>
      forall x | x in items
        ensures Safe(x, env)
      {
        AcceptedIsSafe(x, depth + 1, env);
      }
    case Not(part) => AcceptedIsSafe(part, depth + 1, env);
    case Plain => AcceptedLeaf(j, env);
    case Expression(text) => QuietExpression(env, Seen(Some(text)));
    case Always =>
  }

  lemma QuietExpression(env: Env, v: View)
    requires Quiet(env)
    ensures env.expression(v).Value?
  {
  }

  /** Nothing is read, and every host operation says yes. */
  const BARE: Env := Env((s, k) => Got(None), (op, x, y) => Value(true), (op, x, n) => Value(true),
                         (p, t) => Value(true), (op, x, t) => Value(true), v => Value(true))

  lemma {:induction false} SafeIsReadable(j: Json, depth: nat)
    requires Accepted(j, depth) && Safe(j, BARE)
    ensures Readable(j)
    decreases j
  {
    AcceptedShape(j, depth);
    hide Accepted, ShapeOf, Leaf, ReadableLeaf;
    match ShapeOf(j)
    case All(items) =>
      forall x | x in items
        ensures Readable(x)
      {
        SafeIsReadable(x, depth + 1);
      }
    case Any(items) =>
      forall x | x in items
        ensures Readable(x)
      {
        SafeIsReadable(x, depth + 1);
      }
    case Not(part) => SafeIsReadable(part, depth + 1);
    case Plain => BareLeaf(j);
    case _ =>
  }

  lemma BareLeaf(j: Json)
    requires AcceptedPlain(j) && Leaf(j, BARE).Value?
    ensures ReadableLeaf(j)
  {
    hide Prop, KnownSource, OperatorOf, TextOf;
    TextOrNot(Prop(Some(j), Text("value")));
  }

  /** The condition is exact: an accepted condition is safe in every quiet environment if and only if its
      literals can be converted where they have to be. */
  lemma AcceptedSafeIff(j: Json, depth: nat)
    requires Accepted(j, depth)
    ensures (forall env :: Quiet(env) ==> Safe(j, env)) <==> Readable(j)
  {
    hide Accepted, Safe, Readable;
    assert Quiet(BARE);
    if Readable(j) {
      forall env | Quiet(env)
        ensures Safe(j, env)
      {
        AcceptedIsSafe(j, depth, env);
      }
    } else if Safe(j, BARE) {
      SafeIsReadable(j, depth);
    }
  }

  /** What acceptance says of a leaf. */
  predicate AcceptedPlain(j: Json) {
    var other := Prop(Some(j), Text("value_source"));
    && KnownSource(Prop(Some(j), Text("source"))) && KnownOperator(Prop(Some(j), Text("operator")))
    && (Truthy(other) ==> KnownSource(Prop(other, Text("source"))))
  }

  lemma AcceptedShape(j: Json, depth: nat)
    requires Accepted(j, depth)
    ensures match ShapeOf(j)
            case All(items) => forall x :: x in items ==> Accepted(x, depth + 1)
            case Any(items) => forall x :: x in items ==> Accepted(x, depth + 1)
            case Not(part) => Accepted(part, depth + 1)
            case Plain => AcceptedPlain(j)
            case _ => true
  {
    hide Prop, KnownSource, KnownOperator;
  }

  lemma AcceptedLeaf(j: Json, env: Env)
    requires AcceptedPlain(j) && ReadableLeaf(j) && Quiet(env)
    ensures Leaf(j, env).Value?
  {
    hide Prop, KnownSource, OperatorOf, TextOf;
    TextOrNot(Prop(Some(j), Text("value")));
    var reading := ReadSource(Some(j), env);
    assert reading.Got? && MaybeText(reading.value).Some?;
  }

  /** Only values without a text have no numeral. */
  lemma TextOrNot(v: Option<Json>)
    ensures MaybeText(v).Some? <==> !NumeralOf(v).NotConvertible?
  {
    if v.Some? && !v.value.Arr? && !v.value.Obj? {
      assert TextOf(v.value).Some?;
    }
    hide TextOf;
  }
}
