/** What a leaf condition decides, operator by operator: from the name in its operator property to the
    value read, its literal and the host operation asked. */
module ConditionLeaves {
  import opened Common
  import opened Json
  import opened ConditionMeaning

  function OperatorName(c: Json): Option<Json> { Prop(Some(c), Text("operator")) }

  function Literal(c: Json): Option<Json> { Prop(Some(c), Text("value")) }

  /** The source of a leaf, or of the other side it names, is one of the four, and gives this value. */
  predicate Reads(source: Option<Json>, env: Env, v: Option<Json>) {
    var name := Prop(source, Text("source"));
    && name in {Some(Str(Text("attribute"))), Some(Str(Text("segment"))), Some(Str(Text("context"))), Some(Str(Text("score")))}
    && env.read(name, Seen(Prop(source, Text("key")))) == Got(v)
  }

  /** The leaf compares what it reads with the literal in its value property. */
  predicate ComparesLiteral(c: Json, env: Env, actual: Option<Json>) {
    Reads(Some(c), env, actual) && !Truthy(Prop(Some(c), Text("value_source")))
  }

  const OPERATORS: set<string> :=
    {"equals", "not_equals", "greater_than", "greater_than_or_equal", "less_than", "less_than_or_equal",
     "in", "not_in", "contains", "not_contains", "is_blank", "is_not_blank",
     "matches_regex", "within_last_days", "before_date", "after_date"}

  // ----- The names ---------------------------------------------------------

  /** Tells the operator names apart: no two agree in length and first letter. */
  function Code(name: Units): nat {
    if name == [] then 0 else |name| * 0x1_0000 + name[0]
  }

  lemma CodeOf(s: string)
    requires s != [] && (s[0] as int) < 0x1_0000
    ensures Code(Text(s)) == |s| * 0x1_0000 + s[0] as int
  {
    assert Text(s)[0] == s[0] as int;
  }

  lemma Codes1()
    ensures Code(Text("equals")) == 6 * 0x1_0000 + 101
    ensures Code(Text("not_equals")) == 10 * 0x1_0000 + 110
    ensures Code(Text("greater_than")) == 12 * 0x1_0000 + 103
    ensures Code(Text("greater_than_or_equal")) == 21 * 0x1_0000 + 103
  {
    hide Text, Code;
    CodeOf("equals");
    CodeOf("not_equals");
    CodeOf("greater_than");
    CodeOf("greater_than_or_equal");
  }

  lemma Codes2()
    ensures Code(Text("less_than")) == 9 * 0x1_0000 + 108
    ensures Code(Text("less_than_or_equal")) == 18 * 0x1_0000 + 108
    ensures Code(Text("in")) == 2 * 0x1_0000 + 105
    ensures Code(Text("not_in")) == 6 * 0x1_0000 + 110
  {
    hide Text, Code;
    CodeOf("less_than");
    CodeOf("less_than_or_equal");
    CodeOf("in");
    CodeOf("not_in");
  }

  lemma Codes3()
    ensures Code(Text("contains")) == 8 * 0x1_0000 + 99
    ensures Code(Text("not_contains")) == 12 * 0x1_0000 + 110
    ensures Code(Text("is_blank")) == 8 * 0x1_0000 + 105
    ensures Code(Text("is_not_blank")) == 12 * 0x1_0000 + 105
  {
    hide Text, Code;
    CodeOf("contains");
    CodeOf("not_contains");
    CodeOf("is_blank");
    CodeOf("is_not_blank");
  }

  lemma Codes4()
    ensures Code(Text("matches_regex")) == 13 * 0x1_0000 + 109
    ensures Code(Text("within_last_days")) == 16 * 0x1_0000 + 119
    ensures Code(Text("before_date")) == 11 * 0x1_0000 + 98
    ensures Code(Text("after_date")) == 10 * 0x1_0000 + 97
  {
    hide Text, Code;
    CodeOf("matches_regex");
    CodeOf("within_last_days");
    CodeOf("before_date");
    CodeOf("after_date");
  }

  lemma OperatorNames(op: Option<Json>)
    ensures IsName(op, "equals") ==> OperatorOf(op) == Some(Equals)
    ensures IsName(op, "not_equals") ==> OperatorOf(op) == Some(NotEquals)
    ensures IsName(op, "greater_than") ==> OperatorOf(op) == Some(GreaterThan)
    ensures IsName(op, "greater_than_or_equal") ==> OperatorOf(op) == Some(GreaterThanOrEqual)
    ensures IsName(op, "less_than") ==> OperatorOf(op) == Some(LessThan)
    ensures IsName(op, "less_than_or_equal") ==> OperatorOf(op) == Some(LessThanOrEqual)
    ensures IsName(op, "in") ==> OperatorOf(op) == Some(In)
    ensures IsName(op, "not_in") ==> OperatorOf(op) == Some(NotIn)
    ensures IsName(op, "contains") ==> OperatorOf(op) == Some(Contains)
    ensures IsName(op, "not_contains") ==> OperatorOf(op) == Some(NotContains)
    ensures IsName(op, "is_blank") ==> OperatorOf(op) == Some(Blank)
    ensures IsName(op, "is_not_blank") ==> OperatorOf(op) == Some(NotBlank)
    ensures IsName(op, "matches_regex") ==> OperatorOf(op) == Some(Matches)
    ensures IsName(op, "within_last_days") ==> OperatorOf(op) == Some(WithinLastDays)
    ensures IsName(op, "before_date") ==> OperatorOf(op) == Some(BeforeDate)
    ensures IsName(op, "after_date") ==> OperatorOf(op) == Some(AfterDate)
  {
    hide Text, Code;
    Codes1();
    Codes2();
    Codes3();
    Codes4();
  }

  // ----- When a leaf has an answer -----------------------------------------

  lemma LiteralLeaf(c: Json, env: Env, actual: Option<Json>, op: Operator)
    requires ComparesLiteral(c, env, actual) && OperatorOf(OperatorName(c)) == Some(op)
    ensures Leaf(c, env) == CompareLiteral(op, actual, Literal(c), env)
  {
    hide OperatorOf, Prop, CompareLiteral, Text;
  }

  /** A leaf throws when its source or the other side's is none of the four or cannot be read, or its
      operator is none of the sixteen. */
  lemma Unsupported(c: Json, env: Env)
    requires var source, other := Prop(Some(c), Text("source")), Prop(Some(c), Text("value_source"));
             || (forall v :: !Reads(Some(c), env, v))
             || (Truthy(other) && forall v :: !Reads(other, env, v))
             || (forall name :: name in OPERATORS ==> !IsName(OperatorName(c), name))
    ensures Leaf(c, env) == Threw
  {
    hide Prop, Text, CompareLiteral;
    if forall name :: name in OPERATORS ==> !IsName(OperatorName(c), name) { NoOperator(OperatorName(c)); }
    hide OperatorOf;
    NotRead(Some(c), env);
    NotRead(Prop(Some(c), Text("value_source")), env);
  }

  lemma NotRead(source: Option<Json>, env: Env)
    ensures ReadSource(source, env).Got? ==> Reads(source, env, ReadSource(source, env).value)
  {
    hide Prop, Text;
  }

  lemma NoOperator(op: Option<Json>)
    requires forall name :: name in OPERATORS ==> !IsName(op, name)
    ensures OperatorOf(op) == None
  {
    hide Text, IsName;
  }

  // ----- From the name to the operation -------------------------------------

  lemma EqualityNamed(c: Json, env: Env, actual: Option<Json>)
    requires ComparesLiteral(c, env, actual)
    ensures IsName(OperatorName(c), "equals") ==> Leaf(c, env) == CompareLiteral(Equals, actual, Literal(c), env)
    ensures IsName(OperatorName(c), "not_equals") ==> Leaf(c, env) == CompareLiteral(NotEquals, actual, Literal(c), env)
  {
    hide OperatorOf, OperatorName, Prop, CompareLiteral, Text, Leaf, IsName, ComparesLiteral;
    OperatorNames(OperatorName(c));
    if OperatorOf(OperatorName(c)).Some? { LiteralLeaf(c, env, actual, OperatorOf(OperatorName(c)).value); }
  }

  lemma BlankNamed(c: Json, env: Env, actual: Option<Json>)
    requires ComparesLiteral(c, env, actual)
    ensures IsName(OperatorName(c), "is_blank") ==> Leaf(c, env) == CompareLiteral(Blank, actual, Literal(c), env)
    ensures IsName(OperatorName(c), "is_not_blank") ==> Leaf(c, env) == CompareLiteral(NotBlank, actual, Literal(c), env)
  {
    hide OperatorOf, OperatorName, Prop, CompareLiteral, Text, Leaf, IsName, ComparesLiteral;
    OperatorNames(OperatorName(c));
    if OperatorOf(OperatorName(c)).Some? { LiteralLeaf(c, env, actual, OperatorOf(OperatorName(c)).value); }
  }

  lemma ListNamed(c: Json, env: Env, actual: Option<Json>)
    requires ComparesLiteral(c, env, actual)
    ensures IsName(OperatorName(c), "in") ==> Leaf(c, env) == CompareLiteral(In, actual, Literal(c), env)
    ensures IsName(OperatorName(c), "not_in") ==> Leaf(c, env) == CompareLiteral(NotIn, actual, Literal(c), env)
  {
    hide OperatorOf, OperatorName, Prop, CompareLiteral, Text, Leaf, IsName, ComparesLiteral;
    OperatorNames(OperatorName(c));
    if OperatorOf(OperatorName(c)).Some? { LiteralLeaf(c, env, actual, OperatorOf(OperatorName(c)).value); }
  }

  lemma ContainmentNamed(c: Json, env: Env, actual: Option<Json>)
    requires ComparesLiteral(c, env, actual)
    ensures IsName(OperatorName(c), "contains") ==> Leaf(c, env) == CompareLiteral(Contains, actual, Literal(c), env)
    ensures IsName(OperatorName(c), "not_contains") ==> Leaf(c, env) == CompareLiteral(NotContains, actual, Literal(c), env)
  {
    hide OperatorOf, OperatorName, Prop, CompareLiteral, Text, Leaf, IsName, ComparesLiteral;
    OperatorNames(OperatorName(c));
    if OperatorOf(OperatorName(c)).Some? { LiteralLeaf(c, env, actual, OperatorOf(OperatorName(c)).value); }
  }

  lemma OrderNamed(c: Json, env: Env, actual: Option<Json>)
    requires ComparesLiteral(c, env, actual)
    ensures IsName(OperatorName(c), "greater_than") ==> Leaf(c, env) == CompareLiteral(GreaterThan, actual, Literal(c), env)
    ensures IsName(OperatorName(c), "greater_than_or_equal") ==> Leaf(c, env) == CompareLiteral(GreaterThanOrEqual, actual, Literal(c), env)
    ensures IsName(OperatorName(c), "less_than") ==> Leaf(c, env) == CompareLiteral(LessThan, actual, Literal(c), env)
    ensures IsName(OperatorName(c), "less_than_or_equal") ==> Leaf(c, env) == CompareLiteral(LessThanOrEqual, actual, Literal(c), env)
    ensures IsName(OperatorName(c), "within_last_days") ==> Leaf(c, env) == CompareLiteral(WithinLastDays, actual, Literal(c), env)
  {
    hide OperatorOf, OperatorName, Prop, CompareLiteral, Text, Leaf, IsName, ComparesLiteral;
    OperatorNames(OperatorName(c));
    if OperatorOf(OperatorName(c)).Some? { LiteralLeaf(c, env, actual, OperatorOf(OperatorName(c)).value); }
  }

  lemma TextNamed(c: Json, env: Env, actual: Option<Json>)
    requires ComparesLiteral(c, env, actual)
    ensures IsName(OperatorName(c), "matches_regex") ==> Leaf(c, env) == CompareLiteral(Matches, actual, Literal(c), env)
    ensures IsName(OperatorName(c), "before_date") ==> Leaf(c, env) == CompareLiteral(BeforeDate, actual, Literal(c), env)
    ensures IsName(OperatorName(c), "after_date") ==> Leaf(c, env) == CompareLiteral(AfterDate, actual, Literal(c), env)
  {
    hide OperatorOf, OperatorName, Prop, CompareLiteral, Text, Leaf, IsName, ComparesLiteral;
    OperatorNames(OperatorName(c));
    if OperatorOf(OperatorName(c)).Some? { LiteralLeaf(c, env, actual, OperatorOf(OperatorName(c)).value); }
  }

  // ----- Comparing with a literal ------------------------------------------

  /** Equality holds exactly for one scalar on both sides, or nothing on both. */
  lemma EqualityOperators(c: Json, env: Env, actual: Option<Json>)
    requires ComparesLiteral(c, env, actual)
    ensures var same := actual == Literal(c) && (actual.Some? ==> !actual.value.Arr? && !actual.value.Obj?);
            && (IsName(OperatorName(c), "equals") ==> Leaf(c, env) == Value(same))
            && (IsName(OperatorName(c), "not_equals") ==> Leaf(c, env) == Value(!same))
  {
    EqualityNamed(c, env, actual);
    hide OperatorOf, OperatorName, Literal, Prop, Text, Leaf, IsName, ComparesLiteral;
  }

  /** A value is blank exactly when nothing, null or the empty text was read. */
  lemma BlankOperators(c: Json, env: Env, actual: Option<Json>)
    requires ComparesLiteral(c, env, actual)
    ensures var blank := actual == None || actual == Some(Null) || actual == Some(Str([]));
            && (IsName(OperatorName(c), "is_blank") ==> Leaf(c, env) == Value(blank))
            && (IsName(OperatorName(c), "is_not_blank") ==> Leaf(c, env) == Value(!blank))
  {
    BlankNamed(c, env, actual);
    hide OperatorOf, OperatorName, Literal, Prop, Text, Leaf, IsName, ComparesLiteral;
  }

  /** Some scalar of the list equals the value. */
  predicate Member(v: Option<Json>, items: seq<Json>) {
    exists j :: j in items && !j.Arr? && !j.Obj? && v == Some(j)
  }

  /** On a literal list exactly one of the list operators holds, by membership of what was read; on any
      other literal neither does. */
  lemma ListOperators(c: Json, env: Env, actual: Option<Json>)
    requires ComparesLiteral(c, env, actual)
    ensures var list := Literal(c).Some? && Literal(c).value.Arr?;
            && (IsName(OperatorName(c), "in") ==> Leaf(c, env) == Value(list && Member(actual, Literal(c).value.items)))
            && (IsName(OperatorName(c), "not_in") ==> Leaf(c, env) == Value(list && !Member(actual, Literal(c).value.items)))
  {
    ListNamed(c, env, actual);
    hide OperatorOf, OperatorName, Literal, Prop, Text, Leaf, IsName, ComparesLiteral;
    if Literal(c).Some? && Literal(c).value.Arr? { IncludesMember(Literal(c).value.items, actual); }
  }

  lemma IncludesMember(items: seq<Json>, v: Option<Json>)
    ensures Includes(items, v) <==> Member(v, items)
  {
    if Member(v, items) {
      assert Identical(v, Some(v.value));
    }
  }

  /** The text of what was read: empty for what is falsy. */
  function TextRead(actual: Option<Json>): Option<Units> {
    if actual == None || actual == Some(Null) || actual == Some(Bool(false)) || actual == Some(Number([48])) || actual == Some(Str([])) then Some([])
    else TextOf(actual.value)
  }

  lemma TextReadIs(actual: Option<Json>)
    ensures TextRead(actual) == ActualText(actual)
  {
    hide Text, TextOf;
  }

  /** The text stands somewhere in the whole. */
  ghost predicate Occurs(part: Units, whole: Units) {
    exists before, after :: whole == before + part + after
  }

  lemma SubstringOccurs(part: Units, whole: Units)
    ensures Substring(part, whole) <==> Occurs(part, whole)
  {
    if Substring(part, whole) {
      var i :| 0 <= i <= |whole| && PartAt(part, whole, i);
      assert whole == whole[..i] + part + whole[i + |part|..];
    }
    if Occurs(part, whole) {
      var before, after :| whole == before + part + after;
      assert PartAt(part, whole, |before|);
    }
  }

  /** Containment is membership in an array that was read, and otherwise occurrence of the literal's text
      in the text read; it throws when one of the two has no text. */
  lemma ContainmentOperators(c: Json, env: Env, actual: Option<Json>)
    requires ComparesLiteral(c, env, actual)
    ensures var list := actual.Some? && actual.value.Arr?;
            var whole, part := TextRead(actual), MaybeText(Literal(c));
            var throws := !list && (whole.None? || part.None?);
            var holds := if list then Member(Literal(c), actual.value.items)
                         else !throws && Occurs(part.value, whole.value);
            && (IsName(OperatorName(c), "contains") ==> Leaf(c, env) == if throws then Threw else Value(holds))
            && (IsName(OperatorName(c), "not_contains") ==> Leaf(c, env) == if throws then Threw else Value(!holds))
  {
    ContainmentNamed(c, env, actual);
    hide OperatorOf, OperatorName, Literal, Prop, Text, Leaf, IsName, ComparesLiteral, TextOf, TextRead, ActualText, MaybeText, Substring, Occurs, Includes, Member;
    TextReadIs(actual);
    if IsArr(actual) {
      IncludesMember(actual.value.items, Literal(c));
    } else if TextRead(actual).Some? && MaybeText(Literal(c)).Some? {
      SubstringOccurs(MaybeText(Literal(c)).value, TextRead(actual).value);
    }
  }

  /** The order operators ask the host to compare what was read with the literal's numeral, each under
      its own sign; a literal object that cannot be converted throws. */
  lemma OrderOperators(c: Json, env: Env, actual: Option<Json>)
    requires ComparesLiteral(c, env, actual)
    ensures var n := NumeralOf(Literal(c));
            && (IsName(OperatorName(c), "greater_than") ==> Leaf(c, env) == Asked(n, env.order(GreaterThan, actual, n)))
            && (IsName(OperatorName(c), "greater_than_or_equal") ==>
                  Leaf(c, env) == Asked(n, env.order(GreaterThanOrEqual, actual, n)))
            && (IsName(OperatorName(c), "less_than") ==> Leaf(c, env) == Asked(n, env.order(LessThan, actual, n)))
            && (IsName(OperatorName(c), "less_than_or_equal") ==>
                  Leaf(c, env) == Asked(n, env.order(LessThanOrEqual, actual, n)))
            && (IsName(OperatorName(c), "within_last_days") ==>
                  Leaf(c, env) == Asked(n, env.order(WithinLastDays, actual, n)))
  {
    OrderNamed(c, env, actual);
    hide OperatorOf, OperatorName, Literal, Prop, Text, Leaf, IsName, ComparesLiteral, NumeralOf, Asked, CompareLiteral;
    forall op | IsNumeric(op)
      ensures CompareLiteral(op, actual, Literal(c), env) ==
              Asked(NumeralOf(Literal(c)), env.order(op, actual, NumeralOf(Literal(c))))
    {
      ByNumber(op, actual, Literal(c), env);
    }
  }

  lemma ByNumber(op: Operator, actual: Option<Json>, literal: Option<Json>, env: Env)
    requires IsNumeric(op)
    ensures CompareLiteral(op, actual, literal, env) == Asked(NumeralOf(literal), env.order(op, actual, NumeralOf(literal)))
  {
    hide NumeralOf;
  }

  function Asked(n: Numeral, answer: Outcome): Outcome {
    if n.NotConvertible? then Threw else answer
  }

  /** The pattern is the literal's text and is tried on the text read. */
  lemma PatternOperator(c: Json, env: Env, actual: Option<Json>)
    requires ComparesLiteral(c, env, actual) && IsName(OperatorName(c), "matches_regex")
    ensures var whole, pattern := TextRead(actual), MaybeText(Literal(c));
            Leaf(c, env) == if whole.None? || pattern.None? then Threw else env.matches(pattern.value, whole.value)
  {
    TextNamed(c, env, actual);
    hide OperatorOf, OperatorName, Literal, Prop, Text, Leaf, IsName, ComparesLiteral, TextOf, TextRead, ActualText, MaybeText;
    TextReadIs(actual);
  }

  /** The date operators hand over what was read and the literal's text, each under its own name. */
  lemma DateOperators(c: Json, env: Env, actual: Option<Json>)
    requires ComparesLiteral(c, env, actual)
    ensures var date := MaybeText(Literal(c));
            && (IsName(OperatorName(c), "before_date") ==>
                  Leaf(c, env) == if date.None? then Threw else env.dates(BeforeDate, actual, date.value))
            && (IsName(OperatorName(c), "after_date") ==>
                  Leaf(c, env) == if date.None? then Threw else env.dates(AfterDate, actual, date.value))
  {
    TextNamed(c, env, actual);
    hide OperatorOf, OperatorName, Literal, Prop, Text, Leaf, IsName, ComparesLiteral, MaybeText, CompareLiteral;
    ByDate(actual, Literal(c), env);
  }

  lemma ByDate(actual: Option<Json>, literal: Option<Json>, env: Env)
    ensures var date := MaybeText(literal);
            && CompareLiteral(BeforeDate, actual, literal, env) ==
               (if date.None? then Threw else env.dates(BeforeDate, actual, date.value))
            && CompareLiteral(AfterDate, actual, literal, env) ==
               (if date.None? then Threw else env.dates(AfterDate, actual, date.value))
  {
    hide MaybeText;
  }

  // ----- Comparing two values read -----------------------------------------

  lemma OtherLeaf(c: Json, env: Env, actual: Option<Json>, expected: Option<Json>, op: Operator)
    requires var other := Prop(Some(c), Text("value_source"));
             Reads(Some(c), env, actual) && Truthy(other) && Reads(other, env, expected)
    requires OperatorOf(OperatorName(c)) == Some(op)
    ensures Leaf(c, env) == env.against(op, actual, expected)
  {
    hide OperatorOf, Prop, Text, CompareLiteral;
  }

  /** With another source on the right, the host compares the two values read, under the operator named. */
  lemma OtherSource(c: Json, env: Env, actual: Option<Json>, expected: Option<Json>)
    requires var other := Prop(Some(c), Text("value_source"));
             Reads(Some(c), env, actual) && Truthy(other) && Reads(other, env, expected)
    ensures IsName(OperatorName(c), "equals") ==> Leaf(c, env) == env.against(Equals, actual, expected)
    ensures IsName(OperatorName(c), "not_equals") ==> Leaf(c, env) == env.against(NotEquals, actual, expected)
    ensures IsName(OperatorName(c), "greater_than") ==> Leaf(c, env) == env.against(GreaterThan, actual, expected)
    ensures IsName(OperatorName(c), "greater_than_or_equal") ==> Leaf(c, env) == env.against(GreaterThanOrEqual, actual, expected)
    ensures IsName(OperatorName(c), "less_than") ==> Leaf(c, env) == env.against(LessThan, actual, expected)
    ensures IsName(OperatorName(c), "less_than_or_equal") ==> Leaf(c, env) == env.against(LessThanOrEqual, actual, expected)
    ensures IsName(OperatorName(c), "in") ==> Leaf(c, env) == env.against(In, actual, expected)
    ensures IsName(OperatorName(c), "not_in") ==> Leaf(c, env) == env.against(NotIn, actual, expected)
    ensures IsName(OperatorName(c), "contains") ==> Leaf(c, env) == env.against(Contains, actual, expected)
    ensures IsName(OperatorName(c), "not_contains") ==> Leaf(c, env) == env.against(NotContains, actual, expected)
    ensures IsName(OperatorName(c), "is_blank") ==> Leaf(c, env) == env.against(Blank, actual, expected)
    ensures IsName(OperatorName(c), "is_not_blank") ==> Leaf(c, env) == env.against(NotBlank, actual, expected)
    ensures IsName(OperatorName(c), "matches_regex") ==> Leaf(c, env) == env.against(Matches, actual, expected)
    ensures IsName(OperatorName(c), "within_last_days") ==> Leaf(c, env) == env.against(WithinLastDays, actual, expected)
    ensures IsName(OperatorName(c), "before_date") ==> Leaf(c, env) == env.against(BeforeDate, actual, expected)
    ensures IsName(OperatorName(c), "after_date") ==> Leaf(c, env) == env.against(AfterDate, actual, expected)
  {
    hide OperatorOf, OperatorName, Prop, Text, IsName, Leaf, Reads;
    OperatorNames(OperatorName(c));
    if OperatorOf(OperatorName(c)).Some? { OtherLeaf(c, env, actual, expected, OperatorOf(OperatorName(c)).value); }
  }

  // ----- Conversions -------------------------------------------------------

  lemma {:induction false} JoinedAppend(a: seq<Json>, b: seq<Json>)
    requires a != [] && b != []
    ensures var x, y := Joined(a), Joined(b);
            Joined(a + b) == if x.None? || y.None? then None else Some(x.value + [COMMA] + y.value)
  {
    hide ItemText;
    assert (a + b)[0] == a[0];
    if |a| == 1 {
      assert (a + b)[1..] == b;
    } else {
      assert (a + b)[1..] == a[1..] + b;
      JoinedAppend(a[1..], b);
      if ItemText(a[0]).Some? && Joined(a[1..]).Some? && Joined(b).Some? {
        var first, x, y := ItemText(a[0]).value, Joined(a[1..]).value, Joined(b).value;
        assert first + [COMMA] + (x + [COMMA] + y) == first + [COMMA] + x + [COMMA] + y;
      }
    }
  }

  /** The text of a list: the texts of its parts with a comma between them, nothing for null. */
  lemma ListText(a: seq<Json>, b: seq<Json>)
    requires a != [] && b != []
    ensures var x, y := TextOf(Arr(a)), TextOf(Arr(b));
            TextOf(Arr(a + b)) == if x.None? || y.None? then None else Some(x.value + [COMMA] + y.value)
    ensures |a| == 1 ==> TextOf(Arr(a)) == if a[0].Null? then Some([]) else TextOf(a[0])
    ensures |a| == 1 && a[0].Str? ==> TextOf(Arr(a)) == Some(a[0].s)
  {
    JoinedAppend(a, b);
    hide Joined;
    ListIsJoined(a);
    ListIsJoined(b);
    ListIsJoined(a + b);
    if |a| == 1 { OneItem(a); }
  }

  lemma ListIsJoined(items: seq<Json>)
    ensures TextOf(Arr(items)) == Joined(items)
  {
    hide Joined;
  }

  lemma OneItem(items: seq<Json>)
    requires |items| == 1
    ensures Joined(items) == ItemText(items[0])
    ensures ItemText(items[0]) == if items[0].Null? then Some([]) else TextOf(items[0])
    ensures items[0].Str? ==> TextOf(items[0]) == Some(items[0].s)
  {
  }
}
