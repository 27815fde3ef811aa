/** Cache keys of client results: which inputs share a key. */
module CacheKey {
  import opened Common
  import opened Json
  import opened CanonicalJson

  /** The property names and scopes that keys are made of. */
  datatype Name =
    | DecisionKey
    | RuleVersion
    | Scope
    | ExperimentOverride
    | SessionId
    | SessionIdCamel
    | RequestName
    | ProfileKey
    | ContextName
    | ForceVariant
    | ForcedVariants
    | ForceHoldout
    | Holdout
    | ForcedHoldouts
    | Profile
    | Global
    | Session

  /** Their UTF-16 code units. */
  function Spelling(n: Name): Units {
    match n
    case DecisionKey => [100, 101, 99, 105, 115, 105, 111, 110, 95, 107, 101, 121]  // decision_key
    case RuleVersion => [114, 117, 108, 101, 95, 118, 101, 114, 115, 105, 111, 110]  // rule_version
    case Scope => [115, 99, 111, 112, 101]  // scope
    case ExperimentOverride => [101, 120, 112, 101, 114, 105, 109, 101, 110, 116, 95, 111, 118, 101, 114, 114, 105, 100, 101]  // experiment_override
    case SessionId => [115, 101, 115, 115, 105, 111, 110, 95, 105, 100]  // session_id
    case SessionIdCamel => [115, 101, 115, 115, 105, 111, 110, 73, 100]  // sessionId
    case RequestName => [114, 101, 113, 117, 101, 115, 116]  // request
    case ProfileKey => [112, 114, 111, 102, 105, 108, 101, 95, 107, 101, 121]  // profile_key
    case ContextName => [99, 111, 110, 116, 101, 120, 116]  // context
    case ForceVariant => [102, 111, 114, 99, 101, 95, 118, 97, 114, 105, 97, 110, 116]  // force_variant
    case ForcedVariants => [102, 111, 114, 99, 101, 100, 95, 118, 97, 114, 105, 97, 110, 116, 115]  // forced_variants
    case ForceHoldout => [102, 111, 114, 99, 101, 95, 104, 111, 108, 100, 111, 117, 116]  // force_holdout
    case Holdout => [104, 111, 108, 100, 111, 117, 116]  // holdout
    case ForcedHoldouts => [102, 111, 114, 99, 101, 100, 95, 104, 111, 108, 100, 111, 117, 116, 115]  // forced_holdouts
    case Profile => [112, 114, 111, 102, 105, 108, 101]  // profile
    case Global => [103, 108, 111, 98, 97, 108]  // global
    case Session => [115, 101, 115, 115, 105, 111, 110]  // session
  }

  /** A digest that does not collide. */
  datatype Digest = Digest(text: Units)

  /** `a || b` and `a ?? b` */
  function OrElse(a: Option<Json>, b: Option<Json>): Option<Json> {
    if Truthy(a) then a else b
  }

  function Coalesce(a: Option<Json>, b: Option<Json>): Option<Json> {
    if a.None? || a.value.Null? then b else a
  }

  function OrNull(a: Option<Json>): Json {
    if a.None? then Null else a.value
  }

  // ----- keyFor ------------------------------------------------------------

  /** `scope` is empty when the rule set has no cache policy or no scope. */
  datatype Input = Input(decisionKey: Units, version: Units, scope: Units, request: Json)

  /** What request validation guarantees: an object with a profile key. */
  predicate ValidInput(i: Input) {
    && NumberText(i.version)
    && i.request.Obj? && Valid(i.request)
    && var p := Prop(Some(i.request), Spelling(ProfileKey)); p.Some? && p.value.Str?
  }

  function ScopeOf(i: Input): Units {
    if i.scope == [] then Spelling(Profile) else i.scope
  }

  function Context(i: Input): Option<Json> {
    Prop(Some(i.request), Spelling(ContextName))
  }

  /** `experimentOverrideFor` */
  function Override(i: Input): Json {
    var context := Context(i);
    var variant := OrNull(OrElse(OrElse(Prop(context, Spelling(ForceVariant)),
                                        Prop(Prop(context, Spelling(ForcedVariants)), i.decisionKey)), Some(Null)));
    var holdout := OrNull(Coalesce(Prop(context, Spelling(ForceHoldout)),
                                   Coalesce(Prop(context, Spelling(Holdout)),
                                            Prop(Prop(context, Spelling(ForcedHoldouts)), i.decisionKey))));
    if Truthy(Some(variant)) || !holdout.Null?
    then Obj([Field(Spelling(ForceVariant), variant), Field(Spelling(ForceHoldout), holdout)])
    else Null
  }

  /** The part of the key that only this scope looks at. */
  function OwnPart(i: Input): seq<Field> {
    var scope, request := ScopeOf(i), Some(i.request);
    if scope == Spelling(Global) then []
    else if scope == Spelling(Session) then
      [Field(Spelling(SessionId),
             OrNull(OrElse(OrElse(Prop(Context(i), Spelling(SessionId)), Prop(Context(i), Spelling(SessionIdCamel))),
                           Prop(request, Spelling(ProfileKey)))))]
    else if scope == Spelling(RequestName) then [Field(Spelling(RequestName), i.request)]
    else [Field(Spelling(ProfileKey), OrNull(Prop(request, Spelling(ProfileKey))))]
  }

  function Base(i: Input): seq<Field> {
    [Field(Spelling(DecisionKey), Str(i.decisionKey)), Field(Spelling(RuleVersion), Number(i.version)),
     Field(Spelling(Scope), Str(ScopeOf(i))), Field(Spelling(ExperimentOverride), Override(i))]
  }

  function KeyFor(i: Input): Digest {
    Digest(Stable(Obj(Base(i) + OwnPart(i))))
  }

  // ----- When two inputs share a key ---------------------------------------

  lemma {:induction false} LookupValid(fields: seq<Field>, key: Units)
    requires forall i :: 0 <= i < |fields| ==> Valid(fields[i].value)
    ensures Lookup(fields, key).Some? ==> Valid(Lookup(fields, key).value)
  {
    if fields != [] && fields[0].key != key { LookupValid(fields[1..], key); }
  }

  lemma PropValid(value: Option<Json>, key: Units)
    requires value.Some? ==> Valid(value.value)
    ensures Prop(value, key).Some? ==> Valid(Prop(value, key).value)
  {
    if value.Some? && value.value.Obj? { LookupValid(value.value.fields, key); }
  }

  /** The keys used together differ pairwise. */
  lemma SpellingsDiffer(a: Name, b: Name)
    requires a != b
    requires a in {DecisionKey, RuleVersion, Scope, ExperimentOverride}
    requires b in {DecisionKey, RuleVersion, Scope, ExperimentOverride, SessionId, RequestName, ProfileKey}
    ensures Spelling(a) != Spelling(b)
  {
    assert |Spelling(a)| != |Spelling(b)| || Spelling(a)[0] != Spelling(b)[0];
  }

  lemma ForceKeysDiffer()
    ensures Spelling(ForceVariant) != Spelling(ForceHoldout)
  {
    assert Spelling(ForceVariant)[6] != Spelling(ForceHoldout)[6];
  }

  lemma OverrideValid(i: Input)
    requires ValidInput(i)
    ensures Valid(Override(i))
  {
    hide Spelling, Prop;
    ForceKeysDiffer();
    var request, context := Some(i.request), Context(i);
    PropValid(request, Spelling(ContextName));
    PropValid(context, Spelling(ForceVariant));
    PropValid(context, Spelling(ForcedVariants));
    PropValid(context, Spelling(ForceHoldout));
    PropValid(context, Spelling(Holdout));
    PropValid(context, Spelling(ForcedHoldouts));
    PropValid(Prop(context, Spelling(ForcedVariants)), i.decisionKey);
    PropValid(Prop(context, Spelling(ForcedHoldouts)), i.decisionKey);
  }

  lemma OwnPartValid(i: Input)
    requires ValidInput(i)
    ensures |OwnPart(i)| <= 1 && forall k :: 0 <= k < |OwnPart(i)| ==> Valid(OwnPart(i)[k].value)
  {
    hide Spelling, Prop;
    PropValid(Some(i.request), Spelling(ContextName));
    PropValid(Some(i.request), Spelling(ProfileKey));
    PropValid(Context(i), Spelling(SessionId));
    PropValid(Context(i), Spelling(SessionIdCamel));
  }

  lemma KeyFieldsValid(i: Input)
    requires ValidInput(i)
    ensures Valid(Obj(Base(i) + OwnPart(i)))
  {
    hide Spelling, Prop, Override, OwnPart;
    OverrideValid(i);
    OwnPartValid(i);
    KeyFieldsDistinct(i);
  }

  lemma KeyFieldsDistinct(i: Input)
    ensures DistinctKeys(Base(i) + OwnPart(i))
  {
    hide Spelling, Override, Prop;
    var base := [DecisionKey, RuleVersion, Scope, ExperimentOverride];
    forall m, n | 0 <= m < n < 4
      ensures Spelling(base[m]) != Spelling(base[n])
    {
      SpellingsDiffer(base[m], base[n]);
    }
    forall m, b | 0 <= m < 4 && b in {SessionId, RequestName, ProfileKey}
      ensures Spelling(base[m]) != Spelling(b)
    {
      SpellingsDiffer(base[m], b);
    }
    assert forall m :: 0 <= m < 4 ==> Base(i)[m].key == Spelling(base[m]);
  }

  /** Objects with the same keys in the same places are equal up to key order exactly when their
      values are, place by place. */
  lemma SameByPlace(x: seq<Field>, y: seq<Field>)
    requires DistinctKeys(x) && |x| == |y| && forall i :: 0 <= i < |x| ==> x[i].key == y[i].key
    ensures Same(Obj(x), Obj(y)) <==> forall i :: 0 <= i < |x| ==> Same(x[i].value, y[i].value)
  {
    forall i | 0 <= i < |x|
      ensures HasKey(x, y[i].key) && HasKey(y, x[i].key)
    {
      assert x[i].key == y[i].key;
    }
  }

  /** Two requests share a cache key exactly when decision key, version, scope, experiment override
      and the scope's own part agree, values being compared up to key order. */
  lemma SharedKeyIff(a: Input, b: Input)
    requires ValidInput(a) && ValidInput(b)
    ensures KeyFor(a) == KeyFor(b) <==>
              && a.decisionKey == b.decisionKey && a.version == b.version && ScopeOf(a) == ScopeOf(b)
              && Same(Override(a), Override(b))
              && Same(Obj(OwnPart(a)), Obj(OwnPart(b)))
  {
    var x, y := Base(a) + OwnPart(a), Base(b) + OwnPart(b);
    KeyFieldsValid(a);
    KeyFieldsValid(b);
    StableIff(Obj(x), Obj(y));
    if ScopeOf(a) == ScopeOf(b) {
      SameScope(a, b);
    } else if Same(Obj(x), Obj(y)) {
      ScopesAgree(a, b);
    }
  }

  lemma ScopesAgree(a: Input, b: Input)
    requires Same(Obj(Base(a) + OwnPart(a)), Obj(Base(b) + OwnPart(b)))
    ensures ScopeOf(a) == ScopeOf(b)
  {
    hide Spelling, Override, OwnPart;
    var x, y := Base(a) + OwnPart(a), Base(b) + OwnPart(b);
    assert x[2].key == y[2].key;
    assert Same(x[2].value, y[2].value);
  }

  lemma SameScope(a: Input, b: Input)
    requires ScopeOf(a) == ScopeOf(b)
    ensures Same(Obj(Base(a) + OwnPart(a)), Obj(Base(b) + OwnPart(b))) <==>
              && a.decisionKey == b.decisionKey && a.version == b.version
              && Same(Override(a), Override(b))
              && Same(Obj(OwnPart(a)), Obj(OwnPart(b)))
  {
    hide Spelling, Override, OwnPart, Same, Base;
    KeyFieldsDistinct(a);
    OwnPartsAlign(a, b);
    BasesAlign(a, b);
    SameAppended(Base(a), Base(b), OwnPart(a), OwnPart(b));
  }

  predicate Aligned(x: seq<Field>, y: seq<Field>) {
    |x| == |y| && forall i :: 0 <= i < |x| ==> x[i].key == y[i].key
  }

  predicate SamePlaces(x: seq<Field>, y: seq<Field>)
    requires |x| == |y|
  {
    forall i :: 0 <= i < |x| ==> Same(x[i].value, y[i].value)
  }

  lemma SameAppended(x: seq<Field>, y: seq<Field>, x': seq<Field>, y': seq<Field>)
    requires Aligned(x, y) && Aligned(x', y') && DistinctKeys(x + x') && DistinctKeys(x')
    ensures Same(Obj(x + x'), Obj(y + y')) <==> SamePlaces(x, y) && Same(Obj(x'), Obj(y'))
  {
    SameByPlace(x + x', y + y');
    SameByPlace(x', y');
    hide Same;
    var xs, ys := x + x', y + y';
    assert forall i :: 0 <= i < |x| ==> xs[i] == x[i] && ys[i] == y[i];
    forall i | 0 <= i < |x'|
      ensures x'[i] == xs[|x| + i] && y'[i] == ys[|x| + i]
    {
    }
    if SamePlaces(x, y) && SamePlaces(x', y') {
      forall i | 0 <= i < |xs|
        ensures Same(xs[i].value, ys[i].value)
      {
        if i >= |x| { assert xs[i] == x'[i - |x|] && ys[i] == y'[i - |x|]; }
      }
    }
  }

  lemma BasesAlign(a: Input, b: Input)
    requires ScopeOf(a) == ScopeOf(b)
    ensures Aligned(Base(a), Base(b))
    ensures SamePlaces(Base(a), Base(b)) <==>
              a.decisionKey == b.decisionKey && a.version == b.version && Same(Override(a), Override(b))
  {
    hide Spelling, Override, ScopeOf;
    var x, y := Base(a), Base(b);
    assert Same(x[0].value, y[0].value) <==> a.decisionKey == b.decisionKey;
    assert Same(x[1].value, y[1].value) <==> a.version == b.version;
    assert Same(x[2].value, y[2].value);
    assert Same(x[3].value, y[3].value) <==> Same(Override(a), Override(b));
  }

  lemma OwnPartsAlign(a: Input, b: Input)
    requires ScopeOf(a) == ScopeOf(b)
    ensures Aligned(OwnPart(a), OwnPart(b)) && DistinctKeys(OwnPart(a))
  {
    hide Spelling, Prop;
  }

  // ----- What each scope shares --------------------------------------------

  predicate Present(v: Option<Json>) {
    v.Some? && !v.value.Null?
  }

  /** The session a request belongs to: the first usable of two context entries, else its profile. */
  function SessionOf(i: Input): Json {
    var snake, camel := Prop(Context(i), Spelling(SessionId)), Prop(Context(i), Spelling(SessionIdCamel));
    if Truthy(snake) then snake.value else if Truthy(camel) then camel.value else OrNull(Prop(Some(i.request), Spelling(ProfileKey)))
  }

  lemma ScopeNamesDiffer()
    ensures Spelling(Global) != Spelling(Session) && Spelling(Global) != Spelling(RequestName) && Spelling(Session) != Spelling(RequestName)
  {
    assert Spelling(Session)[2] != Spelling(RequestName)[2];
  }

  lemma SameSingleton(f: Field, g: Field)
    requires f.key == g.key
    ensures Same(Obj([f]), Obj([g])) <==> Same(f.value, g.value)
  {
    SameByPlace([f], [g]);
    assert [f][0] == f && [g][0] == g;
  }

  /** Inputs that agree on rule, version, scope and override share a key: always under the global
      scope, per session or profile under those, and under the request scope exactly when the whole
      requests are equal up to key order. */
  lemma SharedKeyByScope(a: Input, b: Input)
    requires ValidInput(a) && ValidInput(b)
    requires a.decisionKey == b.decisionKey && a.version == b.version && ScopeOf(a) == ScopeOf(b)
    requires Same(Override(a), Override(b))
    ensures KeyFor(a) == KeyFor(b) <==>
              if ScopeOf(a) == Spelling(Global) then true
              else if ScopeOf(a) == Spelling(Session) then Same(SessionOf(a), SessionOf(b))
              else if ScopeOf(a) == Spelling(RequestName) then Same(a.request, b.request)
              else Prop(Some(a.request), Spelling(ProfileKey)) == Prop(Some(b.request), Spelling(ProfileKey))
  {
    SharedKeyIff(a, b);
    ScopeNamesDiffer();
    hide Spelling, Prop, Override, KeyFor, Same;
    var scope := ScopeOf(a);
    if scope == Spelling(Global) {
      NothingSame();
    } else if scope == Spelling(Session) {
      SameSingleton(Field(Spelling(SessionId), SessionOf(a)), Field(Spelling(SessionId), SessionOf(b)));
    } else if scope == Spelling(RequestName) {
      SameSingleton(Field(Spelling(RequestName), a.request), Field(Spelling(RequestName), b.request));
    } else {
      var p, q := Prop(Some(a.request), Spelling(ProfileKey)), Prop(Some(b.request), Spelling(ProfileKey));
      SameSingleton(Field(Spelling(ProfileKey), p.value), Field(Spelling(ProfileKey), q.value));
      TextsSame(p.value, q.value);
    }
  }

  lemma NothingSame()
    ensures Same(Obj([]), Obj([]))
  {
  }

  lemma TextsSame(a: Json, b: Json)
    requires a.Str? && b.Str?
    ensures Same(a, b) <==> a == b
  {
  }

  /** There is an override exactly when some variant or holdout is forced; what the context forces for
      every rule wins over what it forces for this one, and a part that nothing forces is null. */
  lemma OverridePrecedence(i: Input)
    ensures var context := Context(i);
            var variant, holdout := Prop(context, Spelling(ForceVariant)), Prop(context, Spelling(ForceHoldout));
            var ownVariant := Prop(Prop(context, Spelling(ForcedVariants)), i.decisionKey);
            var ownHoldout := Prop(Prop(context, Spelling(ForcedHoldouts)), i.decisionKey);
            var o := Override(i);
            && (o == Null <==> !Truthy(variant) && !Truthy(ownVariant) && !Present(holdout)
                               && !Present(Prop(context, Spelling(Holdout))) && !Present(ownHoldout))
            && (Truthy(variant) ==> Prop(Some(o), Spelling(ForceVariant)) == variant)
            && (!Truthy(variant) && Truthy(ownVariant) ==> Prop(Some(o), Spelling(ForceVariant)) == ownVariant)
            && (Present(holdout) ==> Prop(Some(o), Spelling(ForceHoldout)) == holdout)
            && (!Present(holdout) && Present(Prop(context, Spelling(Holdout))) ==>
                  Prop(Some(o), Spelling(ForceHoldout)) == Prop(context, Spelling(Holdout)))
            && (!Present(holdout) && !Present(Prop(context, Spelling(Holdout))) && Present(ownHoldout) ==>
                  Prop(Some(o), Spelling(ForceHoldout)) == ownHoldout)
            && (o != Null && !Truthy(variant) && !Truthy(ownVariant) ==> Prop(Some(o), Spelling(ForceVariant)) == Some(Null))
            && (o != Null && !Present(holdout) && !Present(Prop(context, Spelling(Holdout))) && !Present(ownHoldout) ==>
                  Prop(Some(o), Spelling(ForceHoldout)) == Some(Null))
  {
    ForceKeysDiffer();
    var o := Override(i);
    if o.Obj? {
      OverrideFields(o);
    }
    hide Spelling, Prop;
  }

  lemma OverrideFields(o: Json)
    requires o.Obj? && |o.fields| == 2 && o.fields[0].key == Spelling(ForceVariant) && o.fields[1].key == Spelling(ForceHoldout)
    ensures Prop(Some(o), Spelling(ForceVariant)) == Some(o.fields[0].value)
    ensures Prop(Some(o), Spelling(ForceHoldout)) == Some(o.fields[1].value)
  {
    ForceKeysDiffer();
    hide Spelling;
    var rest := o.fields[1..];
    assert rest[0] == o.fields[1];
    assert Lookup(rest, Spelling(ForceHoldout)) == Some(rest[0].value);
  }
}
