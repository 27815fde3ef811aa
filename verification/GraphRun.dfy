/** `evaluateGraph`: walking a rule graph for one request, and when a graph accepted by the
    validator is sure to run to a terminal node. */
module GraphRun {
  import opened Common
  import opened RuleGraph
  import opened GraphCheck
  import D = Digraph
  import A = Assignment

  // ----- The environment ---------------------------------------------------

  /** What the environment answers at a node: an expression that throws, or the outcome of the
      condition, the event count, the hash of the experiment seed and a forced variant key ("" for none). */
  datatype Answer = Throws(message: string) | Answers(passed: bool, count: nat, hash: A.Word, forced: string)

  /** One answer per node id; a run asks at most once per node. */
  type Oracle = map<string, Answer>

  const SILENT := Answers(false, 0, 0, "")

  function Ask(o: Oracle, id: string): Answer {
    if id in o then o[id] else SILENT
  }

  ghost predicate NeverThrows(o: Oracle) {
    forall id :: id in o ==> !o[id].Throws?
  }

  // ----- Experiment splits -------------------------------------------------

  datatype Arm = Arm(key: string, weight: nat, route: Route)

  function ArmOf(v: Variant): Arm {
    Arm(Trim(if v.key != "" then v.key else v.alias), if v.weight < 0 then 0 else v.weight,
        if Truthy(v.route) then v.route else if Truthy(v.next) then v.next else Absent)
  }

  function KeepNamed(variants: seq<Variant>): seq<Arm> {
    if variants == [] then []
    else (if ArmOf(variants[0]).key != "" then [ArmOf(variants[0])] else []) + KeepNamed(variants[1..])
  }

  /** `normalizeGraphExperimentVariants` */
  function Arms(variants: seq<Variant>): seq<Arm> {
    if variants == [] then [Arm("control", 50, Absent), Arm("variant_a", 50, Absent)]
    else KeepNamed(variants)
  }

  function Weights(arms: seq<Arm>): (w: seq<nat>)
    ensures |w| == |arms|
  {
    seq(|arms|, i requires 0 <= i < |arms| => arms[i].weight)
  }

  function FindArm(arms: seq<Arm>, key: string): Option<Arm> {
    if arms == [] then None
    else if arms[0].key == key then Some(arms[0])
    else FindArm(arms[1..], key)
  }

  /** The forced arm when there is one, else the weighted choice. */
  function SelectArm(arms: seq<Arm>, ans: Answer): Option<Arm>
    requires ans.Answers?
  {
    var forced := if ans.forced == "" then None else FindArm(arms, ans.forced);
    if forced.Some? then forced
    else if arms == [] then None
    else Some(arms[A.Pick(Weights(arms), ans.hash, A.HASH_SPACE)])
  }

  function SplitRoute(node: Node, ans: Answer): Route
    requires ans.Answers?
  {
    match SelectArm(Arms(node.variants), ans)
    case Some(arm) => Or(arm.route, Or(Get(node, arm.key), Or(Get(node, "fallback"), Get(node, "next"))))
    case None => Or(Get(node, "undefined"), Or(Get(node, "fallback"), Get(node, "next")))
  }

  // ----- One step ----------------------------------------------------------

  datatype RunError =
    | NoNext
    | Circular(at: string)
    | NotFound
    | UnsupportedKind(kind: Kind)
    | TooDeep
    | Environment(message: string)

  datatype Move = Goto(route: Route) | Finish(result: string) | Fail(error: RunError)

  /** The cap that counts: `Number(node.max || 1)` */
  function EffectiveMax(node: Node): int {
    if node.max == 0 then 1 else node.max
  }

  function CappedRoute(node: Node): Route {
    Or(Get(node, "capped"), Or(Get(node, "false"), Get(node, "fallback")))
  }

  /** The kinds whose evaluation runs an expression or asks for events. */
  predicate MayThrow(kind: Kind) {
    kind in {Condition, Score, Lookup, FrequencyCap, Output, Fallback, Failure}
  }

  function NextMove(node: Node, ans: Answer): Move {
    if node.kind.Untyped? || node.kind.Unknown? then Fail(UnsupportedKind(node.kind))
    else if ans.Throws? && MayThrow(node.kind) then Fail(Environment(ans.message))
    else Proceed(node, if ans.Throws? then SILENT else ans)
  }

  function Proceed(node: Node, ans: Answer): Move
    requires ans.Answers?
  {
    match node.kind
    case Condition => Goto(Get(node, if ans.passed then "true" else "false"))
    case FrequencyCap => Goto(if EffectiveMax(node) <= ans.count then CappedRoute(node) else Get(node, "next"))
    case ExperimentSplit => Goto(SplitRoute(node, ans))
    case SubDecision => Goto(Or(Get(node, "fallback"), Get(node, "next")))
    case Output | Fallback | Failure => Finish(if node.result == "" then "deferred" else node.result)
    case _ => Goto(Get(node, "next"))
  }

  // ----- Whole runs --------------------------------------------------------

  const STEP_LIMIT := 220

  datatype Exit = Ended(result: string) | Threw(error: RunError)

  /** What a run leaves behind: the matched node ids, one trace entry per evaluated node with
      its move, the sub-decisions reported as errors, and how it ended. */
  datatype Run = Run(matched: seq<string>, trace: seq<(string, Move)>, errors: seq<string>, exit: Exit)

  /** Entering a route: which node is evaluated next, or which exit is taken. */
  datatype Entry = At(node: Node) | Exits(error: RunError)

  function Enter(nodes: NodeMap, current: Route, visited: set<string>): Entry {
    if !Truthy(current) then Exits(NoNext)
    else if current.NonText? then Exits(NotFound)
    else if current.s in visited then Exits(RunError.Circular(current.s))
    else if current.s !in nodes then Exits(NotFound)
    else At(nodes[current.s])
  }

  function Walk(nodes: NodeMap, o: Oracle, current: Route, visited: set<string>, run: Run, steps: nat): Run
    decreases steps
  {
    if steps == 0 then run.(exit := Threw(TooDeep))
    else match Enter(nodes, current, visited)
      case Exits(error) => run.(exit := Threw(error))
      case At(node) =>
        var matched := run.(matched := run.matched + [node.id]);
        var move := NextMove(node, Ask(o, node.id));
        match move
        case Fail(error) => matched.(exit := Threw(error))
        case Finish(result) => matched.(trace := run.trace + [(node.id, move)], exit := Ended(result))
        case Goto(route) =>
          var errors := if node.kind.SubDecision? then run.errors + [node.id] else run.errors;
          Walk(nodes, o, route, visited + {current.s},
               Run(matched.matched, run.trace + [(node.id, move)], errors, run.exit), steps - 1)
  }

  const START: Run := Run.Run([], [], [], Threw(TooDeep))

  function Evaluate(g: Graph, o: Oracle): Run {
    Walk(ById(g.nodes), o, if g.entry == "" then Absent else Text(g.entry), {}, START, STEP_LIMIT)
  }

  /** The loop of `evaluateGraph` over its local variables. */
  method EvaluateGraph(g: Graph, o: Oracle) returns (r: Run)
    ensures r == Evaluate(g, o)
  {
    var nodes := ById(g.nodes);
    var current := if g.entry == "" then Absent else Text(g.entry);
    var visited: set<string> := {};
    r := START;
    var step := 0;
    while step < STEP_LIMIT
      invariant 0 <= step <= STEP_LIMIT
      invariant Walk(nodes, o, current, visited, r, STEP_LIMIT - step) == Evaluate(g, o)
    {
      if !Truthy(current) { return r.(exit := Threw(NoNext)); }
      if current.Text? && current.s in visited { return r.(exit := Threw(RunError.Circular(current.s))); }
      if current.NonText? || current.s !in nodes { return r.(exit := Threw(NotFound)); }
      visited := visited + {current.s};
      var node := nodes[current.s];
      r := r.(matched := r.matched + [node.id]);
      var move := NextMove(node, Ask(o, node.id));
      match move {
        case Fail(error) => return r.(exit := Threw(error));
        case Finish(result) => return r.(trace := r.trace + [(node.id, move)], exit := Ended(result));
        case Goto(route) =>
          r := r.(trace := r.trace + [(node.id, move)]);
          if node.kind.SubDecision? { r := r.(errors := r.errors + [node.id]); }
          current := route;
      }
      step := step + 1;
    }
    r := r.(exit := Threw(TooDeep));
  }

  // ----- What the validator guarantees ---------------------------------------

  /** What the validator leaves to the author: a kind the interpreter knows, and no blank or
      non-string route where the capped exit or the sub-decision shortcut reads one. */
  predicate Runnable(node: Node) {
    && !node.kind.Untyped? && !node.kind.Unknown?
    && (node.kind.FrequencyCap? ==> Counted(CappedRoute(node)))
    && (node.kind.SubDecision? ==> Counted(Or(Get(node, "fallback"), Get(node, "next"))))
  }

  lemma {:induction false} ArmsOfValid(variants: seq<Variant>)
    requires forall i :: 0 <= i < |variants| ==> VariantOk(variants[i])
    ensures |KeepNamed(variants)| == |variants|
    ensures forall i :: 0 <= i < |variants| ==> KeepNamed(variants)[i] == ArmOf(variants[i])
  {
    if variants != [] {
      ArmsOfValid(variants[1..]);
      TrimBlank(variants[0].key);
    }
  }

  lemma {:induction false} FindArmMember(arms: seq<Arm>, key: string)
    ensures FindArm(arms, key).Some? ==> FindArm(arms, key).value in arms
  {
    if arms != [] && arms[0].key != key { FindArmMember(arms[1..], key); }
  }

  /** The arms of a checked split are its variants. */
  ghost predicate ArmsMatch(arms: seq<Arm>, variants: seq<Variant>) {
    && 0 < |arms| == |variants|
    && forall i :: 0 <= i < |arms| ==>
         && arms[i].key == Trim(variants[i].key) && arms[i].weight == variants[i].weight
         && arms[i].route == variants[i].route && Truthy(arms[i].route)
  }

  lemma ArmsOfSplit(variants: seq<Variant>)
    requires SplitOk(variants)
    ensures ArmsMatch(Arms(variants), variants)
  {
    ArmsOfValid(variants);
    hide KeepNamed, Blank, WeightSum;
    forall i | 0 <= i < |variants|
      ensures ArmOf(variants[i]) == Arm(Trim(variants[i].key), variants[i].weight, variants[i].route)
      ensures Truthy(variants[i].route)
    {
      assert VariantOk(variants[i]);
      NotBlankNotEmpty(variants[i].key);
      NotBlankNotEmpty(variants[i].route.s);
    }
  }

  lemma NotBlankNotEmpty(s: string)
    requires !Blank(s)
    ensures s != ""
  {
  }

  /** A selected arm with a route is followed. */
  lemma SelectedRoute(node: Node, ans: Answer)
    requires ans.Answers? && SelectArm(Arms(node.variants), ans).Some?
    requires Truthy(SelectArm(Arms(node.variants), ans).value.route)
    ensures SplitRoute(node, ans) == SelectArm(Arms(node.variants), ans).value.route
  {
    hide SelectArm, Arms;
  }

  lemma SelectedIsArm(arms: seq<Arm>, ans: Answer) returns (i: nat)
    requires ans.Answers? && arms != []
    ensures i < |arms| && SelectArm(arms, ans) == Some(arms[i])
  {
    hide FindArm;
    var forced := FindArm(arms, ans.forced);
    FindArmMember(arms, ans.forced);
    if ans.forced != "" && forced.Some? {
      i :| 0 <= i < |arms| && arms[i] == forced.value;
    } else {
      i := A.Pick(Weights(arms), ans.hash, A.HASH_SPACE);
    }
  }

  /** A checked split always leads to the route of one of its variants. */
  lemma SplitTakesVariant(node: Node, ans: Answer)
    requires SplitOk(node.variants) && ans.Answers?
    ensures exists i :: 0 <= i < |node.variants| && SplitRoute(node, ans) == node.variants[i].route
  {
    hide SplitOk, Arms, SelectArm, SplitRoute, Truthy;
    ArmsOfSplit(node.variants);
    var i := SelectedIsArm(Arms(node.variants), ans);
    SelectedRoute(node, ans);
    assert SplitRoute(node, ans) == node.variants[i].route;
  }

  lemma {:induction false} FindArmFirst(arms: seq<Arm>, key: string, i: nat)
    requires i < |arms| && arms[i].key == key && forall j :: 0 <= j < i ==> arms[j].key != key
    ensures FindArm(arms, key) == Some(arms[i])
  {
    if i > 0 { FindArmFirst(arms[1..], key, i - 1); }
  }

  lemma {:induction false} FindArmNone(arms: seq<Arm>, key: string)
    requires forall j :: 0 <= j < |arms| ==> arms[j].key != key
    ensures FindArm(arms, key) == None
  {
    if arms != [] { FindArmNone(arms[1..], key); }
  }

  /** A forced key that names a variant selects the first variant with that key. */
  lemma ForcedVariant(node: Node, ans: Answer, i: nat)
    requires SplitOk(node.variants) && ans.Answers? && ans.forced != "" && i < |node.variants|
    requires Trim(node.variants[i].key) == ans.forced
    requires forall j :: 0 <= j < i ==> Trim(node.variants[j].key) != ans.forced
    ensures SplitRoute(node, ans) == node.variants[i].route
  {
    hide SplitOk, Arms, SplitRoute, Truthy, FindArm, Trim;
    ArmsOfSplit(node.variants);
    FindArmFirst(Arms(node.variants), ans.forced, i);
    SelectedRoute(node, ans);
  }

  /** Otherwise the variant is the first whose cumulative weight covers the hash of the seed. */
  lemma WeightedByHash(node: Node, ans: Answer)
    requires SplitOk(node.variants) && ans.Answers?
    requires ans.forced == "" || forall j :: 0 <= j < |node.variants| ==> Trim(node.variants[j].key) != ans.forced
    ensures var weights := Weights(Arms(node.variants));
            && |weights| == |node.variants|
            && (forall i :: 0 <= i < |weights| ==> weights[i] == node.variants[i].weight)
            && exists i :: 0 <= i < |weights| && A.CoversFirst(weights, ans.hash, A.HASH_SPACE, i)
                           && SplitRoute(node, ans) == node.variants[i].route
  {
    hide SplitOk, Arms, SplitRoute, Truthy, FindArm, Trim, A.Pick, A.CoversFirst;
    ArmsOfSplit(node.variants);
    var arms := Arms(node.variants);
    if ans.forced != "" { FindArmNone(arms, ans.forced); }
    var weights := Weights(arms);
    PositiveTotal(node.variants, weights);
    var i := A.Pick(weights, ans.hash, A.HASH_SPACE);
    A.PickIff(weights, ans.hash, A.HASH_SPACE, i);
    SelectedRoute(node, ans);
    assert SplitRoute(node, ans) == node.variants[i].route;
  }

  lemma PositiveTotal(variants: seq<Variant>, weights: seq<nat>)
    requires SplitOk(variants) && |variants| == |weights|
    requires forall i :: 0 <= i < |weights| ==> weights[i] == variants[i].weight
    ensures 0 < A.Total(weights)
  {
    hide A.Prefix, WeightSum;
    TotalIsSum(variants, weights, |weights|);
    assert variants[..|weights|] == variants;
  }

  lemma {:induction false} TotalIsSum(variants: seq<Variant>, weights: seq<nat>, n: nat)
    requires n <= |variants| == |weights|
    requires forall i :: 0 <= i < |weights| ==> weights[i] == variants[i].weight
    ensures A.Prefix(weights, n) == WeightSum(variants[..n])
  {
    if n > 0 {
      TotalIsSum(variants, weights, n - 1);
      assert variants[..n][..n - 1] == variants[..n - 1];
    }
  }

  /** The variant of a checked split that the environment selects: the first with the forced key, or
      without such a variant the first whose cumulative weight covers the hash. */
  ghost predicate Selected(node: Node, ans: Answer, i: nat)
    requires ans.Answers? && i < |node.variants|
  {
    var weights := Weights(Arms(node.variants));
    if ans.forced != "" && exists j :: 0 <= j < |node.variants| && Trim(node.variants[j].key) == ans.forced
    then Trim(node.variants[i].key) == ans.forced && forall j :: 0 <= j < i ==> Trim(node.variants[j].key) != ans.forced
    else i < |weights| && A.CoversFirst(weights, ans.hash, A.HASH_SPACE, i)
  }

  lemma {:induction false} FirstForced(variants: seq<Variant>, key: string, j: nat) returns (i: nat)
    requires j < |variants| && Trim(variants[j].key) == key
    ensures i <= j && Trim(variants[i].key) == key && forall k :: 0 <= k < i ==> Trim(variants[k].key) != key
    decreases j
  {
    hide Trim;
    if k :| 0 <= k < j && Trim(variants[k].key) == key {
      i := FirstForced(variants, key, k);
    } else {
      i := j;
    }
  }

  lemma SplitSelects(node: Node, ans: Answer) returns (i: nat)
    requires SplitOk(node.variants) && ans.Answers?
    ensures i < |node.variants| && Selected(node, ans, i) && SplitRoute(node, ans) == node.variants[i].route
  {
    hide SplitOk, SplitRoute, Trim, A.CoversFirst;
    if ans.forced != "" && exists j :: 0 <= j < |node.variants| && Trim(node.variants[j].key) == ans.forced {
      var j :| 0 <= j < |node.variants| && Trim(node.variants[j].key) == ans.forced;
      i := FirstForced(node.variants, ans.forced, j);
      ForcedVariant(node, ans, i);
    } else {
      WeightedByHash(node, ans);
      var weights := Weights(Arms(node.variants));
      i :| 0 <= i < |weights| && A.CoversFirst(weights, ans.hash, A.HASH_SPACE, i)
           && SplitRoute(node, ans) == node.variants[i].route;
    }
  }

  /** Some request selects variant `i`: its key can be forced, or some hash falls to it. */
  ghost predicate Selectable(node: Node, i: nat)
    requires i < |node.variants|
  {
    || (forall j :: 0 <= j < i ==> Trim(node.variants[j].key) != Trim(node.variants[i].key))
    || (i < |Arms(node.variants)| && exists h: A.Word :: A.CoversFirst(Weights(Arms(node.variants)), h, A.HASH_SPACE, i))
  }

  /** Where a checked node can go in some request. */
  ghost predicate CanTake(node: Node, route: Route) {
    match node.kind
    case Condition => route == Get(node, "true") || route == Get(node, "false")
    case FrequencyCap => route == CappedRoute(node) || (0 < EffectiveMax(node) && route == Get(node, "next"))
    case ExperimentSplit => exists i :: 0 <= i < |node.variants| && Selectable(node, i) && node.variants[i].route == route
    case SubDecision => route == Or(Get(node, "fallback"), Get(node, "next"))
    case Input => route == Get(node, "next")
    case Score => route == Get(node, "next")
    case Lookup => route == Get(node, "next")
    case _ => false
  }

  lemma SelectedSelectable(node: Node, ans: Answer, i: nat)
    requires ans.Answers? && i < |node.variants| && Selected(node, ans, i)
    ensures Selectable(node, i)
  {
    hide Trim, A.CoversFirst;
  }

  /** What an answer leads to can be taken. */
  lemma MoveIsTakeable(node: Node, ids: set<string>, ans: Answer)
    requires RoutesOk(node, ids) && ans.Answers? && NextMove(node, ans).Goto?
    ensures CanTake(node, NextMove(node, ans).route)
  {
    if node.kind.ExperimentSplit? {
      hide Selectable, Selected, SplitRoute;
      var i := SplitSelects(node, ans);
      SelectedSelectable(node, ans, i);
    }
  }

  lemma SelectableAnswer(node: Node, i: nat) returns (ans: Answer)
    requires SplitOk(node.variants) && i < |node.variants| && Selectable(node, i)
    ensures ans.Answers? && SplitRoute(node, ans) == node.variants[i].route
  {
    var key := Trim(node.variants[i].key);
    KeyNotEmpty(node.variants, i);
    hide SplitOk, SplitRoute, Trim, A.CoversFirst;
    if forall j :: 0 <= j < i ==> Trim(node.variants[j].key) != key {
      ans := Answers(false, 0, 0, key);
      ForcedVariant(node, ans, i);
    } else {
      var weights := Weights(Arms(node.variants));
      var h: A.Word :| A.CoversFirst(weights, h, A.HASH_SPACE, i);
      ans := Answers(false, 0, h, "");
      WeightedByHash(node, ans);
      var k :| 0 <= k < |weights| && A.CoversFirst(weights, h, A.HASH_SPACE, k) && SplitRoute(node, ans) == node.variants[k].route;
      A.CoversFirstUnique(weights, h, A.HASH_SPACE, i, k);
    }
  }

  lemma KeyNotEmpty(variants: seq<Variant>, i: nat)
    requires SplitOk(variants) && i < |variants|
    ensures Trim(variants[i].key) != ""
  {
    assert VariantOk(variants[i]);
    TrimBlank(variants[i].key);
  }

  /** And what can be taken is what some answer leads to. */
  lemma TakeableAnswer(node: Node, ids: set<string>, route: Route) returns (ans: Answer)
    requires RoutesOk(node, ids) && CanTake(node, route)
    ensures ans.Answers? && NextMove(node, ans) == Goto(route)
  {
    hide Selectable, SplitRoute, Get, Or, CappedRoute, SplitOk, Targets;
    if node.kind.ExperimentSplit? {
      var i :| 0 <= i < |node.variants| && Selectable(node, i) && node.variants[i].route == route;
      ans := SelectableAnswer(node, i);
    } else {
      var max := EffectiveMax(node);
      ans := Answers(route == Get(node, "true"), if route == CappedRoute(node) && 0 < max then max else 0, 0, "");
    }
  }

  /** Every counted route a checked node can take is among its targets. */
  lemma TakenIsTarget(node: Node, ids: set<string>, ans: Answer)
    requires RoutesOk(node, ids) && ans.Answers? && NextMove(node, ans).Goto?
    ensures var r := NextMove(node, ans).route; Counted(r) ==> r.s in Targets(node) && r.s in ids
    ensures Runnable(node) ==> Counted(NextMove(node, ans).route)
  {
    var r := NextMove(node, ans).route;
    if node.kind.ExperimentSplit? {
      SplitTakesVariant(node, ans);
      var i :| 0 <= i < |node.variants| && r == node.variants[i].route;
      assert VariantOk(node.variants[i]);
      VariantRoutesMembers(node.variants, i);
      assert r in RouteList(node);
    }
    if Counted(r) {
      assert r in RouteList(node);
      CountedIsTarget(node, r);
    }
  }

  // ----- Accepted graphs run to a terminal ---------------------------------

  /** Ids visited in order when each node takes one of the routes it can take. */
  ghost predicate Driven(g: Graph, p: seq<string>) {
    && p != [] && p[0] == g.entry
    && (forall i :: 0 <= i < |p| ==> p[i] in ById(g.nodes))
    && forall i, j :: 0 <= i < j < |p| && j == i + 1 ==> CanTake(ById(g.nodes)[p[i]], Text(p[j]))
  }

  ghost predicate DrivenTo(g: Graph, id: string) {
    exists p :: Driven(g, p) && D.Last(p) == id
  }

  /** Every node that some request can lead to is runnable. */
  ghost predicate RunnableWhereDriven(g: Graph) {
    forall id :: DrivenTo(g, id) ==> Runnable(ById(g.nodes)[id])
  }

  lemma NodeFacts(g: Graph, id: string)
    requires WellShaped(g) && id in ById(g.nodes)
    ensures ById(g.nodes)[id].id == id && !Blank(id) && id != ""
    ensures RoutesOk(ById(g.nodes)[id], Ids(g.nodes))
    ensures ById(g.nodes).Keys == Ids(g.nodes)
  {
    ByIdOnly(g.nodes, id);
    ByIdKeys(g.nodes);
  }

  lemma DrivenIsPath(g: Graph, p: seq<string>)
    requires WellShaped(g) && Driven(g, p)
    ensures D.IsPath(Succ(g), p)
  {
    forall i, j | 0 <= i < j < |p| && j == i + 1
      ensures D.Edge(Succ(g), p[i], p[j])
    {
      NodeFacts(g, p[i]);
      NodeFacts(g, p[j]);
      var ans := TakeableAnswer(ById(g.nodes)[p[i]], Ids(g.nodes), Text(p[j]));
      TakenIsTarget(ById(g.nodes)[p[i]], Ids(g.nodes), ans);
    }
  }

  ghost predicate Simple(p: seq<string>) {
    forall i, j :: 0 <= i < j < |p| ==> p[i] != p[j]
  }

  lemma {:induction false} SimpleFits(p: seq<string>, s: set<string>)
    requires Simple(p) && forall i :: 0 <= i < |p| ==> p[i] in s
    ensures |p| <= |s|
  {
    if p != [] {
      SimpleFits(p[1..], s - {p[0]});
    }
  }

  lemma {:induction false} IdsCount(nodes: seq<Node>)
    ensures |Ids(nodes)| <= |nodes|
  {
    if nodes != [] {
      var front, last := nodes[..|nodes| - 1], nodes[|nodes| - 1];
      IdsCount(front);
      IdsAppend(front, last);
      assert front + [last] == nodes;
    }
  }

  /** A driven path of an acceptable graph repeats no node, so it is short. */
  lemma DrivenIsSimple(g: Graph, p: seq<string>)
    requires Acceptable(g) && Driven(g, p)
    ensures Simple(p) && |p| <= NODE_LIMIT
  {
    DrivenIsPath(g, p);
    forall i, j | 0 <= i < j < |p|
      ensures p[i] != p[j]
    {
      if p[i] == p[j] { D.RepeatIsCycle(Succ(g), p, i, j); }
    }
    ByIdKeys(g.nodes);
    SimpleFits(p, Ids(g.nodes));
    IdsCount(g.nodes);
  }

  function Members(p: seq<string>): set<string> {
    set v | v in p
  }

  lemma NewMember(p: seq<string>, k: nat)
    requires Simple(p) && k < |p|
    ensures p[k] !in Members(p[..k])
    ensures Members(p[..k + 1]) == Members(p[..k]) + {p[k]}
  {
    assert p[..k + 1] == p[..k] + [p[k]];
    assert forall v :: v in p[..k + 1] <==> v in p[..k] || v == p[k];
  }

  lemma DrivenExtends(g: Graph, p: seq<string>, next: string)
    requires Driven(g, p) && next in ById(g.nodes) && CanTake(ById(g.nodes)[D.Last(p)], Text(next))
    ensures Driven(g, p + [next])
  {
    hide CanTake, ById;
    var q := p + [next];
    assert forall i :: 0 <= i < |p| ==> q[i] == p[i];
  }

  /** The run ended at a terminal node, having matched a driven path. */
  ghost predicate EndedAtTerminal(g: Graph, r: Run) {
    && r.exit.Ended?
    && Driven(g, r.matched)
    && Terminal(ById(g.nodes)[D.Last(r.matched)].kind)
  }

  /** One step of a walk at a node that can be entered. */
  lemma WalkStep(nodes: NodeMap, o: Oracle, id: string, visited: set<string>, run: Run, steps: nat)
    requires id != "" && id in nodes && nodes[id].id == id && id !in visited && 0 < steps
    ensures var r := Walk(nodes, o, Text(id), visited, run, steps);
            match NextMove(nodes[id], Ask(o, id))
            case Fail(error) => r.exit == Threw(error)
            case Finish(result) =>
              r == run.(matched := run.matched + [id], trace := run.trace + [(id, Finish(result))], exit := Ended(result))
            case Goto(route) =>
              r == Walk(nodes, o, route, visited + {id}, After(nodes[id], o, run), steps - 1)
  {
  }

  /** The run as it stands after a node that did not end it. */
  function After(node: Node, o: Oracle, run: Run): Run {
    Run.Run(run.matched + [node.id], run.trace + [(node.id, NextMove(node, Ask(o, node.id)))],
            if node.kind.SubDecision? then run.errors + [node.id] else run.errors, run.exit)
  }

  lemma MoveKinds(node: Node, ans: Answer)
    requires Runnable(node) && ans.Answers?
    ensures !NextMove(node, ans).Fail?
    ensures NextMove(node, ans).Finish? ==> Terminal(node.kind)
  {
  }

  /** From any point of a driven path, the walk ends at a terminal, having matched a simple path. */
  lemma {:induction false} WalkEnds(g: Graph, o: Oracle, p: seq<string>, run: Run)
    requires Acceptable(g) && RunnableWhereDriven(g) && NeverThrows(o)
    requires Driven(g, p) && |p| <= STEP_LIMIT && run.matched == p[..|p| - 1]
    ensures EndedAtTerminal(g, Walk(ById(g.nodes), o, Text(D.Last(p)), Members(p[..|p| - 1]), run, STEP_LIMIT - |p| + 1))
    decreases STEP_LIMIT - |p|
  {
    hide Walk, NextMove, Acceptable, Runnable, Members, ById, Simple, WellShaped, CanTake, RoutesOk;
    var nodes, id := ById(g.nodes), D.Last(p);
    DrivenIsSimple(g, p);
    AcceptableShape(g);
    NodeFacts(g, id);
    NewMember(p, |p| - 1);
    assert p[..|p| - 1 + 1] == p;
    assert DrivenTo(g, id);
    WalkStep(nodes, o, id, Members(p[..|p| - 1]), run, STEP_LIMIT - |p| + 1);
    var move := NextMove(nodes[id], Ask(o, id));
    MoveKinds(nodes[id], Ask(o, id));
    assert p[..|p| - 1] + [id] == p;
    if move.Goto? {
      TakenIsTarget(nodes[id], Ids(g.nodes), Ask(o, id));
      var next := move.route.s;
      MoveIsTakeable(nodes[id], Ids(g.nodes), Ask(o, id));
      DrivenExtends(g, p, next);
      var q := p + [next];
      DrivenIsSimple(g, q);
      assert q[..|q| - 1] == p;
      WalkEnds(g, o, q, After(nodes[id], o, run));
    }
  }

  lemma AcceptableShape(g: Graph)
    requires Acceptable(g)
    ensures WellShaped(g)
  {
  }

  lemma EntryInMap(g: Graph)
    requires Acceptable(g)
    ensures g.entry in ById(g.nodes)
  {
    EntryIsNode(g);
  }

  /** A graph accepted by the validator, runnable wherever a request can lead, always runs to a
      terminal: none of the interpreter's internal exits is reached, and the matched rules are a
      path of distinct nodes from the entry, at most 200 long. */
  lemma AcceptedRunsToTerminal(g: Graph, o: Oracle)
    requires Acceptable(g) && RunnableWhereDriven(g) && NeverThrows(o)
    ensures var r := Evaluate(g, o);
            && r.exit.Ended?
            && r.matched != [] && r.matched[0] == g.entry
            && D.IsPath(Succ(g), r.matched) && Simple(r.matched) && |r.matched| <= NODE_LIMIT
            && EndedAtTerminal(g, r)
  {
    hide Walk, NextMove, Acceptable, Runnable, Succ, ById, Simple, WellShaped;
    EntryInMap(g);
    AcceptableShape(g);
    NodeFacts(g, g.entry);
    var p := [g.entry];
    assert p[..0] == [] && Members(p[..0]) == {};
    WalkEnds(g, o, p, START);
    var matched := Evaluate(g, o).matched;
    DrivenIsPath(g, matched);
    DrivenIsSimple(g, matched);
  }

  // ----- The condition is exact --------------------------------------------

  ghost predicate Answered(node: Node, ans: Answer, route: Route) {
    ans.Answers? && NextMove(node, ans) == Goto(route)
  }

  ghost function TakingAnswer(node: Node, ids: set<string>, route: Route): (ans: Answer)
    requires RoutesOk(node, ids) && CanTake(node, route)
    ensures Answered(node, ans, route)
  {
    SomeAnswer(node, ids, route);
    var ans: Answer :| Answered(node, ans, route); ans
  }

  lemma SomeAnswer(node: Node, ids: set<string>, route: Route)
    requires RoutesOk(node, ids) && CanTake(node, route)
    ensures exists ans: Answer :: Answered(node, ans, route)
  {
    var ans := TakeableAnswer(node, ids, route);
    assert Answered(node, ans, route);
  }

  /** An environment that leads along `p`. */
  ghost function Leading(g: Graph, p: seq<string>): Oracle
    requires WellShaped(g) && Driven(g, p)
    decreases |p|
  {
    if |p| == 1 then map[]
    else
      var q := p[..|p| - 1];
      NodeFacts(g, D.Last(q));
      Leading(g, q)[D.Last(q) := TakingAnswer(ById(g.nodes)[D.Last(q)], Ids(g.nodes), Text(D.Last(p)))]
  }

  lemma {:induction false} LeadingFollows(g: Graph, p: seq<string>, i: nat)
    requires WellShaped(g) && Driven(g, p) && Simple(p) && i + 1 < |p|
    ensures p[i] in Leading(g, p) && Leading(g, p)[p[i]].Answers?
    ensures NextMove(ById(g.nodes)[p[i]], Leading(g, p)[p[i]]) == Goto(Text(p[i + 1]))
    decreases |p|
  {
    hide WellShaped, NextMove, CanTake, ById;
    if i + 2 < |p| { LeadingFollows(g, p[..|p| - 1], i); }
  }

  lemma {:induction false} LeadingNeverThrows(g: Graph, p: seq<string>)
    requires WellShaped(g) && Driven(g, p)
    ensures NeverThrows(Leading(g, p))
    decreases |p|
  {
    if |p| > 1 { LeadingNeverThrows(g, p[..|p| - 1]); }
  }

  /** An answer that makes a node that is not runnable fail, now or at the next step. */
  ghost predicate Spoils(node: Node, ans: Answer) {
    && ans.Answers?
    && (NextMove(node, ans).Fail? || (NextMove(node, ans).Goto? && !Counted(NextMove(node, ans).route)))
  }

  lemma NotRunnableSpoils(node: Node) returns (ans: Answer)
    requires !Runnable(node)
    ensures Spoils(node, ans)
  {
    ans := Answers(true, if EffectiveMax(node) < 0 then 0 else EffectiveMax(node), 0, "");
  }

  lemma {:induction false} WalkSpoiled(g: Graph, o: Oracle, p: seq<string>, k: nat, run: Run)
    requires Acceptable(g) && Driven(g, p) && Simple(p) && |p| <= NODE_LIMIT && k < |p|
    requires forall i :: 0 <= i < |p| - 1 ==> NextMove(ById(g.nodes)[p[i]], Ask(o, p[i])) == Goto(Text(p[i + 1]))
    requires Spoils(ById(g.nodes)[D.Last(p)], Ask(o, D.Last(p)))
    ensures Walk(ById(g.nodes), o, Text(p[k]), Members(p[..k]), run, STEP_LIMIT - k).exit.Threw?
    decreases |p| - k
  {
    hide Walk, NextMove, Acceptable, Members, Counted, CanTake, ById, WellShaped, RoutesOk;
    var nodes := ById(g.nodes);
    AcceptableShape(g);
    NodeFacts(g, p[k]);
    NewMember(p, k);
    WalkStep(nodes, o, p[k], Members(p[..k]), run, STEP_LIMIT - k);
    var move := NextMove(nodes[p[k]], Ask(o, p[k]));
    if k < |p| - 1 {
      WalkSpoiled(g, o, p, k + 1, After(nodes[p[k]], o, run));
    } else {
      assert Spoils(nodes[p[k]], Ask(o, p[k]));
      if move.Goto? {
        UncountedThrows(g, o, move.route, Members(p[..k + 1]), After(nodes[p[k]], o, run), STEP_LIMIT - k - 1);
      }
    }
  }

  /** A route that the validator does not count leads to no node. */
  lemma UncountedThrows(g: Graph, o: Oracle, route: Route, visited: set<string>, run: Run, steps: nat)
    requires WellShaped(g) && !Counted(route) && 0 < steps
    ensures Walk(ById(g.nodes), o, route, visited, run, steps).exit.Threw?
  {
    if route.Text? && route.s in ById(g.nodes) { NodeFacts(g, route.s); }
  }

  /** For an accepted graph: every request without a throwing expression runs to a terminal if
      and only if every node that some request can lead to is runnable. */
  lemma RunsToTerminalIff(g: Graph)
    requires Acceptable(g)
    ensures (forall o: Oracle :: NeverThrows(o) ==> Evaluate(g, o).exit.Ended?) <==> RunnableWhereDriven(g)
  {
    if RunnableWhereDriven(g) {
      forall o: Oracle | NeverThrows(o)
        ensures Evaluate(g, o).exit.Ended?
      {
        AcceptedRunsToTerminal(g, o);
      }
    } else {
      var id :| DrivenTo(g, id) && !Runnable(ById(g.nodes)[id]);
      var p :| Driven(g, p) && D.Last(p) == id;
      var o := SpoilingOracle(g, p);
      assert p[..0] == [] && Members(p[..0]) == {};
      NodeFacts(g, g.entry);
      WalkSpoiled(g, o, p, 0, START);
    }
  }

  lemma SpoilingOracle(g: Graph, p: seq<string>) returns (o: Oracle)
    requires Acceptable(g) && Driven(g, p) && !Runnable(ById(g.nodes)[D.Last(p)])
    ensures NeverThrows(o) && Simple(p) && |p| <= NODE_LIMIT
    ensures forall i :: 0 <= i < |p| - 1 ==> NextMove(ById(g.nodes)[p[i]], Ask(o, p[i])) == Goto(Text(p[i + 1]))
    ensures Spoils(ById(g.nodes)[D.Last(p)], Ask(o, D.Last(p)))
  {
    DrivenIsSimple(g, p);
    var ans := NotRunnableSpoils(ById(g.nodes)[D.Last(p)]);
    LeadingNeverThrows(g, p);
    o := Leading(g, p)[D.Last(p) := ans];
    forall i | 0 <= i < |p| - 1
      ensures NextMove(ById(g.nodes)[p[i]], Ask(o, p[i])) == Goto(Text(p[i + 1]))
    {
      LeadingFollows(g, p, i);
    }
  }

  /** The part of the condition an author can read off the nodes alone suffices. */
  lemma RunnableNodesSuffice(g: Graph)
    requires forall i :: 0 <= i < |g.nodes| ==> Runnable(g.nodes[i])
    ensures RunnableWhereDriven(g)
  {
    forall id | DrivenTo(g, id)
      ensures Runnable(ById(g.nodes)[id])
    {
      ByIdOnly(g.nodes, id);
    }
  }
}
