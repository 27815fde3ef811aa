/** What a run of the interpreter reports, however it ends: why each rule was matched, what the trace
    holds, and which node and answer lead to which exit. */
module GraphStory {
  import opened Common
  import opened RuleGraph
  import opened GraphCheck
  import opened GraphRun
  import A = Assignment
  import D = Digraph

  // ----- What each kind of node does ---------------------------------------

  /** `route` is the first of these properties that is usable as a route. */
  predicate FirstAt(node: Node, keys: seq<string>, i: nat, route: Route)
    requires i < |keys|
  {
    Get(node, keys[i]) == route && Truthy(route) && forall j :: 0 <= j < i ==> !Truthy(Get(node, keys[j]))
  }

  /** The first property usable as a route, or the last of them when none is. */
  predicate FirstRoute(node: Node, keys: seq<string>, route: Route)
    requires keys != []
  {
    || (exists i :: 0 <= i < |keys| && FirstAt(node, keys, i, route))
    || (Get(node, keys[|keys| - 1]) == route && forall j :: 0 <= j < |keys| ==> !Truthy(Get(node, keys[j])))
  }

  /** Where a checked node sends a request, kind by kind. */
  ghost predicate Goes(node: Node, ans: Answer, route: Route) {
    match node.kind
    case Condition => ans.Answers? && FirstRoute(node, [if ans.passed then "true" else "false"], route)
    case FrequencyCap =>
      && ans.Answers?
      && FirstRoute(node, if ans.count < (if node.max == 0 then 1 else node.max) then ["next"]
                          else ["capped", "false", "fallback"], route)
    case ExperimentSplit =>
      var given := if ans.Throws? then SILENT else ans;
      exists i :: 0 <= i < |node.variants| && Selected(node, given, i) && node.variants[i].route == route
    case SubDecision => FirstRoute(node, ["fallback", "next"], route)
    case Input => FirstRoute(node, ["next"], route)
    case Score => ans.Answers? && FirstRoute(node, ["next"], route)
    case Lookup => ans.Answers? && FirstRoute(node, ["next"], route)
    case _ => false
  }

  /** The kinds of node that evaluate an expression or count events: a condition, the rules of a score,
      the key of a lookup, a cap, and the outputs of a terminal. */
  predicate Evaluates(kind: Kind) {
    || kind.Condition? || kind.Score? || kind.Lookup? || kind.FrequencyCap?
    || kind.Output? || kind.Fallback? || kind.Failure?
  }

  predicate EndsRun(kind: Kind) { kind.Output? || kind.Fallback? || kind.Failure? }

  predicate NoKind(kind: Kind) { kind.Untyped? || kind.Unknown? }

  function ResultOf(node: Node): string {
    if node.result == "" then "deferred" else node.result
  }

  lemma FirstOfOne(node: Node, key: string, route: Route)
    ensures FirstRoute(node, [key], route) <==> route == Get(node, key)
  {
    assert [key][0] == key;
    if Truthy(Get(node, key)) { assert FirstAt(node, [key], 0, Get(node, key)); }
  }

  lemma FirstOfTwo(node: Node, a: string, b: string, route: Route)
    ensures FirstRoute(node, [a, b], route) <==> route == Or(Get(node, a), Get(node, b))
  {
    var keys := [a, b];
    assert keys[0] == a && keys[1] == b;
    if Truthy(Get(node, a)) { assert FirstAt(node, keys, 0, Get(node, a)); }
    else if Truthy(Get(node, b)) { assert FirstAt(node, keys, 1, Get(node, b)); }
  }

  lemma FirstOfThree(node: Node, a: string, b: string, c: string, route: Route)
    ensures FirstRoute(node, [a, b, c], route) <==> route == Or(Get(node, a), Or(Get(node, b), Get(node, c)))
  {
    var keys := [a, b, c];
    assert keys[0] == a && keys[1] == b && keys[2] == c;
    if Truthy(Get(node, a)) { assert FirstAt(node, keys, 0, Get(node, a)); }
    else if Truthy(Get(node, b)) { assert FirstAt(node, keys, 1, Get(node, b)); }
    else if Truthy(Get(node, c)) { assert FirstAt(node, keys, 2, Get(node, c)); }
  }

  lemma SelectedOne(node: Node, ans: Answer, i: nat, j: nat)
    requires ans.Answers? && i < |node.variants| && j < |node.variants| && Selected(node, ans, i) && Selected(node, ans, j)
    ensures i == j
  {
    hide Trim, A.CoversFirst, Arms;
    if !(ans.forced != "" && exists k :: 0 <= k < |node.variants| && Trim(node.variants[k].key) == ans.forced) {
      A.CoversFirstUnique(Weights(Arms(node.variants)), ans.hash, A.HASH_SPACE, i, j);
    }
  }

  lemma SplitGoes(node: Node, ans: Answer, route: Route)
    requires SplitOk(node.variants) && ans.Answers?
    ensures (exists i :: 0 <= i < |node.variants| && Selected(node, ans, i) && node.variants[i].route == route) <==>
            route == SplitRoute(node, ans)
  {
    hide Selected, SplitRoute, SplitOk;
    var k := SplitSelects(node, ans);
    forall i | 0 <= i < |node.variants| && Selected(node, ans, i)
      ensures i == k
    {
      SelectedOne(node, ans, i, k);
    }
  }

  /** The moves of a checked node, said in full: it goes exactly where its kind and the answer say, ends
      the run exactly as a terminal, and fails exactly on a throwing answer it needs or without a kind. */
  lemma MoveIff(node: Node, ids: set<string>, ans: Answer, route: Route, result: string, message: string, kind: Kind)
    requires RoutesOk(node, ids)
    ensures NextMove(node, ans) == Goto(route) <==> Goes(node, ans, route)
    ensures NextMove(node, ans) == Finish(result) <==> EndsRun(node.kind) && ans.Answers? && result == ResultOf(node)
    ensures NextMove(node, ans) == Fail(Environment(message)) <==> Evaluates(node.kind) && ans == Throws(message)
    ensures NextMove(node, ans) == Fail(UnsupportedKind(kind)) <==> NoKind(kind) && node.kind == kind
    ensures NextMove(node, ans).Fail? ==> NextMove(node, ans).error.Environment? || NextMove(node, ans).error.UnsupportedKind?
  {
    hide Goes, NextMove;
    GoesIff(node, ids, ans, route);
    EndsIff(node, ans);
  }

  lemma GoesIff(node: Node, ids: set<string>, ans: Answer, route: Route)
    requires RoutesOk(node, ids)
    ensures NextMove(node, ans) == Goto(route) <==> Goes(node, ans, route)
  {
    hide FirstRoute, Get, Or, SplitRoute, Selected, Targets, SplitOk;
    match node.kind
    case Condition => FirstOfOne(node, if ans.Answers? && ans.passed then "true" else "false", route);
    case FrequencyCap =>
      FirstOfOne(node, "next", route);
      FirstOfThree(node, "capped", "false", "fallback", route);
    case ExperimentSplit => SplitGoes(node, if ans.Throws? then SILENT else ans, route);
    case SubDecision => FirstOfTwo(node, "fallback", "next", route);
    case _ => FirstOfOne(node, "next", route);
  }

  lemma EndsIff(node: Node, ans: Answer)
    ensures NextMove(node, ans).Finish? <==> EndsRun(node.kind) && ans.Answers?
    ensures NextMove(node, ans).Finish? ==> NextMove(node, ans).result == ResultOf(node)
    ensures NextMove(node, ans).Fail? <==> (Evaluates(node.kind) && ans.Throws?) || NoKind(node.kind)
    ensures NextMove(node, ans).Fail? ==>
              NextMove(node, ans).error == if NoKind(node.kind) then UnsupportedKind(node.kind) else Environment(ans.message)
  {
    hide Get, Or, SplitRoute;
  }

  // ----- The story of any run ----------------------------------------------

  function SubDecisions(nodes: NodeMap, ids: seq<string>): seq<string> {
    if ids == [] then []
    else
      var id := D.Last(ids);
      SubDecisions(nodes, ids[..|ids| - 1]) + if id in nodes && nodes[id].kind.SubDecision? then [id] else []
  }

  /** Distinct nodes from `first` on; trace entry `i` is matched node `i` with its move, which leads to the
      next matched node; the errors are the sub-decisions among them, in order. */
  ghost predicate SoFar(nodes: NodeMap, o: Oracle, first: Route, run: Run) {
    && |run.trace| <= |run.matched| <= |run.trace| + 1
    && Simple(run.matched)
    && (forall i :: 0 <= i < |run.matched| ==> run.matched[i] in nodes)
    && (forall i :: 0 <= i < |run.trace| ==>
          run.trace[i] == (run.matched[i], NextMove(nodes[run.matched[i]], Ask(o, run.matched[i]))))
    && (run.matched != [] ==> first == Text(run.matched[0]))
    && (forall i, j :: 0 <= i < j < |run.matched| && j == i + 1 ==> run.trace[i].1 == Goto(Text(run.matched[j])))
    && run.errors == SubDecisions(nodes, run.matched)
  }

  /** The run has left its last matched node for `route`, or stands at the entry. */
  ghost predicate Heads(first: Route, run: Run, route: Route) {
    |run.trace| == |run.matched| && if run.trace == [] then route == first else run.trace[|run.trace| - 1].1 == Goto(route)
  }

  /** How the run got to its exit. */
  ghost predicate ExitReached(nodes: NodeMap, o: Oracle, first: Route, run: Run) {
    match run.exit
    case Ended(result) =>
      |run.trace| == |run.matched| && run.trace != [] && run.trace[|run.trace| - 1].1 == Finish(result)
    case Threw(error) =>
      if error.Environment? || error.UnsupportedKind? then
        && |run.matched| == |run.trace| + 1
        && var last := D.Last(run.matched);
           last in nodes && NextMove(nodes[last], Ask(o, last)) == Fail(error)
      else if error.TooDeep? then |run.matched| == STEP_LIMIT
      else exists route :: Heads(first, run, route) && Enter(nodes, route, Members(run.matched)) == Exits(error)
  }

  lemma MatchedGrows(nodes: NodeMap, o: Oracle, first: Route, run: Run, id: string, exit: Exit)
    requires SoFar(nodes, o, first, run) && Heads(first, run, Text(id)) && id in nodes && id !in Members(run.matched)
    requires nodes[id].id == id
    ensures SoFar(nodes, o, first, After(nodes[id], o, run).(exit := exit))
    ensures !nodes[id].kind.SubDecision? ==>
              SoFar(nodes, o, first, Run.Run(run.matched + [id], run.trace, run.errors, exit))
  {
    hide NextMove, SoFar, Members;
    var cut := Run.Run(run.matched + [id], run.trace, After(nodes[id], o, run).errors, exit);
    LastMatched(nodes, o, first, run, id, exit);
    TraceGrows(nodes, o, first, cut, id);
  }

  /** The next node is matched, not yet traced. */
  lemma LastMatched(nodes: NodeMap, o: Oracle, first: Route, run: Run, id: string, exit: Exit)
    requires SoFar(nodes, o, first, run) && Heads(first, run, Text(id)) && id in nodes && id !in Members(run.matched)
    ensures SoFar(nodes, o, first, Run.Run(run.matched + [id], run.trace,
                                           if nodes[id].kind.SubDecision? then run.errors + [id] else run.errors, exit))
  {
    hide NextMove, Simple, SubDecisions, Members;
    SimpleGrows(run.matched, id);
    SubDecisionsGrow(nodes, run.matched, id);
    var matched := run.matched + [id];
    assert forall i :: 0 <= i < |run.matched| ==> matched[i] == run.matched[i];
    assert matched[|run.matched|] == id;
  }

  lemma SimpleGrows(p: seq<string>, id: string)
    requires Simple(p) && id !in Members(p)
    ensures Simple(p + [id])
  {
    forall i | 0 <= i < |p|
      ensures p[i] != id
    {
      assert p[i] in Members(p);
    }
  }

  lemma SubDecisionsGrow(nodes: NodeMap, ids: seq<string>, id: string)
    requires id in nodes
    ensures SubDecisions(nodes, ids + [id]) ==
            if nodes[id].kind.SubDecision? then SubDecisions(nodes, ids) + [id] else SubDecisions(nodes, ids)
  {
    assert (ids + [id])[..|ids|] == ids;
  }

  lemma TraceGrows(nodes: NodeMap, o: Oracle, first: Route, run: Run, id: string)
    requires SoFar(nodes, o, first, run) && |run.matched| == |run.trace| + 1 && D.Last(run.matched) == id && id in nodes
    ensures SoFar(nodes, o, first, run.(trace := run.trace + [(id, NextMove(nodes[id], Ask(o, id)))]))
  {
    hide NextMove, Simple, SubDecisions;
  }

  lemma EnterOther(nodes: NodeMap, route: Route, visited: set<string>)
    ensures Enter(nodes, route, visited).Exits? ==>
              var error := Enter(nodes, route, visited).error; error.NoNext? || error.Circular? || error.NotFound?
    ensures Enter(nodes, route, visited).At? ==>
              route.Text? && route.s != "" && route.s in nodes && route.s !in visited && Enter(nodes, route, visited).node == nodes[route.s]
  {
  }

  lemma FailsAre(node: Node, ans: Answer)
    ensures NextMove(node, ans).Fail? ==>
              (NextMove(node, ans).error.Environment? || NextMove(node, ans).error.UnsupportedKind?) && !node.kind.SubDecision?
    ensures NextMove(node, ans).Finish? ==> !node.kind.SubDecision?
  {
  }

  lemma MembersGrow(p: seq<string>, id: string)
    ensures Members(p + [id]) == Members(p) + {id}
  {
  }

  /** One more node matched on the way to an exit. */
  lemma WalkFails(nodes: NodeMap, o: Oracle, id: string, visited: set<string>, run: Run, steps: nat)
    requires id != "" && id in nodes && nodes[id].id == id && id !in visited && 0 < steps
    ensures NextMove(nodes[id], Ask(o, id)).Fail? ==>
              Walk(nodes, o, Text(id), visited, run, steps) ==
              Run.Run(run.matched + [id], run.trace, run.errors, Threw(NextMove(nodes[id], Ask(o, id)).error))
  {
  }

  lemma {:induction false} WalkStory(nodes: NodeMap, o: Oracle, first: Route, current: Route, run: Run, steps: nat)
    requires forall id :: id in nodes ==> nodes[id].id == id
    requires SoFar(nodes, o, first, run) && Heads(first, run, current) && |run.matched| + steps == STEP_LIMIT
    ensures var r := Walk(nodes, o, current, Members(run.matched), run, steps);
            SoFar(nodes, o, first, r) && ExitReached(nodes, o, first, r)
    decreases steps
  {
    hide NextMove, SoFar, After, Members;
    var visited := Members(run.matched);
    EnterOther(nodes, current, visited);
    if steps == 0 {
      SameStory(nodes, o, first, run, Threw(TooDeep), current);
    } else if Enter(nodes, current, visited).Exits? {
      SameStory(nodes, o, first, run, Threw(Enter(nodes, current, visited).error), current);
    } else {
      hide Enter;
      var id := current.s;
      var node := nodes[id];
      WalkStep(nodes, o, id, visited, run, steps);
      WalkFails(nodes, o, id, visited, run, steps);
      hide Walk;
      var move := NextMove(node, Ask(o, id));
      FailsAre(node, Ask(o, id));
      match move
      case Goto(route) =>
        MatchedGrows(nodes, o, first, run, id, run.exit);
        LeavesFor(nodes, o, first, run, id, route);
        MembersGrow(run.matched, id);
        WalkStory(nodes, o, first, route, After(node, o, run), steps - 1);
      case Finish(result) =>
        MatchedGrows(nodes, o, first, run, id, Ended(result));
        FinishStory(nodes, o, first, run, id, result);
      case Fail(error) =>
        MatchedGrows(nodes, o, first, run, id, Threw(error));
        FailStory(nodes, o, first, run, id, error);
    }
  }

  lemma SameStory(nodes: NodeMap, o: Oracle, first: Route, run: Run, exit: Exit, current: Route)
    requires SoFar(nodes, o, first, run) && Heads(first, run, current)
    ensures SoFar(nodes, o, first, run.(exit := exit)) && Heads(first, run.(exit := exit), current)
  {
    hide NextMove;
  }

  lemma LeavesFor(nodes: NodeMap, o: Oracle, first: Route, run: Run, id: string, route: Route)
    requires |run.trace| == |run.matched| && id in nodes && nodes[id].id == id && NextMove(nodes[id], Ask(o, id)) == Goto(route)
    ensures Heads(first, After(nodes[id], o, run), route) && After(nodes[id], o, run).matched == run.matched + [id]
    ensures After(nodes[id], o, run).(exit := run.exit) == After(nodes[id], o, run)
  {
    hide NextMove;
  }

  lemma FinishStory(nodes: NodeMap, o: Oracle, first: Route, run: Run, id: string, result: string)
    requires Heads(first, run, Text(id)) && id in nodes && nodes[id].id == id
    requires NextMove(nodes[id], Ask(o, id)) == Finish(result) && !nodes[id].kind.SubDecision?
    ensures var r := run.(matched := run.matched + [id], trace := run.trace + [(id, Finish(result))], exit := Ended(result));
            ExitReached(nodes, o, first, r) && r == After(nodes[id], o, run).(exit := Ended(result))
  {
    hide NextMove;
  }

  lemma FailStory(nodes: NodeMap, o: Oracle, first: Route, run: Run, id: string, error: RunError)
    requires Heads(first, run, Text(id)) && id in nodes && NextMove(nodes[id], Ask(o, id)) == Fail(error)
    requires error.Environment? || error.UnsupportedKind?
    ensures ExitReached(nodes, o, first, Run.Run(run.matched + [id], run.trace, run.errors, Threw(error)))
  {
    hide NextMove;
  }

  function EntryRoute(g: Graph): Route {
    if g.entry == "" then Absent else Text(g.entry)
  }

  lemma EvaluateStory(g: Graph, o: Oracle)
    ensures SoFar(ById(g.nodes), o, EntryRoute(g), Evaluate(g, o)) && ExitReached(ById(g.nodes), o, EntryRoute(g), Evaluate(g, o))
  {
    hide Walk, NextMove;
    forall id | id in ById(g.nodes)
      ensures ById(g.nodes)[id].id == id
    {
      ByIdOnly(g.nodes, id);
    }
    assert Members([]) == {};
    WalkStory(ById(g.nodes), o, EntryRoute(g), EntryRoute(g), START, STEP_LIMIT);
  }

  // ----- For every well-shaped graph ---------------------------------------

  /** The exits taken while a node is evaluated, before it is traced. */
  predicate AtNode(exit: Exit) {
    exit.Threw? && (exit.error.Environment? || exit.error.UnsupportedKind?)
  }

  /** A run of a well-shaped graph gets past its entry, and is never too deep. */
  lemma RunStarts(g: Graph, o: Oracle)
    requires WellShaped(g)
    ensures var r := Evaluate(g, o);
            r.matched != [] && r.matched[0] == g.entry && Simple(r.matched) && |r.matched| <= NODE_LIMIT
    ensures Evaluate(g, o).exit != Threw(TooDeep)
  {
    hide Evaluate, WellShaped, NextMove, ById, SoFar, ExitReached, Simple;
    var r := Evaluate(g, o);
    EvaluateStory(g, o);
    EntryEnters(g);
    StoryStarts(ById(g.nodes), o, EntryRoute(g), r);
    ByIdKeysOf(g);
    SimpleFits(r.matched, Ids(g.nodes));
    IdsCount(g.nodes);
    NodesFew(g);
  }

  lemma EntryEnters(g: Graph)
    requires WellShaped(g)
    ensures Enter(ById(g.nodes), EntryRoute(g), Members([])).At? && EntryRoute(g) == Text(g.entry)
  {
    ByIdKeysOf(g);
    hide ById;
    assert Members([]) == {};
  }

  /** A run that could enter its first node matched it. */
  lemma StoryStarts(nodes: NodeMap, o: Oracle, first: Route, r: Run)
    requires SoFar(nodes, o, first, r) && ExitReached(nodes, o, first, r) && Enter(nodes, first, Members([])).At?
    ensures r.matched != [] && first == Text(r.matched[0]) && Simple(r.matched)
    ensures forall i :: 0 <= i < |r.matched| ==> r.matched[i] in nodes
    ensures r.exit == Threw(TooDeep) ==> |r.matched| == STEP_LIMIT
  {
    hide NextMove, Members, Enter;
  }

  lemma ByIdKeysOf(g: Graph)
    requires WellShaped(g)
    ensures ById(g.nodes).Keys == Ids(g.nodes)
  {
    ByIdKeys(g.nodes);
  }

  lemma NodesFew(g: Graph)
    requires WellShaped(g)
    ensures |g.nodes| <= NODE_LIMIT
  {
  }

  /** In every run, however it ends: the matched rules are distinct nodes from the entry on, each of which
      leads to the next as its kind and the answer say; every matched node is traced with where it led,
      except a last one that failed; the errors are the sub-decisions matched; and no node that was left,
      or ended the run, had a throwing answer it needed. */
  lemma RunExplained(g: Graph, o: Oracle)
    requires WellShaped(g)
    ensures var r, nodes := Evaluate(g, o), ById(g.nodes);
            && r.matched != [] && r.matched[0] == g.entry && Simple(r.matched) && |r.matched| <= NODE_LIMIT
            && (forall i :: 0 <= i < |r.matched| ==> r.matched[i] in nodes)
            && (forall i, j :: 0 <= i < j < |r.matched| && j == i + 1 ==>
                  Goes(nodes[r.matched[i]], Ask(o, r.matched[i]), Text(r.matched[j])))
            && |r.trace| == (if AtNode(r.exit) then |r.matched| - 1 else |r.matched|)
            && (forall i :: 0 <= i < |r.trace| ==> r.trace[i].0 == r.matched[i])
            && (forall i, j :: 0 <= i < j < |r.matched| && j == i + 1 ==> r.trace[i].1 == Goto(Text(r.matched[j])))
            && r.errors == SubDecisions(nodes, r.matched)
            && (forall i :: 0 <= i < |r.matched| && (i < |r.matched| - 1 || r.exit.Ended?) ==>
                  !(Evaluates(nodes[r.matched[i]].kind) && Ask(o, r.matched[i]).Throws?))
  {
    hide WellShaped, NextMove, Goes, ById, Ask, Evaluates, Evaluate;
    var r, nodes := Evaluate(g, o), ById(g.nodes);
    RunStarts(g, o);
    EvaluateStory(g, o);
    TraceLength(nodes, o, EntryRoute(g), r);
    forall i, j | 0 <= i < j < |r.matched| && j == i + 1
      ensures Goes(nodes[r.matched[i]], Ask(o, r.matched[i]), Text(r.matched[j]))
    {
      NodeFacts(g, r.matched[i]);
      GoesIff(nodes[r.matched[i]], Ids(g.nodes), Ask(o, r.matched[i]), Text(r.matched[j]));
    }
    forall i | 0 <= i < |r.matched| && (i < |r.matched| - 1 || r.exit.Ended?)
      ensures !(Evaluates(nodes[r.matched[i]].kind) && Ask(o, r.matched[i]).Throws?)
    {
      if i < |r.matched| - 1 { var j := i + 1; assert r.trace[i].1 == Goto(Text(r.matched[j])); }
      EndsIff(nodes[r.matched[i]], Ask(o, r.matched[i]));
    }
  }

  lemma TraceLength(nodes: NodeMap, o: Oracle, first: Route, r: Run)
    requires SoFar(nodes, o, first, r) && ExitReached(nodes, o, first, r) && r.exit != Threw(TooDeep)
    ensures |r.trace| == if AtNode(r.exit) then |r.matched| - 1 else |r.matched|
    ensures r.exit.Ended? && r.trace != [] ==> r.trace[|r.trace| - 1].1.Finish?
  {
  }

  /** The routes the last node may leave the run at, for the exits taken on entering a node. */
  ghost predicate NoNode(nodes: NodeMap, matched: seq<string>, route: Route) {
    Truthy(route) && (route.NonText? || (route.s !in nodes && route.s !in matched))
  }

  /** Which last node and answer lead to which exit, in both directions. */
  ghost predicate ExitsRight(nodes: NodeMap, r: Run, last: Node, ans: Answer) {
    && (forall result :: r.exit == Ended(result) <==> EndsRun(last.kind) && ans.Answers? && result == ResultOf(last))
    && (forall message :: r.exit == Threw(Environment(message)) <==> Evaluates(last.kind) && ans == Throws(message))
    && (forall kind :: r.exit == Threw(UnsupportedKind(kind)) <==> NoKind(kind) && last.kind == kind)
    && (r.exit == Threw(NoNext) <==> exists route :: Goes(last, ans, route) && !Truthy(route))
    && (forall at :: r.exit == Threw(RunError.Circular(at)) <==> Goes(last, ans, Text(at)) && at != "" && at in r.matched)
    && (r.exit == Threw(NotFound) <==> exists route :: Goes(last, ans, route) && NoNode(nodes, r.matched, route))
    && r.exit != Threw(TooDeep)
  }

  /** Every exit of every run, exactly: a result, a throwing answer, a missing kind, no route, a repeated
      node or a route that names no node, by what the last matched node is and was answered. */
  lemma ExitIff(g: Graph, o: Oracle)
    requires WellShaped(g)
    ensures var r, nodes := Evaluate(g, o), ById(g.nodes);
            && r.matched != [] && D.Last(r.matched) in nodes
            && ExitsRight(nodes, r, nodes[D.Last(r.matched)], Ask(o, D.Last(r.matched)))
  {
    hide WellShaped, NextMove, Goes, ById, Ask, Evaluates, Evaluate, ExitsRight;
    var r, nodes := Evaluate(g, o), ById(g.nodes);
    RunStarts(g, o);
    EvaluateStory(g, o);
    var id := D.Last(r.matched);
    NodeFacts(g, id);
    var node, ans := nodes[id], Ask(o, id);
    TraceLength(nodes, o, EntryRoute(g), r);
    EndsIff(node, ans);
    forall route
      ensures NextMove(node, ans) == Goto(route) <==> Goes(node, ans, route)
    {
      GoesIff(node, Ids(g.nodes), ans, route);
    }
    var move := NextMove(node, ans);
    match move
    case Finish(result) => FinishExit(nodes, o, EntryRoute(g), r, node, ans);
    case Fail(error) => FailExit(nodes, o, EntryRoute(g), r, node, ans);
    case Goto(route) => LeavingExit(nodes, o, EntryRoute(g), r, node, ans, route);
  }

  /** The story of a run and its last node. */
  ghost predicate LastStands(nodes: NodeMap, o: Oracle, first: Route, r: Run, node: Node, ans: Answer) {
    && SoFar(nodes, o, first, r) && ExitReached(nodes, o, first, r) && r.exit != Threw(TooDeep)
    && r.matched != [] && D.Last(r.matched) in nodes
    && node == nodes[D.Last(r.matched)] && ans == Ask(o, D.Last(r.matched))
    && (forall route :: NextMove(node, ans) == Goto(route) <==> Goes(node, ans, route))
  }

  /** The last node's move is traced unless it failed. */
  lemma LastMove(nodes: NodeMap, o: Oracle, first: Route, r: Run, node: Node, ans: Answer)
    requires LastStands(nodes, o, first, r, node, ans)
    ensures !AtNode(r.exit) ==> r.trace != [] && r.trace[|r.trace| - 1].1 == NextMove(node, ans)
    ensures AtNode(r.exit) ==> NextMove(node, ans) == Fail(r.exit.error)
    ensures r.exit.Ended? ==> NextMove(node, ans) == Finish(r.exit.result)
  {
    hide NextMove, Goes, Ask;
    TraceLength(nodes, o, first, r);
  }

  lemma FinishExit(nodes: NodeMap, o: Oracle, first: Route, r: Run, node: Node, ans: Answer)
    requires LastStands(nodes, o, first, r, node, ans) && NextMove(node, ans).Finish?
    ensures ExitsRight(nodes, r, node, ans)
  {
    LastMove(nodes, o, first, r, node, ans);
    EndsIff(node, ans);
    hide NextMove, Goes, Ask, SoFar;
    assert !Evaluates(node.kind) || !ans.Throws?;
  }

  lemma FailExit(nodes: NodeMap, o: Oracle, first: Route, r: Run, node: Node, ans: Answer)
    requires LastStands(nodes, o, first, r, node, ans) && NextMove(node, ans).Fail?
    ensures ExitsRight(nodes, r, node, ans)
  {
    LastMove(nodes, o, first, r, node, ans);
    EndsIff(node, ans);
    hide NextMove, Goes, Ask, SoFar;
  }

  lemma LeavingExit(nodes: NodeMap, o: Oracle, first: Route, r: Run, node: Node, ans: Answer, route: Route)
    requires LastStands(nodes, o, first, r, node, ans) && NextMove(node, ans) == Goto(route)
    ensures ExitsRight(nodes, r, node, ans)
  {
    LastMove(nodes, o, first, r, node, ans);
    EndsIff(node, ans);
    EnterIff(nodes, route, r.matched);
    hide NextMove, Goes, Ask, SoFar, Enter, Members, NoNode, Truthy;
    assert Goes(node, ans, route);
    assert Enter(nodes, route, Members(r.matched)) == Exits(r.exit.error);
  }

  /** Which routes fail to enter a node, and how. */
  lemma EnterIff(nodes: NodeMap, route: Route, matched: seq<string>)
    ensures var entry := Enter(nodes, route, Members(matched));
            && (entry == Exits(NoNext) <==> !Truthy(route))
            && (forall at :: entry == Exits(RunError.Circular(at)) <==> route == Text(at) && at != "" && at in matched)
            && (entry == Exits(NotFound) <==> NoNode(nodes, matched, route))
            && (entry.Exits? ==> entry.error.NoNext? || entry.error.Circular? || entry.error.NotFound?)
  {
    if route.Text? { assert route.s in Members(matched) <==> route.s in matched; }
    hide Members;
  }

  /** The trace of a run that ends: one entry per matched node, each leading to the next, the last one
      ending with the result; the errors are the sub-decisions passed, in order. */
  lemma TraceTellsRun(g: Graph, o: Oracle)
    requires WellShaped(g) && Evaluate(g, o).exit.Ended?
    ensures var r := Evaluate(g, o);
            && |r.trace| == |r.matched| && r.matched != []
            && (forall i :: 0 <= i < |r.trace| ==> r.trace[i].0 == r.matched[i])
            && (forall i, j :: 0 <= i < j < |r.trace| && j == i + 1 ==> r.trace[i].1 == Goto(Text(r.matched[j])))
            && r.errors == SubDecisions(ById(g.nodes), r.matched)
            && r.trace[|r.trace| - 1].1 == Finish(r.exit.result)
  {
    RunExplained(g, o);
    EvaluateStory(g, o);
    hide Evaluate, WellShaped, NextMove, Goes;
  }
}
