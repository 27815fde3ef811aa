/** Rule graphs and the validator that accepts them: route checks per node, then one
    memoised depth-first search that finds cycles and unreachable nodes. */
module RuleGraph {
  import opened Common
  import D = Digraph

  // ----- Graphs ------------------------------------------------------------

  /** A property of a node used as a route: missing or falsy, text, or a truthy value that is no string. */
  datatype Route = Absent | Text(s: string) | NonText

  /** `alias` is the name a variant without a usable key gets: its id, its name or its position. */
  datatype Variant = Variant(key: string, alias: string, weight: int, route: Route, next: Route)

  datatype Kind =
    | Untyped
    | Input | Condition | Score | Lookup | FrequencyCap | ExperimentSplit | SubDecision
    | Output | Fallback | Failure
    | Unknown(name: string)

  /** `routes` holds the node's properties by name; `max` is the cap of a frequency_cap node. */
  datatype Node = Node(id: string, kind: Kind, routes: map<string, Route>, variants: seq<Variant>, max: int, result: string)

  datatype Graph = Graph(entry: string, nodes: seq<Node>)

  const NODE_LIMIT := 200

  /** JavaScript truthiness of a route value. */
  predicate Truthy(r: Route) {
    r.NonText? || (r.Text? && r.s != "")
  }

  /** `a || b` */
  function Or(a: Route, b: Route): Route {
    if Truthy(a) then a else b
  }

  /** The routes the validator counts: strings that are not blank. */
  predicate Counted(r: Route) {
    r.Text? && !Blank(r.s)
  }

  function Get(node: Node, key: string): Route {
    if key in node.routes then node.routes[key] else Absent
  }

  predicate Terminal(kind: Kind) {
    kind in {Output, Fallback, Failure}
  }

  // ----- Targets -----------------------------------------------------------

  function VariantRoutes(variants: seq<Variant>): seq<Route> {
    if variants == [] then []
    else [Or(variants[0].route, variants[0].next)] + VariantRoutes(variants[1..])
  }

  /** Keep the counted routes, as node ids. */
  function Texts(routes: seq<Route>): seq<string> {
    if routes == [] then []
    else (if Counted(routes[0]) then [routes[0].s] else []) + Texts(routes[1..])
  }

  function RouteList(node: Node): seq<Route> {
    (if node.kind.ExperimentSplit? then VariantRoutes(node.variants) else [])
    + [Get(node, "next"), Get(node, "true"), Get(node, "false"), Get(node, "capped"), Get(node, "fallback")]
  }

  /** `graphNodeTargets` */
  function Targets(node: Node): seq<string> {
    Texts(RouteList(node))
  }

  lemma {:induction false} TextsMembers(routes: seq<Route>, t: string)
    ensures t in Texts(routes) <==> Text(t) in routes && !Blank(t)
  {
    if routes != [] { TextsMembers(routes[1..], t); }
  }

  lemma {:induction false} VariantRoutesMembers(variants: seq<Variant>, i: nat)
    requires i < |variants|
    ensures Or(variants[i].route, variants[i].next) in VariantRoutes(variants)
  {
    if i > 0 { VariantRoutesMembers(variants[1..], i - 1); }
  }

  /** Every counted route of a node is one of its targets. */
  lemma CountedIsTarget(node: Node, r: Route)
    requires r in RouteList(node) && Counted(r)
    ensures r.s in Targets(node)
  {
    TextsMembers(RouteList(node), r.s);
  }

  lemma TargetIsCounted(node: Node, t: string)
    requires t in Targets(node)
    ensures Text(t) in RouteList(node) && !Blank(t)
  {
    TextsMembers(RouteList(node), t);
  }

  // ----- The depth-first search --------------------------------------------

  type NodeMap = map<string, Node>

  /** The directed graph that the validator searches. */
  function Successors(nodes: NodeMap): D.Graph {
    map id | id in nodes :: Targets(nodes[id])
  }

  function Ends(nodes: NodeMap): set<string> {
    set id | id in nodes && Terminal(nodes[id].kind)
  }

  /** Outcome of visiting a node: a cycle was found at `at`, or whether a terminal is reachable. */
  datatype Visited = Raised(at: string) | Done(terminal: bool)

  /** `visitGraphNode` with its three shared collections. */
  class GraphVisitor {
    const targets: D.Graph
    const ends: set<string>
    const entry: string
    var visited: set<string>
    var visiting: set<string>
    var memo: map<string, bool>
    ghost var rank: map<string, nat>

    constructor (nodes: NodeMap, entry: string)
      ensures targets == Successors(nodes) && ends == Ends(nodes) && this.entry == entry
      ensures Valid([]) && memo == map[]
    {
      this.targets, this.ends, this.entry := Successors(nodes), Ends(nodes), entry;
      visited, visiting, memo, rank := {}, {}, map[], map[];
    }

    /** `stack` is the path of nodes being visited, outermost first. */
    ghost predicate Valid(stack: seq<string>)
      reads this
    {
      D.Consistent(targets, ends, entry, visited, visiting, memo, rank, stack)
    }

    method Visit(id: string, ghost stack: seq<string>) returns (r: Visited)
      requires Valid(stack) && D.MayVisit(targets, entry, stack, id)
      modifies this`visited, this`visiting, this`memo, this`rank
      ensures r.Raised? ==> D.Reaches(targets, entry, r.at) && D.OnCycle(targets, r.at)
      ensures r.Done? ==> Valid(stack) && visiting == old(visiting) && D.Grown(old(memo), memo)
      ensures r.Done? ==> (r.terminal <==> id in memo && memo[id])
      ensures r.Done? && id in targets ==> id in memo
      decreases targets.Keys - visiting, 0
    {
      hide D.Consistent;
      hide D.MayVisit;
      if id in visiting {
        StackRepeats(stack, id);
        return Raised(id);
      }
      if id in memo { return Done(memo[id]); }
      if id !in targets { return Done(false); }
      D.EnterKeeps(targets, ends, entry, visited, visiting, memo, rank, stack, id);
      visiting, visited := visiting + {id}, visited + {id};
      var children := VisitAll(id, stack);
      if children.Raised? { return children; }
      var reachesTerminal := id in ends || children.terminal;
      D.LeaveRestores(targets, ends, entry, visited, old(visiting), visiting, old(memo), memo, rank, stack, id,
                      reachesTerminal);
      visiting := visiting - {id};
      rank := rank[id := |memo|];
      memo := memo[id := reachesTerminal];
      return Done(reachesTerminal);
    }

    /** Visit the targets of `id` in order; the answer is whether one of them reaches a terminal. */
    method VisitAll(id: string, ghost stack: seq<string>) returns (r: Visited)
      requires Valid(stack + [id]) && id in targets
      modifies this`visited, this`visiting, this`memo, this`rank
      ensures r.Raised? ==> D.Reaches(targets, entry, r.at) && D.OnCycle(targets, r.at)
      ensures r.Done? ==> Valid(stack + [id]) && visiting == old(visiting) && D.Grown(old(memo), memo)
      ensures r.Done? ==> D.AllDone(targets, targets[id], memo)
      ensures r.Done? ==> (r.terminal <==> D.SomeTrue(targets[id], memo))
      decreases targets.Keys - visiting, 1
    {
      var list, someChild, i := targets[id], false, 0;
      while i < |list|
        invariant 0 <= i <= |list|
        invariant Valid(stack + [id]) && visiting == old(visiting) && D.Grown(old(memo), memo)
        invariant D.AllDone(targets, list[..i], memo)
        invariant someChild <==> D.SomeTrue(list[..i], memo)
      {
        ghost var before := memo;
        assert D.Edge(targets, id, list[i]);
        MemoWithin(stack + [id]);
        var child := Visit(list[i], stack + [id]);
        if child.Raised? { return child; }
        MemoWithin(stack + [id]);
        D.NextTarget(targets, list, i, before, memo);
        D.GrownTransitive(old(memo), before, memo);
        someChild := someChild || child.terminal;
        i := i + 1;
      }
      assert list[..i] == list;
      r := Done(someChild);
    }

    lemma StackRepeats(stack: seq<string>, id: string)
      requires Valid(stack) && D.MayVisit(targets, entry, stack, id) && id in visiting
      ensures D.Reaches(targets, entry, id) && D.OnCycle(targets, id)
    {
      D.BackEdge(targets, stack, id);
    }

    lemma MemoWithin(stack: seq<string>)
      requires Valid(stack)
      ensures memo.Keys <= targets.Keys
    {
    }
  }
}
