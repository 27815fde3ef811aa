/** `validateGraph`: the whole acceptance check of a rule graph, against a declarative
    statement of what an acceptable graph is. */
module GraphCheck {
  import opened Common
  import opened RuleGraph
  import D = Digraph

  datatype Reason =
    | EntryMissing
    | TooManyNodes
    | IdMissing
    | DuplicateId(id: string)
    | UnknownEntry
    | BadRoutes(id: string)
    | Circular(at: string)
    | NoTerminal
    | Unreachable(ids: seq<string>)

  datatype Verdict = Accepted | Rejected(reason: Reason)

  // ----- Single nodes ------------------------------------------------------

  function WeightSum(variants: seq<Variant>): int {
    if variants == [] then 0 else WeightSum(variants[..|variants| - 1]) + variants[|variants| - 1].weight
  }

  predicate VariantOk(v: Variant) {
    !Blank(v.key) && 0 <= v.weight && Counted(v.route)
  }

  predicate SplitOk(variants: seq<Variant>) {
    && 2 <= |variants|
    && (forall i :: 0 <= i < |variants| ==> VariantOk(variants[i]))
    && (forall i, j :: 0 <= i < j < |variants| ==> variants[i].key != variants[j].key)
    && 0 < WeightSum(variants)
  }

  predicate RoutesOk(node: Node, ids: set<string>) {
    Terminal(node.kind) || (OwnRoutesOk(node) && forall t :: t in Targets(node) ==> t in ids)
  }

  predicate OwnRoutesOk(node: Node) {
    match node.kind
    case Condition => Counted(Get(node, "true")) && Counted(Get(node, "false"))
    case ExperimentSplit => SplitOk(node.variants)
    case _ => Counted(Get(node, "next"))
  }

  const ROUTES: set<string> := {"next", "true", "false", "capped", "fallback"}

  predicate Usable(r: Route) { r.Text? && !Blank(r.s) }

  /** Every route of a node that could be followed names a node. */
  predicate NoneAstray(node: Node, ids: set<string>) {
    && (forall name :: name in ROUTES && Usable(Get(node, name)) ==> Get(node, name).s in ids)
    && (node.kind.ExperimentSplit? ==>
          forall v :: v in node.variants && Usable(Or(v.route, v.next)) ==> Or(v.route, v.next).s in ids)
  }

  /** Which nodes pass, kind by kind: a terminal one always; otherwise no usable route may lead astray, a
      condition needs both branches, a split two variants or more that are in order, and any other node
      no more than a next route. */
  lemma RoutesOkIff(node: Node, ids: set<string>)
    ensures RoutesOk(node, ids) <==>
              || node.kind in {Output, Fallback, Failure}
              || (&& NoneAstray(node, ids)
                  && (node.kind.Condition? ==> Usable(Get(node, "true")) && Usable(Get(node, "false")))
                  && (node.kind.ExperimentSplit? ==>
                        && 2 <= |node.variants| && 0 < WeightSum(node.variants)
                        && (forall v :: v in node.variants ==> !Blank(v.key) && 0 <= v.weight && Usable(v.route))
                        && (forall i, j :: 0 <= i < j < |node.variants| ==> node.variants[i].key != node.variants[j].key))
                  && (!node.kind.Condition? && !node.kind.ExperimentSplit? ==> Usable(Get(node, "next"))))
  {
    hide Targets, RouteList, WeightSum;
    AstrayIff(node, ids);
  }

  lemma AstrayIff(node: Node, ids: set<string>)
    ensures NoneAstray(node, ids) <==> forall t :: t in Targets(node) ==> t in ids
  {
    hide Texts, VariantRoutes;
    if NoneAstray(node, ids) {
      forall t | t in Targets(node)
        ensures t in ids
      {
        TargetIsCounted(node, t);
        if node.kind.ExperimentSplit? && Text(t) in VariantRoutes(node.variants) { RouteOfVariant(node.variants, Text(t)); }
      }
    } else {
      if name :| name in ROUTES && Usable(Get(node, name)) && Get(node, name).s !in ids {
        CountedIsTarget(node, Get(node, name));
      } else {
        var v :| v in node.variants && Usable(Or(v.route, v.next)) && Or(v.route, v.next).s !in ids;
        var i :| 0 <= i < |node.variants| && node.variants[i] == v;
        VariantRoutesMembers(node.variants, i);
        CountedIsTarget(node, Or(v.route, v.next));
      }
    }
  }

  lemma {:induction false} RouteOfVariant(variants: seq<Variant>, r: Route)
    requires r in VariantRoutes(variants)
    ensures exists v :: v in variants && Or(v.route, v.next) == r
  {
    if Or(variants[0].route, variants[0].next) != r {
      RouteOfVariant(variants[1..], r);
      var v :| v in variants[1..] && Or(v.route, v.next) == r;
      assert v in variants;
    } else {
      assert variants[0] in variants;
    }
  }

  /** `validateGraphExperimentSplitNode` */
  method CheckSplit(variants: seq<Variant>) returns (ok: bool)
    ensures ok <==> SplitOk(variants)
  {
    if |variants| < 2 { return false; }
    var keys: set<string> := {};
    var totalWeight := 0;
    for i := 0 to |variants|
      invariant keys == set j | 0 <= j < i :: variants[j].key
      invariant forall j :: 0 <= j < i ==> VariantOk(variants[j])
      invariant forall j, k :: 0 <= j < k < i ==> variants[j].key != variants[k].key
      invariant totalWeight == WeightSum(variants[..i])
    {
      var v := variants[i];
      if Blank(v.key) || v.key in keys { return false; }
      keys := keys + {v.key};
      if v.weight < 0 { return false; }
      assert variants[..i + 1][..i] == variants[..i];
      totalWeight := totalWeight + v.weight;
      if !Counted(v.route) { return false; }
    }
    assert variants[..|variants|] == variants;
    ok := 0 < totalWeight;
  }

  /** `validateGraphNodeRoutes` */
  method CheckRoutes(node: Node, ids: set<string>) returns (ok: bool)
    ensures ok <==> RoutesOk(node, ids)
  {
    if Terminal(node.kind) { return true; }
    if node.kind.ExperimentSplit? {
      var split := CheckSplit(node.variants);
      if !split { return false; }
    } else if !OwnRoutesOk(node) {
      return false;
    }
    var targets := Targets(node);
    for i := 0 to |targets|
      invariant forall j :: 0 <= j < i ==> targets[j] in ids
    {
      if targets[i] !in ids { return false; }
    }
    ok := true;
  }

  // ----- Whole graphs ------------------------------------------------------

  /** `new Map(nodes.map(node => [node.id, node]))`: a later node replaces an earlier one. */
  function ById(nodes: seq<Node>): NodeMap {
    if nodes == [] then map[]
    else var node := nodes[|nodes| - 1]; ById(nodes[..|nodes| - 1])[node.id := node]
  }

  predicate DistinctIds(nodes: seq<Node>) {
    forall i, j :: 0 <= i < j < |nodes| ==> nodes[i].id != nodes[j].id
  }

  lemma {:induction false} ByIdLooksUp(nodes: seq<Node>, i: nat)
    requires DistinctIds(nodes) && i < |nodes|
    ensures nodes[i].id in ById(nodes) && ById(nodes)[nodes[i].id] == nodes[i]
  {
    if i < |nodes| - 1 { ByIdLooksUp(nodes[..|nodes| - 1], i); }
  }

  lemma {:induction false} ByIdOnly(nodes: seq<Node>, id: string)
    requires id in ById(nodes)
    ensures ById(nodes)[id] in nodes && ById(nodes)[id].id == id
  {
    if nodes != [] && id != nodes[|nodes| - 1].id { ByIdOnly(nodes[..|nodes| - 1], id); }
  }

  function Ids(nodes: seq<Node>): set<string> {
    set i | 0 <= i < |nodes| :: nodes[i].id
  }

  lemma ByIdKeys(nodes: seq<Node>)
    requires DistinctIds(nodes)
    ensures ById(nodes).Keys == Ids(nodes)
  {
    forall id
      ensures id in ById(nodes) <==> id in Ids(nodes)
    {
      if id in ById(nodes) { ByIdOnly(nodes, id); }
      if id in Ids(nodes) {
        var i :| 0 <= i < |nodes| && nodes[i].id == id;
        ByIdLooksUp(nodes, i);
      }
    }
  }

  function Succ(g: Graph): D.Graph {
    Successors(ById(g.nodes))
  }

  /** Everything the node-by-node part of the check demands. */
  predicate WellShaped(g: Graph) {
    && !Blank(g.entry)
    && |g.nodes| <= 200
    && (forall i :: 0 <= i < |g.nodes| ==> !Blank(g.nodes[i].id))
    && DistinctIds(g.nodes)
    && g.entry in Ids(g.nodes)
    && (forall i :: 0 <= i < |g.nodes| ==> RoutesOk(g.nodes[i], Ids(g.nodes)))
  }

  /** What the documentation promises of an accepted graph: routes lead to nodes, nothing is
      circular, a terminal can be reached and every node can be reached. */
  ghost predicate Acceptable(g: Graph) {
    && WellShaped(g)
    && !D.Cyclic(Succ(g), g.entry)
    && D.ReachesAny(Succ(g), g.entry, Ends(ById(g.nodes)))
    && EveryNodeReached(g)
  }

  ghost predicate EveryNodeReached(g: Graph) {
    forall id :: id in Ids(g.nodes) ==> D.Reaches(Succ(g), g.entry, id)
  }

  ghost predicate Justified(g: Graph, reason: Reason) {
    match reason
    case EntryMissing => Blank(g.entry)
    case TooManyNodes => NODE_LIMIT < |g.nodes|
    case IdMissing => exists i :: 0 <= i < |g.nodes| && Blank(g.nodes[i].id)
    case DuplicateId(id) => exists i, j :: 0 <= i < j < |g.nodes| && g.nodes[i].id == g.nodes[j].id == id
    case UnknownEntry => g.entry !in Ids(g.nodes)
    case BadRoutes(id) => exists i :: 0 <= i < |g.nodes| && g.nodes[i].id == id && !RoutesOk(g.nodes[i], Ids(g.nodes))
    case Circular(at) => D.Reaches(Succ(g), g.entry, at) && D.OnCycle(Succ(g), at)
    case NoTerminal => !D.ReachesAny(Succ(g), g.entry, Ends(ById(g.nodes)))
    case Unreachable(ids) =>
      ids != [] && forall id :: id in ids <==> id in Ids(g.nodes) && !D.Reaches(Succ(g), g.entry, id)
  }

  /** The node-by-node part. */
  method CheckShape(g: Graph) returns (v: Verdict)
    ensures v.Accepted? <==> WellShaped(g)
    ensures v.Rejected? ==> Justified(g, v.reason)
  {
    hide Ids, Blank, RoutesOk, DistinctIds;
    if Blank(g.entry) { return Rejected(EntryMissing); }
    if NODE_LIMIT < |g.nodes| { return Rejected(TooManyNodes); }
    var ids: set<string> := {};
    NoIds();
    for i := 0 to |g.nodes|
      invariant ids == Ids(g.nodes[..i])
      invariant forall j :: 0 <= j < i ==> !Blank(g.nodes[j].id)
      invariant DistinctIds(g.nodes[..i])
    {
      var id := g.nodes[i].id;
      if Blank(id) { return Rejected(IdMissing); }
      if id in ids {
        EarlierId(g.nodes, i);
        return Rejected(DuplicateId(id));
      }
      ids := ids + {id};
      assert g.nodes[..i + 1] == g.nodes[..i] + [g.nodes[i]];
      IdsAppend(g.nodes[..i], g.nodes[i]);
      DistinctAppend(g.nodes[..i], g.nodes[i]);
    }
    assert g.nodes[..|g.nodes|] == g.nodes;
    if g.entry !in ids { return Rejected(UnknownEntry); }
    for i := 0 to |g.nodes|
      invariant forall j :: 0 <= j < i ==> RoutesOk(g.nodes[j], ids)
    {
      var routes := CheckRoutes(g.nodes[i], ids);
      if !routes { return Rejected(BadRoutes(g.nodes[i].id)); }
    }
    v := Accepted;
  }

  lemma NoIds()
    ensures Ids([]) == {} && DistinctIds([])
  {
  }

  lemma EarlierId(nodes: seq<Node>, i: nat)
    requires i < |nodes| && nodes[i].id in Ids(nodes[..i])
    ensures exists j :: 0 <= j < i && nodes[j].id == nodes[i].id
    ensures !DistinctIds(nodes)
  {
    var j :| 0 <= j < i && nodes[..i][j].id == nodes[i].id;
    assert nodes[j].id == nodes[i].id;
  }

  lemma DistinctAppend(nodes: seq<Node>, node: Node)
    requires DistinctIds(nodes) && node.id !in Ids(nodes)
    ensures DistinctIds(nodes + [node])
  {
    forall j | 0 <= j < |nodes|
      ensures nodes[j].id != node.id
    {
      assert nodes[j].id in Ids(nodes);
    }
  }

  lemma IdsAppend(nodes: seq<Node>, node: Node)
    ensures Ids(nodes + [node]) == Ids(nodes) + {node.id}
  {
    assert forall i :: 0 <= i < |nodes| ==> (nodes + [node])[i] == nodes[i];
    assert (nodes + [node])[|nodes|] == node;
    forall id | id in Ids(nodes)
      ensures id in Ids(nodes + [node])
    {
      var i :| 0 <= i < |nodes| && nodes[i].id == id;
      assert (nodes + [node])[i].id == id;
    }
  }

  /** `graph.nodes.filter(node => !visited.has(node.id))`, as ids */
  function NotVisited(nodes: seq<Node>, visited: set<string>): seq<string> {
    if nodes == [] then []
    else (if nodes[0].id in visited then [] else [nodes[0].id]) + NotVisited(nodes[1..], visited)
  }

  lemma {:induction false} NotVisitedMembers(nodes: seq<Node>, visited: set<string>, id: string)
    ensures id in NotVisited(nodes, visited) <==> id in Ids(nodes) && id !in visited
  {
    if nodes != [] {
      NotVisitedMembers(nodes[1..], visited, id);
      assert nodes == [nodes[0]] + nodes[1..];
      if id in Ids(nodes) && id != nodes[0].id {
        var i :| 0 <= i < |nodes| && nodes[i].id == id;
        assert nodes[1..][i - 1].id == id;
      }
      if id in Ids(nodes[1..]) {
        var i :| 0 <= i < |nodes[1..]| && nodes[1..][i].id == id;
        assert nodes[i + 1].id == id;
      }
    }
  }

  /** When the search from the entry ends without raising, it has seen exactly what can be reached. */
  lemma SearchComplete(g: D.Graph, ends: set<string>, entry: string, visited: set<string>, visiting: set<string>,
                       memo: map<string, bool>, rank: map<string, nat>)
    requires D.Consistent(g, ends, entry, visited, visiting, memo, rank, []) && ends <= g.Keys
    requires entry in memo
    ensures visited == memo.Keys
    ensures forall id :: id in g ==> (id in visited <==> D.Reaches(g, entry, id))
    ensures forall id :: id in memo ==> (memo[id] <==> D.ReachesAny(g, id, ends))
    ensures !D.Cyclic(g, entry)
  {
    assert visiting == {};
    forall id | id in g
      ensures id in visited <==> D.Reaches(g, entry, id)
    {
      if D.Reaches(g, entry, id) { D.FinishedClosed(g, ends, memo, rank, entry, id); }
    }
    forall id | id in memo
      ensures memo[id] <==> D.ReachesAny(g, id, ends)
    {
      D.MemoCorrect(g, ends, memo, rank, id);
    }
    D.FinishedAcyclic(g, ends, memo, rank, entry);
  }

  /** The search from the entry, on a graph whose nodes are well shaped. */
  method Search(g: Graph) returns (r: Visited, visited: set<string>)
    requires WellShaped(g)
    ensures r.Raised? ==> D.Reaches(Succ(g), g.entry, r.at) && D.OnCycle(Succ(g), r.at)
    ensures r.Done? ==> !D.Cyclic(Succ(g), g.entry)
    ensures r.Done? ==> (r.terminal <==> D.ReachesAny(Succ(g), g.entry, Ends(ById(g.nodes))))
    ensures r.Done? ==> forall id :: id in Succ(g) ==> (id in visited <==> D.Reaches(Succ(g), g.entry, id))
  {
    EntryIsNode(g);
    hide D.Consistent;
    hide WellShaped;
    var visitor := new GraphVisitor(ById(g.nodes), g.entry);
    MayVisitEntry(visitor.targets, g.entry);
    r := visitor.Visit(g.entry, []);
    visited := visitor.visited;
    if r.Done? {
      SearchComplete(visitor.targets, visitor.ends, g.entry, visitor.visited, visitor.visiting, visitor.memo, visitor.rank);
    }
  }

  /** `validateGraph` accepts exactly the acceptable graphs, and names a real defect otherwise. */
  method ValidateGraph(g: Graph) returns (v: Verdict)
    ensures v.Accepted? <==> Acceptable(g)
    ensures v.Rejected? ==> Justified(g, v.reason)
  {
    v := CheckShape(g);
    if v.Rejected? { return; }
    EntryIsNode(g);
    hide WellShaped;
    hide Succ;
    hide EveryNodeReached;
    var search, visited := Search(g);
    if search.Raised? { return Rejected(Circular(search.at)); }
    if !search.terminal { return Rejected(NoTerminal); }
    UnreachableIds(g, visited);
    var unreachable := NotVisited(g.nodes, visited);
    if unreachable != [] { return Rejected(Unreachable(unreachable)); }
  }

  lemma UnreachableIds(g: Graph, visited: set<string>)
    requires forall id :: id in Ids(g.nodes) ==> (id in visited <==> D.Reaches(Succ(g), g.entry, id))
    ensures NotVisited(g.nodes, visited) == [] <==> EveryNodeReached(g)
    ensures NotVisited(g.nodes, visited) != [] ==> Justified(g, Unreachable(NotVisited(g.nodes, visited)))
  {
    var unreachable := NotVisited(g.nodes, visited);
    forall id
      ensures id in unreachable <==> id in Ids(g.nodes) && id !in visited
    {
      NotVisitedMembers(g.nodes, visited, id);
    }
    if unreachable != [] { assert unreachable[0] in unreachable; }
  }

  lemma MayVisitEntry(g: D.Graph, entry: string)
    ensures D.MayVisit(g, entry, [], entry)
  {
  }

  lemma EntryIsNode(g: Graph)
    requires WellShaped(g)
    ensures g.entry in Succ(g) && Succ(g).Keys == Ids(g.nodes)
  {
    ByIdKeys(g.nodes);
  }
}
