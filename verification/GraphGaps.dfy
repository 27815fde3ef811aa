/** Graphs that the validator accepts and the interpreter cannot run. */
module GraphGaps {
  import opened Common
  import opened RuleGraph
  import opened GraphCheck
  import opened GraphRun
  import D = Digraph

  /** A node of the given kind, with this fallback, leading to an output. */
  function TwoNodes(kind: Kind, fallback: Route): Graph {
    Graph("a", [Node("a", kind, map["next" := Text("b"), "fallback" := fallback], [], 0, ""),
                Node("b", Output, map[], [], 0, "eligible")])
  }

  /** The kinds of node that a `next` route is enough to accept, with a fallback that is not counted: it
      may be missing, blank or no string, and for a sub-decision it is one of the latter two. */
  predicate Gap(kind: Kind, fallback: Route) {
    !Counted(fallback) && (kind.Untyped? || kind.Unknown? || kind.FrequencyCap? || (kind.SubDecision? && Truthy(fallback)))
  }

  lemma {:induction false} NoTexts(routes: seq<Route>)
    requires forall i :: 0 <= i < |routes| ==> !Counted(routes[i])
    ensures Texts(routes) == []
  {
    if routes != [] { NoTexts(routes[1..]); }
  }

  lemma OnlyNext(node: Node, t: string, fallback: Route)
    requires !node.kind.ExperimentSplit? && node.routes == map["next" := Text(t), "fallback" := fallback]
    requires !Blank(t) && !Counted(fallback)
    ensures Targets(node) == [t]
  {
    var list := RouteList(node);
    assert list == [Text(t), Absent, Absent, Absent, fallback];
    NoTexts(list[1..]);
  }

  lemma NoRoutes(node: Node)
    requires !node.kind.ExperimentSplit? && node.routes == map[]
    ensures Targets(node) == []
  {
    assert RouteList(node) == [Absent, Absent, Absent, Absent, Absent];
    NoTexts(RouteList(node));
  }

  lemma LettersNotBlank()
    ensures !Blank("a") && !Blank("b")
  {
    assert !IsSpace("a"[0]) && !IsSpace("b"[0]);
  }

  lemma TwoNodesMap(kind: Kind, fallback: Route)
    ensures var nodes := TwoNodes(kind, fallback).nodes; ById(nodes) == map["a" := nodes[0], "b" := nodes[1]]
  {
    var nodes := TwoNodes(kind, fallback).nodes;
    assert nodes[..1] == [nodes[0]] && nodes[..1][..0] == [];
    assert ById(nodes[..1]) == map["a" := nodes[0]];
  }

  lemma TwoNodesSearched(kind: Kind, fallback: Route)
    requires Gap(kind, fallback)
    ensures Succ(TwoNodes(kind, fallback)) == map["a" := ["b"], "b" := []]
    ensures Ends(ById(TwoNodes(kind, fallback).nodes)) == {"b"}
  {
    hide Targets;
    hide Blank;
    TwoNodesMap(kind, fallback);
    LettersNotBlank();
    OnlyNext(TwoNodes(kind, fallback).nodes[0], "b", fallback);
    NoRoutes(TwoNodes(kind, fallback).nodes[1]);
  }

  lemma TwoNodesShape(kind: Kind, fallback: Route)
    requires Gap(kind, fallback)
    ensures WellShaped(TwoNodes(kind, fallback))
  {
    hide Targets;
    hide Blank;
    var g := TwoNodes(kind, fallback);
    LettersNotBlank();
    OnlyNext(g.nodes[0], "b", fallback);
    assert g.nodes[0].id in Ids(g.nodes) && g.nodes[1].id in Ids(g.nodes);
  }

  lemma TwoNodesPaths(kind: Kind, fallback: Route)
    requires Gap(kind, fallback)
    ensures var g := TwoNodes(kind, fallback);
            && !D.Cyclic(Succ(g), "a")
            && D.ReachesAny(Succ(g), "a", {"b"})
            && D.Reaches(Succ(g), "a", "a") && D.Reaches(Succ(g), "a", "b")
  {
    TwoNodesSearched(kind, fallback);
    hide Succ;
    OneEdge(Succ(TwoNodes(kind, fallback)));
  }

  lemma OneEdge(s: D.Graph)
    requires s == map["a" := ["b"], "b" := []]
    ensures !D.Cyclic(s, "a") && D.ReachesAny(s, "a", {"b"}) && D.Reaches(s, "a", "a") && D.Reaches(s, "a", "b")
  {
    D.ReachesSelf(s, "a");
    D.ReachesStep(s, "a", "a", "b");
    OneEdgeFinished(s);
    D.FinishedAcyclic(s, {"b"}, map["b" := true, "a" := true], map["b" := 0, "a" := 1], "a");
  }

  lemma OneEdgeFinished(s: D.Graph)
    requires s == map["a" := ["b"], "b" := []]
    ensures D.Finished(s, {"b"}, map["b" := true, "a" := true], map["b" := 0, "a" := 1])
  {
    var memo := map["b" := true, "a" := true];
    assert memo.Keys == {"a", "b"} && |memo| == 2;
    assert "b" in s["a"] && memo["b"];
  }

  lemma TwoNodesAcceptable(kind: Kind, fallback: Route)
    requires Gap(kind, fallback)
    ensures Acceptable(TwoNodes(kind, fallback))
  {
    TwoNodesShape(kind, fallback);
    TwoNodesPaths(kind, fallback);
    TwoNodesSearched(kind, fallback);
    hide WellShaped;
    hide Succ;
    hide D.Cyclic;
    hide D.ReachesAny;
    hide D.Reaches;
  }

  /** An untyped or unknown node, a capped node without a capped exit, and a sub-decision with a blank or
      non-string fallback pass the validator and yet stop the interpreter on some request whose expressions do not throw. */
  lemma AcceptedYetThrows(kind: Kind, fallback: Route)
    requires Gap(kind, fallback)
    ensures Acceptable(TwoNodes(kind, fallback))
    ensures exists o: Oracle :: NeverThrows(o) && Evaluate(TwoNodes(kind, fallback), o).exit.Threw?
  {
    hide *;
    TwoNodesAcceptable(kind, fallback);
    EntryNotRunnable(kind, fallback);
    RunsToTerminalIff(TwoNodes(kind, fallback));
    EndsOrThrows(TwoNodes(kind, fallback));
  }

  /** The first node is reached by every request and is not runnable. */
  lemma EntryNotRunnable(kind: Kind, fallback: Route)
    requires Gap(kind, fallback)
    ensures !RunnableWhereDriven(TwoNodes(kind, fallback))
  {
    hide ById, CanTake, NextMove;
    var g := TwoNodes(kind, fallback);
    TwoNodesMap(kind, fallback);
    assert Driven(g, ["a"]) && D.Last(["a"]) == "a";
    assert DrivenTo(g, "a") && !Runnable(ById(g.nodes)["a"]);
  }

  lemma EndsOrThrows(g: Graph)
    requires !forall o: Oracle :: NeverThrows(o) ==> Evaluate(g, o).exit.Ended?
    ensures exists o: Oracle :: NeverThrows(o) && Evaluate(g, o).exit.Threw?
  {
    hide Evaluate;
    var o: Oracle :| NeverThrows(o) && !Evaluate(g, o).exit.Ended?;
    assert Evaluate(g, o).exit.Threw?;
  }
}
