/** Finite directed graphs given by successor lists: paths, cycles, reachability, and what the
    bookkeeping of a memoised depth-first search means. A successor need not be a node. */
module Digraph {
  type Graph = map<string, seq<string>>

  predicate Edge(g: Graph, a: string, b: string) {
    a in g && b in g[a]
  }

  ghost predicate IsPath(g: Graph, p: seq<string>) {
    && p != []
    && forall i, j :: 0 <= i < j < |p| && j == i + 1 ==> Edge(g, p[i], p[j])
  }

  function Last(p: seq<string>): string
    requires p != []
  {
    p[|p| - 1]
  }

  ghost predicate Connects(g: Graph, p: seq<string>, a: string, b: string) {
    IsPath(g, p) && p[0] == a && Last(p) == b
  }

  ghost predicate Reaches(g: Graph, a: string, b: string) {
    exists p :: Connects(g, p, a, b)
  }

  ghost predicate OnCycle(g: Graph, v: string) {
    exists p :: Connects(g, p, v, v) && 2 <= |p|
  }

  /** A cycle can be reached from `entry`. */
  ghost predicate Cyclic(g: Graph, entry: string) {
    exists v :: Reaches(g, entry, v) && OnCycle(g, v)
  }

  /** Some node of `ends` can be reached from `a`. */
  ghost predicate ReachesAny(g: Graph, a: string, ends: set<string>) {
    exists v :: Reaches(g, a, v) && v in ends
  }

  lemma ReachesSelf(g: Graph, a: string)
    ensures Reaches(g, a, a)
  {
    assert Connects(g, [a], a, a);
  }

  lemma ReachesStep(g: Graph, a: string, b: string, c: string)
    requires Reaches(g, a, b) && Edge(g, b, c)
    ensures Reaches(g, a, c)
  {
    var p :| Connects(g, p, a, b);
    assert Connects(g, p + [c], a, c);
  }

  lemma StepReaches(g: Graph, a: string, b: string, c: string)
    requires Edge(g, a, b) && Reaches(g, b, c)
    ensures Reaches(g, a, c)
  {
    var p :| Connects(g, p, b, c);
    assert Connects(g, [a] + p, a, c);
  }

  lemma PathWithin(g: Graph, p: seq<string>, i: nat, j: nat)
    requires IsPath(g, p) && i <= j < |p|
    ensures Connects(g, p[i..j + 1], p[i], p[j])
  {
  }

  /** A path that visits a node twice contains a cycle. */
  lemma RepeatIsCycle(g: Graph, p: seq<string>, i: nat, j: nat)
    requires IsPath(g, p) && i < j < |p| && p[i] == p[j]
    ensures Cyclic(g, p[0])
  {
    PathWithin(g, p, 0, i);
    PathWithin(g, p, i, j);
    assert Reaches(g, p[0], p[i]) && OnCycle(g, p[i]);
  }

  // ----- Depth-first search ------------------------------------------------

  predicate SomeTrue(targets: seq<string>, memo: map<string, bool>) {
    exists t :: t in targets && t in memo && memo[t]
  }

  /** Node `d` is placed above all its successors that are nodes. */
  ghost predicate Above(g: Graph, rank: map<string, nat>, d: string)
    requires d in g && d in rank
  {
    forall t :: t in g[d] && t in g ==> t in rank && rank[t] < rank[d]
  }

  /** The finished part of the graph is closed and ordered, and each finished node
      remembers whether it is an end or has a finished successor that says yes. */
  ghost predicate Finished(g: Graph, ends: set<string>, memo: map<string, bool>, rank: map<string, nat>) {
    && rank.Keys == memo.Keys <= g.Keys
    && (forall d :: d in memo ==> rank[d] < |memo|)
    && (forall d :: d in memo ==> Above(g, rank, d))
    && (forall d :: d in memo ==> (memo[d] <==> d in ends || SomeTrue(g[d], memo)))
  }

  lemma {:induction false} RanksFall(g: Graph, ends: set<string>, memo: map<string, bool>, rank: map<string, nat>,
                                     p: seq<string>)
    requires Finished(g, ends, memo, rank) && IsPath(g, p) && p[0] in memo && Last(p) in g
    ensures Last(p) in memo
    ensures 2 <= |p| ==> rank[Last(p)] < rank[p[0]]
    decreases |p|
  {
    if 2 <= |p| {
      assert Edge(g, p[0], p[1]);
      assert p[1] in g by {
        if 2 < |p| { assert Edge(g, p[1], p[2]); }
      }
      assert Above(g, rank, p[0]);
      PathWithin(g, p, 1, |p| - 1);
      assert p[1..|p| - 1 + 1] == p[1..];
      RanksFall(g, ends, memo, rank, p[1..]);
    }
  }

  /** No cycle can be reached from a finished node. */
  lemma FinishedAcyclic(g: Graph, ends: set<string>, memo: map<string, bool>, rank: map<string, nat>, d: string)
    requires Finished(g, ends, memo, rank) && d in memo
    ensures !Cyclic(g, d)
  {
    if Cyclic(g, d) {
      var v :| Reaches(g, d, v) && OnCycle(g, v);
      var c :| Connects(g, c, v, v) && 2 <= |c|;
      assert Edge(g, c[0], c[1]);
      var p :| Connects(g, p, d, v);
      RanksFall(g, ends, memo, rank, p);
      RanksFall(g, ends, memo, rank, c);
    }
  }

  /** Every node reachable from a finished node is finished. */
  lemma FinishedClosed(g: Graph, ends: set<string>, memo: map<string, bool>, rank: map<string, nat>,
                       d: string, v: string)
    requires Finished(g, ends, memo, rank) && d in memo && Reaches(g, d, v) && v in g
    ensures v in memo
  {
    var p :| Connects(g, p, d, v);
    RanksFall(g, ends, memo, rank, p);
  }

  /** The memo is right: it says whether an end can be reached. */
  lemma {:induction false} MemoCorrect(g: Graph, ends: set<string>, memo: map<string, bool>, rank: map<string, nat>,
                                       d: string)
    requires Finished(g, ends, memo, rank) && d in memo && ends <= g.Keys
    ensures memo[d] <==> ReachesAny(g, d, ends)
    decreases rank[d]
  {
    if d in ends { ReachesSelf(g, d); }
    if SomeTrue(g[d], memo) {
      var t :| t in g[d] && t in memo && memo[t];
      assert Above(g, rank, d);
      MemoCorrect(g, ends, memo, rank, t);
      var v :| Reaches(g, t, v) && v in ends;
      StepReaches(g, d, t, v);
    }
    if ReachesAny(g, d, ends) && d !in ends {
      var v :| Reaches(g, d, v) && v in ends;
      var p :| Connects(g, p, d, v);
      assert Edge(g, p[0], p[1]);
      PathWithin(g, p, 1, |p| - 1);
      assert Reaches(g, p[1], v);
      if |p| > 2 { assert Edge(g, p[1], p[2]); }
      assert Above(g, rank, d);
      MemoCorrect(g, ends, memo, rank, p[1]);
    }
  }

  /** The nodes being visited are those on the stack, and the stack is a path. */
  ghost predicate OnStack(g: Graph, visiting: set<string>, stack: seq<string>) {
    && (forall v :: v in visiting <==> v in stack)
    && (stack != [] ==> IsPath(g, stack))
  }

  /** Every node seen is either being visited or finished. */
  predicate Accounted(nodes: set<string>, visited: set<string>, visiting: set<string>, done: set<string>) {
    visiting !! done && visited == visiting + done && visited <= nodes
  }

  ghost predicate AllReached(g: Graph, entry: string, visited: set<string>) {
    forall v :: v in visited ==> Reaches(g, entry, v)
  }

  /** What the three shared collections of the search mean while `stack` is being visited,
      outermost node first. */
  ghost predicate Consistent(g: Graph, ends: set<string>, entry: string,
                             visited: set<string>, visiting: set<string>,
                             memo: map<string, bool>, rank: map<string, nat>, stack: seq<string>)
  {
    && Finished(g, ends, memo, rank)
    && OnStack(g, visiting, stack)
    && Accounted(g.Keys, visited, visiting, memo.Keys)
    && AllReached(g, entry, visited)
  }

  /** A node may be visited if it is the entry or a successor of the innermost node being visited. */
  ghost predicate MayVisit(g: Graph, entry: string, stack: seq<string>, id: string) {
    if stack == [] then id == entry else Edge(g, Last(stack), id)
  }

  lemma EnterKeeps(g: Graph, ends: set<string>, entry: string, visited: set<string>, visiting: set<string>,
                   memo: map<string, bool>, rank: map<string, nat>, stack: seq<string>, id: string)
    requires Consistent(g, ends, entry, visited, visiting, memo, rank, stack)
    requires MayVisit(g, entry, stack, id) && id in g && id !in visiting && id !in memo
    ensures Consistent(g, ends, entry, visited + {id}, visiting + {id}, memo, rank, stack + [id])
    ensures id !in stack
  {
    if stack == [] {
      ReachesSelf(g, entry);
    } else {
      assert Last(stack) in stack;
      ReachesStep(g, entry, Last(stack), id);
    }
    PushStack(g, visiting, stack, id);
  }

  lemma PushStack(g: Graph, visiting: set<string>, stack: seq<string>, id: string)
    requires OnStack(g, visiting, stack) && (stack != [] ==> Edge(g, Last(stack), id))
    ensures OnStack(g, visiting + {id}, stack + [id])
  {
    assert forall v :: v in stack + [id] <==> v in stack || v == id;
  }

  lemma PopStack(g: Graph, visiting: set<string>, stack: seq<string>, id: string)
    requires OnStack(g, visiting, stack + [id]) && id !in stack
    ensures OnStack(g, visiting - {id}, stack) && id in visiting
  {
    assert (stack + [id])[|stack|] == id;
    assert forall v :: v in stack + [id] <==> v in stack || v == id;
    if stack != [] {
      PathWithin(g, stack + [id], 0, |stack| - 1);
      assert (stack + [id])[0..|stack| - 1 + 1] == stack;
    }
  }

  lemma MoveAcross(nodes: set<string>, visited: set<string>, visiting: set<string>, done: set<string>, id: string)
    requires Accounted(nodes, visited, visiting, done) && id in visiting
    ensures Accounted(nodes, visited, visiting - {id}, done + {id}) && id !in done
  {
  }

  lemma LeaveKeeps(g: Graph, ends: set<string>, entry: string, visited: set<string>, visiting: set<string>,
                   memo: map<string, bool>, rank: map<string, nat>, stack: seq<string>, id: string, answer: bool)
    requires Consistent(g, ends, entry, visited, visiting, memo, rank, stack + [id])
    requires id !in stack && id in g
    requires AllDone(g, g[id], memo)
    requires answer <==> id in ends || SomeTrue(g[id], memo)
    ensures Consistent(g, ends, entry, visited, visiting - {id}, memo[id := answer], rank[id := |memo|], stack)
  {
    hide Finished, OnStack, Accounted, AllReached, SomeTrue;
    PopStack(g, visiting, stack, id);
    MoveAcross(g.Keys, visited, visiting, memo.Keys, id);
    FinishNode(g, ends, memo, rank, id, answer);
    assert memo[id := answer].Keys == memo.Keys + {id};
  }

  /** Leaving a node brings back what was being visited before it, with one more answer. */
  lemma LeaveRestores(g: Graph, ends: set<string>, entry: string, visited: set<string>,
                      before: set<string>, visiting: set<string>, memo0: map<string, bool>,
                      memo: map<string, bool>, rank: map<string, nat>, stack: seq<string>, id: string, answer: bool)
    requires Consistent(g, ends, entry, visited, visiting, memo, rank, stack + [id])
    requires id !in stack && id in g && visiting == before + {id} && id !in before
    requires AllDone(g, g[id], memo) && Grown(memo0, memo)
    requires answer <==> id in ends || SomeTrue(g[id], memo)
    ensures visiting - {id} == before
    ensures Consistent(g, ends, entry, visited, visiting - {id}, memo[id := answer], rank[id := |memo|], stack)
    ensures Grown(memo0, memo[id := answer])
  {
    LeaveKeeps(g, ends, entry, visited, visiting, memo, rank, stack, id, answer);
    assert id in visiting && id !in memo;
    GrownByOne(memo0, memo, id, answer);
  }

  lemma FinishNode(g: Graph, ends: set<string>, memo: map<string, bool>, rank: map<string, nat>, id: string, answer: bool)
    requires Finished(g, ends, memo, rank) && id !in memo && id in g
    requires AllDone(g, g[id], memo)
    requires answer <==> id in ends || SomeTrue(g[id], memo)
    ensures Finished(g, ends, memo[id := answer], rank[id := |memo|])
  {
    var memo', rank' := memo[id := answer], rank[id := |memo|];
    forall d | d in memo'
      ensures Above(g, rank', d)
      ensures memo'[d] <==> d in ends || SomeTrue(g[d], memo')
    {
      if d == id {
        AboveFinished(g, memo.Keys, rank, id, |memo|);
      } else {
        assert Above(g, rank, d);
        assert rank'[d] == rank[d];
        AboveKept(g, rank, d, id, |memo|);
      }
      SomeTrueKept(g[d], memo, id, answer);
    }
    assert rank'.Keys == memo'.Keys;
  }

  lemma AboveFinished(g: Graph, done: set<string>, rank: map<string, nat>, id: string, top: nat)
    requires id in g && rank.Keys == done && id !in done
    requires forall d :: d in done ==> rank[d] < top
    requires forall t :: t in g[id] && t in g ==> t in done
    ensures Above(g, rank[id := top], id)
  {
  }

  lemma AboveKept(g: Graph, rank: map<string, nat>, d: string, id: string, top: nat)
    requires d in g && d in rank && id in g && id !in rank && Above(g, rank, d)
    ensures Above(g, rank[id := top], d) && id !in g[d]
  {
  }

  /** Remembering a node that is no target changes no other answer. */
  lemma SomeTrueKept(targets: seq<string>, memo: map<string, bool>, id: string, answer: bool)
    requires id !in targets
    ensures SomeTrue(targets, memo[id := answer]) <==> SomeTrue(targets, memo)
  {
    var memo' := memo[id := answer];
    if SomeTrue(targets, memo) {
      var t :| t in targets && t in memo && memo[t];
      assert t in memo' && memo'[t];
    }
    if SomeTrue(targets, memo') {
      var t :| t in targets && t in memo' && memo'[t];
      assert t in memo && memo[t];
    }
  }

  // ----- Memos along the search --------------------------------------------

  predicate Grown(before: map<string, bool>, after: map<string, bool>) {
    forall d :: d in before ==> d in after && after[d] == before[d]
  }

  lemma GrownTransitive(a: map<string, bool>, b: map<string, bool>, c: map<string, bool>)
    requires Grown(a, b) && Grown(b, c)
    ensures Grown(a, c)
  {
  }

  lemma GrownByOne(a: map<string, bool>, b: map<string, bool>, id: string, answer: bool)
    requires Grown(a, b) && id !in b
    ensures Grown(a, b[id := answer])
  {
  }

  predicate AllDone(g: Graph, targets: seq<string>, memo: map<string, bool>) {
    forall t :: t in targets && t in g ==> t in memo
  }

  /** Visiting one more target. */
  lemma NextTarget(g: Graph, list: seq<string>, i: nat, before: map<string, bool>, after: map<string, bool>)
    requires i < |list| && AllDone(g, list[..i], before) && Grown(before, after)
    requires before.Keys <= after.Keys <= g.Keys
    requires list[i] in g ==> list[i] in after
    ensures AllDone(g, list[..i + 1], after)
    ensures SomeTrue(list[..i + 1], after) <==>
            SomeTrue(list[..i], before) || (list[i] in after && after[list[i]])
  {
    assert list[..i + 1] == list[..i] + [list[i]];
    assert forall t :: t in list[..i + 1] <==> t in list[..i] || t == list[i];
    if SomeTrue(list[..i], before) {
      var t :| t in list[..i] && t in before && before[t];
      assert t in list[..i + 1] && t in after && after[t];
    }
    if SomeTrue(list[..i + 1], after) {
      var t :| t in list[..i + 1] && t in after && after[t];
      if t in list[..i] { assert t in before; }
    }
  }

  /** An edge back into the stack closes a cycle. */
  lemma BackEdge(g: Graph, stack: seq<string>, id: string)
    requires stack != [] && IsPath(g, stack) && Edge(g, Last(stack), id) && id in stack
    ensures OnCycle(g, id)
  {
    var i :| 0 <= i < |stack| && stack[i] == id;
    PathWithin(g, stack, i, |stack| - 1);
    var tail := stack[i..|stack| - 1 + 1];
    assert Connects(g, tail + [id], id, id);
  }
}
