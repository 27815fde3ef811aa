# Decision engine: a verified model

This project models the decision engine of the repository, the shared runtime state it depends on and the rule
lifecycle store, and proves what they keep. `dafny verify dfyconfig.toml` checks all of it.

- **Rule graphs.** `RuleGraph.dfy`, `GraphCheck.dfy`: the graph validator, a memoised depth-first search over three shared
  collections, against paths, cycles and reachability (`Digraph.dfy`). `GraphRun.dfy`: the interpreter, and
  when an accepted graph is sure to run to a terminal. `GraphStory.dfy`: what every run passed, traced and ended by.
  `GraphGaps.dfy`: accepted graphs that cannot run.
- **Expressions.** `Expression.dfy`, `Parser.dfy`: the parser that evaluates while it reads, as a class over a mutable
  position. `ExpressionTrees.dfy`, `ExpressionReading.dfy`: its relation to expression trees printed by precedence, both ways.
  `ExpressionOrder.dfy`: precedence and order of operands, read off the tokens.
- **Shared state.** `Snapshots.dfy` (optimistic snapshot writer), `RateLimiter.dfy` and `PostgresLimiter.dfy` (fixed-window
  limiter twice), `TtlCache.dfy` and `ReplicaCache.dfy` (cache twice, and under interleaving),
  `CircuitBreaker.dfy`: small state machines over all runs. Times are integer milliseconds, every SQL statement is one
  atomic step.
- **Experiment assignment.** `Assignment.dfy`: the 32-bit hash and the weighted and fixed splits in exact integer arithmetic.
- **Rule lifecycle.** `RuleStore.dfy`, `Lifecycle.dfy`: create, edit, submit, approve, publish, roll back, archive, duplicate,
  move, over every run of requests.
- **Canonical forms and diffs.** `Json.dfy`, `CanonicalJson.dfy`, `CacheKey.dfy`: JSON text, its key-order-free form, cache
  keys. `Diff.dfy`: the structural diff.
- **Audiences.** `ConditionMeaning.dfy`, `ConditionLeaves.dfy`, `ConditionAcceptance.dfy`: what a condition decides, operator by
  operator, and which ones are accepted. `ConditionSignature.dfy`, `SignatureEquality.dfy`, `CampaignConflicts.dfy`: its
  signature, when two signatures are equal, and the conflict warnings.
- **Decision stacks.** `DecisionStack.dfy`: runs over the steps of a stack.

Where the source updates fields or local variables step by step, the model is a class or a method with loops, specified by
a function; the properties are lemmas about that function. Clocks, hosts of expressions, collation, environments and the
outcome of evaluating one rule are parameters.

What the proofs brought to light about the code:

- A graph the validator accepts can still throw: an untyped or unknown node, a frequency cap without a capped, false or
  fallback route, or a sub-decision whose fallback is blank or no string (`GraphGaps.AcceptedYetThrows`). The exact
  condition is in `GraphRun.RunsToTerminalIff`.
- When the left operand decides an or-operator or an and-operator, its right operand is not parsed: a well-formed expression
  then fails, and an operator without right operand is accepted (`ExpressionTrees.ErrsExactlyWhenDecided`,
  `ExpressionReading.DanglingAccepted`). An accepted expression never has a wrong value.
- The table limiter also counts blocked calls. The two limiters decide alike for calls of some costs exactly when no sum of
  such costs within the limit leaves room for one of them and not for another (`PostgresLimiter.LimitersAgreeIff`): always
  for one cost, of any size, and never for two costs of which only one fits at first.
- A late delete of an expired cache row can remove a fresh one (`ReplicaCache.FreshRowLost`); that is the only way in which
  interleaved replicas leave a wrong row or get a wrong answer (`ReplicaCache.TableRefinesIff`, `ReplicaCache.GetIsRightIff`).
- A rule created with metadata that already claims approval of its own draft can be published unreviewed with the approval
  workflow on (`Lifecycle.PreapprovedIff`), and so can the draft of an edit or rollback that lands between the guard of a
  publish and its store call (`Lifecycle.LateEditPublished`); there is no other way (`Lifecycle.PublishedWasApproved`).
- Two conditions that differ in the order of a literal list share a signature although the operators that read the list as
  text tell them apart; equality, list, blank and numeric operators do not (`ConditionSignature.LiteralOrderIff`,
  `ConditionSignature.ContainmentOrderIff`).
- An accepted condition throws when an operator has to convert a literal object with a `toString` key of its own, and
  otherwise only where a host operation or the conversion of what was read does (`ConditionMeaning.AcceptedSafeIff`).

## Model

| member | source | states |
|---|---|---|
| RuleGraph.CountedIsTarget | src/validation.js:522-531 | every route that is a non-blank string, variant routes included, is among the targets the search follows |
| RuleGraph.TargetIsCounted | src/validation.js:522-531 | and the targets are nothing else |
| RuleGraph.GraphVisitor.Visit | src/validation.js:506-520 | raising means the named node is reachable from the entry and lies on a cycle; otherwise the three collections keep their meaning, what was being visited is restored, no memo entry changes, and the answer is the memo entry; terminates because the set being visited grows |
| RuleGraph.GraphVisitor.VisitAll | src/validation.js:514-516 | all targets are visited before any answer is combined, and the answer is whether one of them reaches a terminal |
| Digraph.MemoCorrect | src/validation.js:516-518 | a memo entry is true exactly when a terminal node is reachable from that node |
| Digraph.FinishedAcyclic | src/validation.js:507-518 | no cycle is reachable from a node that has a memo entry |
| Digraph.FinishedClosed | src/validation.js:512-518 | every node reachable from a node with a memo entry has one |
| GraphCheck.SearchComplete | src/validation.js:461-465 | after a search without a cycle, visited is exactly the set of nodes reachable from the entry and no cycle is reachable |
| GraphCheck.Search | src/validation.js:461-463 | the search started with empty collections raises only on a real cycle, answers whether a terminal is reachable, and leaves the reachable nodes visited |
| GraphCheck.CheckSplit | src/validation.js:488-504 | a split passes exactly when it has two variants or more, non-blank distinct keys, non-negative weights with a positive sum, and a non-blank route each |
| GraphCheck.CheckRoutes | src/validation.js:469-486 | a node passes exactly when the routes its type requires are non-blank and every target is a node |
| GraphCheck.RoutesOkIff | src/validation.js:469-504 | the same kind by kind: a terminal node always passes; otherwise no usable route names a missing node, a condition has both branches, a split two variants or more in order, any other node a next route and need have no more |
| GraphCheck.CheckShape | src/validation.js:447-460 | the node-by-node part passes exactly when entry, limit, ids and routes are in order, and names a real defect otherwise |
| GraphCheck.ValidateGraph | src/validation.js:445-467 | a graph is accepted exactly when it is well shaped, no cycle is reachable, a terminal is reachable and every node is reachable; a rejection names a defect the graph has |
| Digraph.RepeatIsCycle | src/validation.js:507 | a walk that visits a node twice contains a cycle |
| GraphRun.EvaluateGraph | src/evaluator.js:211-324 | the interpreter loop over current, visited, matched rules, trace and errors computes the walk that the lemmas below are about |
| GraphRun.TakenIsTarget | src/evaluator.js:224-311 | every non-blank route a checked node can take is one of the targets the validator followed |
| GraphRun.MoveIsTakeable | src/evaluator.js:224-311 | what an answer leads to is one of the routes listed for the kind of node |
| GraphRun.TakeableAnswer | src/evaluator.js:224-311 | and each listed route is what some answer leads to, the variant of a split by a forced key or a hash that falls to it |
| GraphRun.SplitTakesVariant | src/evaluator.js:450-457 | a checked split always leads to the route of one of its variants |
| GraphRun.ForcedVariant | src/evaluator.js:453-455 | a forced key that names a variant selects the first such variant |
| GraphRun.WeightedByHash | src/evaluator.js:455-457 | otherwise the variant is the first whose cumulative weight covers the hash of the seed |
| GraphRun.AcceptedRunsToTerminal | src/evaluator.js:211-324 | an accepted graph whose reachable nodes are runnable ends at an output, fallback or error node in every environment without a throwing expression; none of the internal error exits is reached; the matched rules are a simple path from the entry of at most 200 nodes |
| GraphRun.RunsToTerminalIff | src/evaluator.js:211-324 | and that condition is exact for environments that answer each node independently: every such environment without a throwing expression ends at a terminal if and only if every node that can be led to is runnable |
| GraphRun.RunnableNodesSuffice | src/evaluator.js:276-320 | known types and a non-blank capped exit on every node are enough, whatever the routes |
| GraphStory.MoveIff | src/evaluator.js:224-317 | kind by kind, exactly which answers of a node lead on, and to which route, which end the run, and which throw |
| GraphStory.RunExplained | src/evaluator.js:211-324 | every run, however it ends: its matched rules are distinct nodes from the entry, each leading to the next by what its node and the answer say (branch by outcome, exit of a cap by count, variant by forced key or hash); each is traced with where it led, except a last one that failed; the errors are the sub-decisions passed; no node that was left or ended the run had a throwing answer |
| GraphStory.ExitIff | src/evaluator.js:216-323 | which exit a run takes, exactly, by the kind and answer of its last matched rule: the result of a terminal node, an expression that throws at a condition, score, lookup, cap or terminal node, an unknown kind, a missing or unknown route, a node met again; the depth exit is never taken |
| GraphStory.TraceTellsRun | src/evaluator.js:216-323 | one trace entry per matched rule, each leading to the next matched rule, the last with the result; the errors are exactly the sub-decisions passed |
| GraphGaps.AcceptedYetThrows | src/validation.js:469-486 | for each of the four kinds of node with a gap there is an accepted graph that throws in an environment without throwing expressions |
| Parser.Parser.Match | src/expression.js:136-140 | moves past the token exactly when it stands at the position |
| Parser.Parser.Run | src/expression.js:3-8 | parsing the whole token list and demanding the end gives the result the tree lemmas are about |
| Parser.Parser.ParseOr | src/expression.js:35-39 | value or error and new position of level one, the right operand being skipped when the left is truthy |
| Parser.Parser.ParseAnd | src/expression.js:41-45 | the same for level two, skipped when the left is falsy |
| Parser.Parser.ParseEquality | src/expression.js:47-54 | the left-associative loop of level three |
| Parser.Parser.ParseComparison | src/expression.js:56-68 | the left-associative loop of level four |
| Parser.Parser.ParseTerm | src/expression.js:70-77 | the left-associative loop of level five |
| Parser.Parser.ParseFactor | src/expression.js:79-86 | the left-associative loop of level six |
| Parser.Parser.ParseUnary | src/expression.js:88-92 | prefix operators, innermost first |
| Parser.Parser.ParsePrimary | src/expression.js:94-113 | literals, parentheses, arrays and calls, with the error of each failure |
| Parser.Parser.ParseItems | src/expression.js:115-134 | comma-separated values up to the closer |
| ExpressionTrees.Handles | src/expression.js:35-134 | at any position, the parser reads the print of a tree whole and with the outcome of the tree, or fails when an operand is decided or fails |
| ExpressionTrees.EvaluatesIff | src/expression.js:3-8 | a tree printed by precedence evaluates if and only if its tree-walk value exists and no operator with a right operand is decided by its left one; the result is then that value |
| ExpressionTrees.ErrsExactlyWhenDecided | src/expression.js:35-45 | when no operand fails, evaluation errs exactly when some or-operator meets a truthy left value or some and-operator a falsy one |
| ExpressionOrder.TwoOperands | src/expression.js:35-86 | an operator between two literals is applied to them in order |
| ExpressionOrder.LaterGroupFirst | src/expression.js:35-86 | of two operators, the six groups being listed outright, the one of the later group is applied first, and the left one of the same group |
| ExpressionOrder.PrefixFirst | src/expression.js:88-92 | a prefix operator is applied before any binary one on either side |
| ExpressionOrder.ParenthesesFirst | src/expression.js:97-101 | an operator in parentheses is applied before the one outside |
| ExpressionOrder.ListsAndCalls | src/expression.js:94-134 | an array has its items in order, and a call gives the answer of the named function on its arguments in order, `in` being a name too |
| ExpressionReading.AcceptsExactlyPrints | src/expression.js:3-157 | conversely a token list has a value if and only if it is the print of a tree with that tree-walk value in which no right operand is decided away |
| ExpressionReading.DanglingAccepted | src/expression.js:37 | a missing right operand is accepted when the left one decides |
| Snapshots.SnapshotTable.ReadSnapshot | src/storePostgres.js:94-103 | the revision seen is that of the row, zero without one |
| Snapshots.SnapshotTable.WriteSnapshot | src/storePostgres.js:105-124 | the row is replaced and its revision raised exactly when it has the expected revision or is missing; otherwise the call fails and nothing changes |
| Snapshots.InvKept | src/storePostgres.js:39-41 | every step of any process keeps: no process is ahead of the row, pending saves are no newer than their process, an unanswered success replaced what its process had seen, one per process |
| Snapshots.ExecuteIff | src/storePostgres.js:112-122 | the database accepts a statement exactly when it names the stored revision, which then rises by one |
| Snapshots.RevisionsCountCommits | src/storePostgres.js:105-124 | over every interleaving the revision rises by exactly one per successful write, and each committed snapshot came from a process whose latest was the revision it replaced |
| Snapshots.BehindNeverCommits | src/storePostgres.js:120-122 | a process behind the stored revision without an unanswered success of its own never commits again |
| Snapshots.OverlappingSaves | src/storePostgres.js:39-41 | of two overlapping saves from one revision at most one commits |
| Snapshots.SaveCommitsIff | src/storePostgres.js:39-41 | a save commits exactly when its process was up to date when it began and nobody has committed since; then it stores its snapshot under the next revision |
| Snapshots.AnswerTellsRevision | src/storePostgres.js:39-41 | after an answered success, whatever happened in between, latest is the revision that write stored; after a refusal it is unchanged |
| Snapshots.EverySaveCommits | src/storePostgres.js:39-41 | n saves of an up-to-date process, each undisturbed and answered before the next, make n commits in order, and leave it up to date |
| Snapshots.FreshProcessSaves | src/storePostgres.js:31-41 | a process that has just read the snapshot is up to date and can make any number of such saves |
| RateLimiter.MemoryLimiter.Prune | src/rateLimiter.js:65-69 | removes exactly the expired buckets |
| RateLimiter.MemoryLimiter.Check | src/rateLimiter.js:11-44 | bucket, outcome and counters of one check, and the disabled limiter |
| RateLimiter.TwiceTheLimit | src/rateLimiter.js:11-44 | over every timed run, the cost allowed to a key in any closed interval of one window length is at most twice the limit |
| RateLimiter.OneBucket | src/rateLimiter.js:20-41 | while a bucket lives its count is what was allowed, and at most the limit |
| RateLimiter.PruningIsInvisible | src/rateLimiter.js:18 | outcomes with and without pruning are the same over every timed run |
| RateLimiter.RetryIsAllowed | src/rateLimiter.js:33 | a request within the limit, retried alone after the announced seconds, is allowed |
| RateLimiter.RemainingIsExact | src/rateLimiter.js:26-34 | with nobody else on the key, the next check in the window is allowed exactly when it costs no more than the remaining cost told, and the key starts afresh exactly from the reset time told |
| RateLimiter.RetryIsTight | src/rateLimiter.js:33 | the seconds told are the shortest whole number after which the window has ended |
| RateLimiter.GreedyWithinWindow | src/rateLimiter.js:11-44 | from the calls alone: while no window can have ended, a call is allowed exactly when what its key was allowed to spend leaves room for its cost, at least one, and is told the rest; calls without a key share one |
| PostgresLimiter.RateLimitTable.Check | src/runtimeState.js:103-141 | the clean-up, the upsert and the verdict of one check |
| PostgresLimiter.UpsertSimulates | src/runtimeState.js:112-137 | one upsert keeps the simulation, and its verdict is related to the in-memory outcome: the same one unless the costs split |
| PostgresLimiter.CleanUpIsInvisible | src/runtimeState.js:111 | the clean-up statement, at any moment, keeps the simulation |
| PostgresLimiter.TableSimulatesMemory | src/runtimeState.js:98-146 | on the same timed checks, interleaved from any number of replicas: window resets coincide, what the table allows memory allows, and every outcome is the same when the costs do not split |
| PostgresLimiter.LimitersAgreeIff | src/runtimeState.js:98-146 | the limiters decide alike on every run with calls of some costs, and even tell alike, exactly when no sum of such costs within the limit leaves room for one of them and not for another |
| PostgresLimiter.SplitsDiffer | src/rateLimiter.js:26-44 | otherwise there is a run they decide differently: spend the sum, ask for too much, then for what fits |
| PostgresLimiter.UniformCostsAgree | src/runtimeState.js:116-119 | with one cost for every call, unit cost included, every outcome of every run is the same |
| PostgresLimiter.CostlyCallsDiffer | src/runtimeState.js:116-119 | two costs of which only one fits under the limit at first already make them decide differently |
| TtlCache.MemoryCache.Sweep | src/clientCache.js:76-84 | removes exactly the expired entries and counts them as evictions |
| TtlCache.MemoryCache.Get | src/clientCache.js:13-38 | the entry of the key exactly while fresh; each get is one hit, miss or skip; writes stay equal to live entries plus evictions plus overwrites |
| TtlCache.MemoryCache.Set | src/profileCache.js:41-51 | stores value and expiry for a usable key and ttl, nothing otherwise, and keeps the balance of writes |
| TtlCache.PostgresCache.Get | src/runtimeState.js:178-204 | the row exactly while fresh, deleting only that row when it has expired |
| TtlCache.PostgresCache.Set | src/runtimeState.js:210-224 | upserts value and expiry |
| TtlCache.RefinementKept | src/clientCache.js:13-51 | over every timed run, what either cache holds is the last set of its key, and what it lacks was never set or has expired |
| TtlCache.CachesAgree | src/runtimeState.js:178-228 | driven one call at a time both caches answer a get alike: a hit exactly when the last set of that key is unexpired, with its value |
| TtlCache.GetsTell | src/runtimeState.js:178-228 | from the calls alone: a get without key or ttl is skipped; it hits with the value last stored until the ttl of that has run out, and tells the rest in seconds rounded up; otherwise it misses |
| TtlCache.RemainingSeconds | src/clientCache.js:31-36 | the seconds told with a hit are the time to live rounded up: the entry is gone by then and not a second earlier |
| ReplicaCache.TableRefinesIff | src/runtimeState.js:178-228 | after any interleaving of replicas the row of a key is its last upsert, or that has expired or never happened, exactly unless a delete whose replica selected before a still good last upsert ran after it |
| ReplicaCache.UndisturbedRefines | src/runtimeState.js:190-191 | so the table is right whenever no upsert of the key falls between a select and the delete that follows from it |
| ReplicaCache.GetIsRightIff | src/runtimeState.js:178-204 | a get answers as the map of last upserts did when it selected, exactly unless that upsert had been lost by then; a hit is always the last upsert before the select, unexpired |
| ReplicaCache.FreshRowLost | src/runtimeState.js:190-191 | a run that loses a fresh row |
| CircuitBreaker.Breaker.CanRequest | src/circuitBreaker.js:15-22 | answer and new state of a request |
| CircuitBreaker.Breaker.RecordSuccess | src/circuitBreaker.js:24-31 | new state after a success |
| CircuitBreaker.Breaker.RecordFailure | src/circuitBreaker.js:33-41 | new state after a failure |
| CircuitBreaker.ClosedIffBelowThreshold | src/circuitBreaker.js:33-41 | in every run the breaker is closed exactly while failures are below the threshold, so the half-open clause never decides |
| CircuitBreaker.CooldownHolds | src/circuitBreaker.js:15-22 | after a failure that leaves it open, no request is let through before the cooldown is over unless a success or reset intervenes, whatever late failures arrive |
| CircuitBreaker.ProbeAfterCooldown | src/circuitBreaker.js:15-41 | after the cooldown a request is let through; a success then closes the breaker and a failure opens it for another cooldown |
| CircuitBreaker.FailuresOpen | src/circuitBreaker.js:33-41 | from fresh, failures alone open it exactly when there are threshold many |
| CircuitBreaker.CountsFailuresSince | src/circuitBreaker.js:24-41 | the failures counted are those since the last success or reset |
| CircuitBreaker.RequestAnswered | src/circuitBreaker.js:15-22 | after any history a request goes ahead exactly when fewer failures than the threshold came since the last success or reset, or a probe is out, or the cooldown has passed; it changes at most an open breaker to probing |
| Assignment.ComputeHash | src/evaluator.js:516-523 | the loop computes the fold of the rounds, always a 32-bit word |
| Assignment.XorBits | src/evaluator.js:520 | exclusive or, bit by bit |
| Assignment.HashByUnit | src/evaluator.js:516-523 | the offset basis for no unit, and for one more unit the exclusive or times the prime modulo 2^32, with the numbers of FNV-1a |
| Assignment.RoundInjectiveInState | src/evaluator.js:520-521 | a round is injective in the state for each code unit |
| Assignment.RoundInjectiveInUnit | src/evaluator.js:520-521 | and injective in the code unit for each state |
| Assignment.OneUnitSensitivity | src/evaluator.js:516-524 | two seeds of equal length that differ in exactly one code unit have different hashes |
| Assignment.WeightedVariant | src/evaluator.js:491-503 | the decrementing loop stops at the first variant whose cumulative weight covers the hash; the fall-through after it is unreachable |
| Assignment.PickIff | src/evaluator.js:497-501 | a variant is chosen if and only if it is the first that covers the hash |
| Assignment.HitCount | src/evaluator.js:491-503 | the exact number of hashes each variant receives |
| Assignment.EvenShare | src/evaluator.js:493-496 | without weights each variant gets its equal part of the hashes |
| Assignment.Fairness | src/evaluator.js:491-503 | over all hashes that number is within one of weight times hash space over total weight |
| Assignment.ZeroWeight | src/evaluator.js:498-501 | a variant of weight zero is chosen only when it is first and the hash is zero |
| Assignment.RampUp | src/evaluator.js:491-503 | with equal totals, whoever is in variants 0 to i stays there when that prefix does not shrink |
| Assignment.FixedWeightVariant | src/server.js:4224-4233 | the cursor loop stops at the first variant whose cumulative percentage lies strictly above the bucket, and falls through to the last exactly when none does |
| Assignment.FixedFallThrough | src/server.js:4442-4445 | with weights that sum to 100 no variant covers the bucket only for the largest 32-bit prefix |
| Assignment.FixedRampUp | src/server.js:4228-4231 | the ramp property of the strict split |
| RuleStore.Store.CreateRuleSet | src/store.js:489-517 | a new draft without versions, metadata as given, or a conflict and no change |
| RuleStore.Store.UpdateDraft | src/store.js:556-579 | draft, merged metadata with the approval reset, and status after an edit |
| RuleStore.Store.SetRuleApproval | src/store.js:581-621 | succeeds exactly on unarchived rules with an allowed status, and records the digest its caller passes, else the one recorded before |
| RuleStore.Store.Publish | src/store.js:623-653 | succeeds exactly on unarchived rules; appends the next version with draft and metadata |
| RuleStore.Store.RollbackDraftToVersion | src/store.js:725-740 | succeeds exactly on unarchived rules that have the version; draft and metadata become those of the version |
| RuleStore.Store.ArchiveRuleSet | src/store.js:655-666 | only the status changes |
| RuleStore.Store.SetRuleCampaign | src/store.js:668-679 | only metadata other than the approval changes |
| RuleStore.Store.DuplicateRuleSet | src/store.js:681-700 | a draft copy without versions under a free key, the original untouched |
| Lifecycle.SoundThroughout | src/store.js:623-653 | over every run versions are numbered 1 to n in order, and a published rule's latest version is its draft |
| Lifecycle.HistoryThroughout | src/store.js:556-740 | over every run no existing version changes, and archived is absorbing |
| Lifecycle.RollbackThenPublish | src/store.js:725-740 | rollback to v and then publish creates version n+1 with the definition of v; with the workflow on exactly when v carries its own approval |
| Lifecycle.EditUnendorsed | src/store.js:3513-3533 | no edit leaves an approval in force, whatever metadata it sends |
| Lifecycle.PublishedWasApproved | src/server.js:2313-2361 | over every run without preapproved creations, with the store call of a publish any number of steps after its guard: the version created with the workflow on has a definition that was the draft at an approve step of that rule or the rule it was duplicated from, unless a step in between changed the draft |
| Lifecycle.LateEditPublished | src/server.js:2315-2319 | whatever definition an edit puts between guard and store call is published, so unapproved exactly if it was never approved |
| Lifecycle.ApproveThenPublish | src/server.js:2344-2361 | an accepted approval lets the current draft be published, and any edit in between revokes that while the workflow is on |
| Lifecycle.ApprovalNeedsSubmission | src/server.js:2344-2352 | over every run, without force a rule is not approved unless it was submitted and not edited since; with the workflow off nothing is submitted or approved |
| Lifecycle.SubmitApprovePublish | src/server.js:2326-2361 | with the workflow on, submitting lets the draft be approved without force, and that lets it be published as the next version |
| Lifecycle.ArchivedForGood | src/store.js:655-666 | archiving keeps draft, metadata and versions, and no later run adds a version or makes the rule publishable |
| Lifecycle.DuplicateKeeps | src/store.js:681-700 | a duplicate has the draft and metadata of its original, no versions, and is publishable exactly when the original, were it not archived, is |
| Lifecycle.MoveKeeps | src/store.js:668-679 | moving changes nothing that publishing looks at |
| Lifecycle.EditKeeps | src/store.js:556-579 | what an edit sends replaces what was there, what it does not send stays, and any approval falls back to draft |
| Lifecycle.OthersUntouched | src/store.js:489-740 | a request leaves every rule it does not name, and whether that can be published, alone |
| Lifecycle.PreapprovedIff | src/server.js:4478-4487 | a creation is preapproved if and only if its draft can be published at once with the workflow on although nothing was approved |
| Json.UnquoteBody | src/clientCache.js:140 | string quoting (section 7 of RFC 8259, lone surrogates escaped) can be read back from any text that continues after it |
| Json.PrintPrefix | src/clientCache.js:132-141 | two values whose texts agree up to what follows are the same value, followed by the same |
| Json.PrintInjective | src/clientCache.js:140 | compact JSON text is injective |
| CanonicalJson.SortedUnique | src/clientCache.js:135-136 | two sorted lists of the same distinct fields are equal |
| CanonicalJson.SameIffCanonEqual | src/clientCache.js:132-141 | canonical values are equal exactly for values equal up to key order |
| CanonicalJson.StableIff | src/clientCache.js:132-141 | stable text is equal exactly for values equal up to key order |
| CacheKey.SharedKeyIff | src/clientCache.js:89-117 | two inputs share a key exactly when decision key, version, scope, experiment override and the scope's own part agree |
| CacheKey.SharedKeyByScope | src/clientCache.js:97-107 | inputs that agree on rule, version, scope and override share a key always under the global scope, per session or profile under those, and under the request scope exactly for requests equal up to key order |
| CacheKey.OverridePrecedence | src/clientCache.js:110-117 | there is an override exactly when a variant or holdout is forced, what is forced for every rule wins over what is forced for this one, and a part that nothing forces is null |
| ConditionMeaning.AnswersAreTruth | src/evaluator.js:326-333 | whenever short-circuiting evaluation gives an answer, it is the order-insensitive truth value |
| ConditionMeaning.AcceptedIsSafe | src/validation.js:416-443 | a condition the validator accepts throws only where a host operation does or a literal cannot be converted, never for an unsupported source or operator |
| ConditionMeaning.AcceptedSafeIff | src/evaluator.js:335-374 | and it is safe in every environment in which no host operation throws and what is read has a text exactly when its literals can be converted where an operator does so |
| ConditionMeaning.SafeAnswers | src/evaluator.js:326-333 | a condition none of whose leaves throws has an answer |
| ConditionMeaning.GroupMeaning | src/evaluator.js:326-333 | no condition means everybody; the first part under `all` that is not true, or under `any` that is not false, decides for the group; then `not`, then an expression, and only then a leaf |
| ConditionLeaves.EqualityOperators | src/evaluator.js:339-342 | for a leaf with the operator name "equals": true exactly for one scalar on both sides or nothing on both; "not_equals" is the opposite |
| ConditionLeaves.BlankOperators | src/evaluator.js:359-362 | "is_blank": exactly when nothing, null or the empty text was read; "is_not_blank" is the opposite |
| ConditionLeaves.ListOperators | src/evaluator.js:351-354 | on a literal list exactly one of "in" and "not_in" holds, by membership of an equal scalar; on any other literal neither does |
| ConditionLeaves.ContainmentOperators | src/evaluator.js:355-358 | "contains": membership in an array that was read, else occurrence of the literal's text in the text read; "not_contains" is the opposite; both throw on an object without a text |
| ConditionLeaves.OrderOperators | src/evaluator.js:343-350 | each order operator, and "within_last_days", asks the host under its own sign, with the numeral of the literal |
| ConditionLeaves.PatternOperator | src/evaluator.js:363-364 | "matches_regex" tries the literal's text as pattern on the text read |
| ConditionLeaves.DateOperators | src/evaluator.js:367-370 | "before_date" and "after_date" hand over what was read and the literal's text, each under its own name |
| ConditionLeaves.OtherSource | src/evaluator.js:336-338 | with another source on the right the host compares the two values read, under the operator named |
| ConditionLeaves.Unsupported | src/evaluator.js:371-383 | a leaf throws when a source is none of the four or cannot be read, or its operator is none of the sixteen |
| ConditionLeaves.ListText | src/evaluator.js:358 | the text of a list is the texts of its parts with a comma between them, nothing for null |
| ConditionAcceptance.AcceptedIff | src/validation.js:416-443 | a condition is accepted exactly when every part of it, along whatever path, is in order (a non-empty group, an expression, or a leaf with known source, key and operator) and lies no deeper than level three |
| ConditionSignature.ArrangePermutes | src/store.js:3347-3350 | whatever the collation, sorting items by their text only reorders them |
| ConditionSignature.SignatureIgnoresKeyOrder | src/store.js:3342-3358 | conditions equal up to key order share a signature |
| ConditionSignature.NormalKeepsTruth | src/store.js:3346-3358 | the normal form has the same order-insensitive truth value in every environment |
| ConditionSignature.NormalKeepsMeaning | src/store.js:3346-3358 | evaluating the normal form gives the same answer unless one of the two throws, and neither throws when no leaf does |
| ConditionSignature.ContainmentOrderIff | src/evaluator.js:355-358 | containment sees the order of a literal list exactly when normalising changes its joined text: then some value read contains the one and not the other |
| ConditionSignature.LiteralOrderIff | src/evaluator.js:335-374 | a leaf comparing with a literal keeps its meaning in every environment exactly when its operator does not read the literal as text or normalising keeps that text |
| ConditionSignature.ArraysOnlyInListsSuffice | src/store.js:3346-3358 | conditions whose arrays are parts of groups or literals of operators that do not read text need nothing else |
| SignatureEquality.SignaturesEqualIff | src/store.js:3342-3358 | conditions that share a signature are equal up to the order of keys and of list items, and for a collation that orders texts exactly those share one |
| ConditionSignature.SharedSignatureSameAudience | src/store.js:3342-3344 | conditions with one signature have the same normal form and order-insensitive truth value, the same answer where both answer, and both answer where no leaf of one throws |
| CampaignConflicts.FindConflicts | src/store.js:3236-3270 | the pairs reported are genuine clashes in list order with distinct keys, at most twenty; every other clash has the key of an earlier reported pair or comes after twenty |
| CampaignConflicts.ClashIsContradiction | src/store.js:3236-3270 | a reported pair promises opposite outcomes on different surfaces to one audience: the same answer where both conditions answer, and both answer where no leaf of one throws |
| CampaignConflicts.ContradictionClashes | src/store.js:3236-3245 | conversely opposite outcomes on different surfaces for everybody, or for conditions equal up to key order, clash |
| CampaignConflicts.KeyIsSortedJoin | src/store.js:3246-3250 | a conflict is remembered by signature and both ends (rule, branch and surface with colons) in text order with bars between |
| Diff.DiffThenApply | src/server.js:2871-2878 | applying the reported changes to the left value gives the right value up to the order of keys of objects outside arrays |
| Diff.EmptyIff | src/server.js:2872 | nothing is reported exactly when the sides are equal up to that order |
| Diff.ChangesAreTruthful | src/server.js:2873-2875 | each change names a place where the sides differ, the two values there, and whether it was added, removed or changed |
| Diff.ChangesAreDeep | src/server.js:2873-2877 | in each change at least one of the two values is no object: the diff goes into objects down to where one side has something else |
| Diff.ReportedInOrder | src/server.js:2876-2877 | paths come in the order of their keys and none is a prefix of another |
| DecisionStack.EvaluateDecisionStack | src/decisionStacks.js:26-112 | the loop over outputs, flat outputs, matched rules, errors, trace, default result and stopping computes the run the lemmas below are about |
| DecisionStack.OneEntryPerStepIff | src/decisionStacks.js:38-93 | the trace has one entry per step exactly when no evaluated step lacks its stop list |
| DecisionStack.TraceTells | src/decisionStacks.js:207-226 | entry i belongs to step i; everything after the first stop is skipped as such; a step runs exactly when nothing stopped before and it is always due or the nearest earlier evaluated entry matches; a step skipped otherwise gives the fitting reason |
| DecisionStack.DefaultResult | src/decisionStacks.js:76-89 | the default result is that of the last evaluated or failed entry, deferred when no step ran |
| DecisionStack.OutputsAreLastWritten | src/decisionStacks.js:71-73 | each flat output is the last merging writer's, and each namespace holds the outputs of its last evaluated step |
| DecisionStack.ReportsAreOfEntries | src/decisionStacks.js:60-92 | matched rules and errors are exactly those of the steps that ran, in order: what an evaluated step reported, and one error for each that failed |
| DecisionStack.MatchingIsOfScalars | src/decisionStacks.js:219-226 | results stop the stack, and outputs match, by equality of scalars |
| DecisionStack.PolicyMeaning | src/decisionStacks.js:228-236 | what each result policy reports, in terms of the trace |
| DecisionStack.PrefixRun | src/decisionStacks.js:38-93 | evaluating only the first k steps gives the state after step k, and later steps only add to the trace |

## Left out

- Regex tokenising, `compareValues`, `Date.parse`, `Number()` coercion and `localeCompare` are open parameters; expressions start at tokens.
- GraphCheck.CheckSplit: weights are integers, so fractional weights and the check that a weight is finite are not modelled; costs of calls are integers too.
- GraphRun.RunsToTerminalIff: a graph environment is one answer per node, chosen independently, so the only-if half counts answers that no one request gives together, such as two splits that share a seed and disagree.
- Arithmetic on hashes is exact; the source divides doubles, which agrees for integer weights with a total below 2^21, and rounds the fixed split's division by 2^32-1.
- Writes of scores and context that later expressions read are folded into the answers of the nodes.
- A variant's fallback names (id, name, position) are one alias; the default pair of variants of a split without any is modelled.
- Outputs of terminal nodes are taken as given; an expression in them that throws counts as that node throwing.
- Within one guard or one store call a lifecycle request is atomic; other requests may land between the two.
- Bundle import, `upsertRuleSet` and `importSnapshot` overwrite history by design and are outside the lifecycle runs.
- Digests (SHA-256) do not collide in the model.
- Clocks never go back, and the statements of the Postgres limiter read one clock.
- Values read from an environment are JSON values; comparing two of them, patterns, dates and the order of numbers are left to the host.
- An own key named `__proto__`, inherited names such as `constructor` in diffs, and the host's listing of integer-like keys first are not modelled; no property depends on the order of a normal form's keys.
- Property reads on strings and arrays (`length`, indices) in cache keys are taken as missing.
- Decision stacks: texts of skip reasons and error messages are symbolic, loading and evaluating one rule is one outcome per step; stack normalisation (which gives every step a stop list) and the request checks before the loop are not modelled.
- Metrics, `clear`, percentiles, load shedding, bandit and p-value estimates: easy counters or floating-point approximations.
- HTTP routing, authentication, the native Postgres row store, migrations, Meiro deliveries and the assistant: input and output plumbing.
- The asynchronous copy of the graph interpreter: same code apart from awaiting the counter.
