/** The Postgres limiter: one clean-up statement and one atomic upsert per check, issued by any
    number of replicas, against the in-memory limiter on the same upserts. */
module PostgresLimiter {
  import opened Common
  import opened RateLimiter

  const KEEP_MS := 300000

  /** `DELETE ... WHERE reset_at <= now() - interval '5 minutes'` */
  function DeleteOld(rows: Buckets, now: int): Buckets {
    map k | k in rows && now - KEEP_MS < rows[k].resetAt :: rows[k]
  }

  /** The upsert: the returned row is the one now stored under the key. */
  function Upsert(c: Config, rows: Buckets, key: string, charge: nat, now: int): Buckets {
    rows[key :=
      if key !in rows || rows[key].resetAt <= now then Bucket(charge, now + c.windowMs)
      else Bucket(rows[key].count + charge, rows[key].resetAt)]
  }

  /** What the caller is told about the returned row. */
  function Verdict(c: Config, row: Bucket, now: int): Outcome {
    Outcome(row.count <= c.max, if row.count <= c.max then c.max - row.count else 0, row.resetAt, Seconds(row.resetAt - now))
  }

  /** The table and one replica's check: unlike the in-memory limiter it also counts blocked calls. */
  class RateLimitTable {
    const config: Config
    var rows: Buckets

    constructor (config: Config)
      requires ValidConfig(config)
      ensures this.config == config && rows == map[]
    {
      this.config, rows := config, map[];
    }

    method Check(key: string, cost: int, now: int) returns (r: Outcome)
      modifies this`rows
      ensures rows == Upsert(config, DeleteOld(old(rows), now), Name(key), Charge(cost), now)
      ensures r == Verdict(config, rows[Name(key)], now)
    {
      rows := DeleteOld(rows, now);
      rows := Upsert(config, rows, Name(key), Charge(cost), now);
      r := Verdict(config, rows[Name(key)], now);
    }
  }

  // ----- Interleaved statements --------------------------------------------

  /** Statements reach the database one at a time; between a replica's clean-up and its upsert
      others may run theirs. */
  datatype Statement = CleanUp(at: int) | Charged(call: Call)

  function TimeOf(s: Statement): int {
    match s case CleanUp(at) => at case Charged(call) => call.at
  }

  predicate Ordered(ss: seq<Statement>, from: int)
    decreases |ss|
  {
    ss == [] || (from <= TimeOf(ss[0]) && Ordered(ss[1..], TimeOf(ss[0])))
  }

  /** The checks, in the order in which their upserts ran. */
  function Calls(ss: seq<Statement>): seq<Call>
    decreases |ss|
  {
    if ss == [] then []
    else (if ss[0].Charged? then [ss[0].call] else []) + Calls(ss[1..])
  }

  function Verdicts(c: Config, rows: Buckets, ss: seq<Statement>): seq<Outcome>
    decreases |ss|
  {
    if ss == [] then []
    else match ss[0]
      case CleanUp(at) => Verdicts(c, DeleteOld(rows, at), ss[1..])
      case Charged(call) =>
        var next := Upsert(c, rows, Name(call.key), Charge(call.cost), call.at);
        [Verdict(c, next[Name(call.key)], call.at)] + Verdicts(c, next, ss[1..])
  }

  // ----- Costs that tell the limiters apart --------------------------------

  type Costs = iset<nat>

  function Total(spent: seq<nat>): nat {
    if spent == [] then 0 else spent[0] + Total(spent[1..])
  }

  ghost predicate Affordable(spent: seq<nat>, costs: Costs) {
    forall i :: 0 <= i < |spent| ==> spent[i] in costs
  }

  /** `n` can be spent with calls of these costs. */
  ghost predicate SumOf(costs: Costs, n: nat) {
    exists spent :: Affordable(spent, costs) && Total(spent) == n
  }

  /** After `n` has been spent one cost still fits under the limit and another does not. */
  ghost predicate SplitAt(costs: Costs, max: nat, n: nat, fits: nat, exceeds: nat) {
    SumOf(costs, n) && fits in costs && exceeds in costs && n + fits <= max < n + exceeds
  }

  ghost predicate Splits(costs: Costs, max: nat) {
    exists n, fits, exceeds :: SplitAt(costs, max, n, fits, exceeds)
  }

  lemma NothingSpent(costs: Costs)
    ensures SumOf(costs, 0)
  {
    assert Affordable([], costs) && Total([]) == 0;
  }

  lemma SpendMore(costs: Costs, n: nat, cost: nat)
    requires SumOf(costs, n) && cost in costs
    ensures SumOf(costs, n + cost)
  {
    var spent :| Affordable(spent, costs) && Total(spent) == n;
    var more := [cost] + spent;
    assert more[1..] == spent;
    assert Affordable(more, costs) && Total(more) == n + cost;
  }

  // ----- The simulation ----------------------------------------------------

  /** No call that may still come fits in memory. */
  ghost predicate Exhausted(costs: Costs, max: nat, count: nat) {
    forall cost :: cost in costs ==> max < count + cost
  }

  /** Windows coincide and the table has counted at least what memory has; unless the costs split, it has
      counted the same, or is over the limit when memory is exhausted. */
  ghost predicate Match(c: Config, mem: Option<Bucket>, row: Option<Bucket>, costs: Costs) {
    && (mem.Some? <==> row.Some?)
    && (mem.Some? ==>
          && mem.value.resetAt == row.value.resetAt
          && mem.value.count <= row.value.count && mem.value.count <= c.max
          && SumOf(costs, mem.value.count)
          && (!Splits(costs, c.max) ==>
                row.value.count == mem.value.count || (c.max < row.value.count && Exhausted(costs, c.max, mem.value.count))))
  }

  ghost predicate Simulates(c: Config, mem: Buckets, rows: Buckets, now: int, costs: Costs) {
    forall k :: Match(c, Live(mem, k, now), Live(rows, k, now), costs)
  }

  lemma SimulatesLater(c: Config, mem: Buckets, rows: Buckets, now: int, later: int, costs: Costs)
    requires Simulates(c, mem, rows, now, costs) && now <= later
    ensures Simulates(c, mem, rows, later, costs)
  {
    forall k
      ensures Match(c, Live(mem, k, later), Live(rows, k, later), costs)
    {
      assert Match(c, Live(mem, k, now), Live(rows, k, now), costs);
    }
  }

  /** Rows expired for five minutes are dead: deleting them at any moment changes nothing. */
  lemma CleanUpIsInvisible(c: Config, mem: Buckets, rows: Buckets, now: int, costs: Costs)
    requires Simulates(c, mem, rows, now, costs)
    ensures Simulates(c, mem, DeleteOld(rows, now), now, costs)
  {
    forall k
      ensures Match(c, Live(mem, k, now), Live(DeleteOld(rows, now), k, now), costs)
    {
      assert Match(c, Live(mem, k, now), Live(rows, k, now), costs);
    }
  }

  /** How a verdict of the table relates to the in-memory outcome of the same check. */
  predicate Related(pg: Outcome, mem: Outcome, same: bool) {
    && pg.resetAt == mem.resetAt
    && pg.retryAfterSeconds == mem.retryAfterSeconds
    && (pg.allowed ==> mem.allowed)
    && (same ==> pg == mem)
  }

  /** Charging both sides of a match. */
  lemma ChargeMatches(c: Config, mem: Bucket, row: Bucket, cost: nat, now: int, costs: Costs)
    requires Match(c, Some(mem), Some(row), costs) && cost in costs
    ensures var outcome := Judge(c, mem, cost, now);
            var mem' := if outcome.allowed then mem.(count := mem.count + cost) else mem;
            var row' := row.(count := row.count + cost);
            && Match(c, Some(mem'), Some(row'), costs)
            && Related(Verdict(c, row', now), outcome, !Splits(costs, c.max))
  {
    if mem.count + cost <= c.max {
      SpendMore(costs, mem.count, cost);
    } else if !Splits(costs, c.max) && row.count == mem.count {
      forall fits | fits in costs
        ensures c.max < mem.count + fits
      {
        assert !SplitAt(costs, c.max, mem.count, fits, cost);
      }
    }
    hide SumOf, Splits;
  }

  lemma UpsertSimulates(c: Config, mem: Buckets, rows: Buckets, call: Call, costs: Costs)
    requires ValidConfig(c) && Simulates(c, mem, rows, call.at, costs) && Charge(call.cost) in costs
    ensures var (mem', outcome) := Checked(c, mem, call.key, call.cost, call.at, true);
            var rows' := Upsert(c, rows, Name(call.key), Charge(call.cost), call.at);
            && Name(call.key) in rows'
            && Simulates(c, mem', rows', call.at, costs)
            && Related(Verdict(c, rows'[Name(call.key)], call.at), outcome, !Splits(costs, c.max))
  {
    var (mem', outcome) := Checked(c, mem, call.key, call.cost, call.at, true);
    var rows' := Upsert(c, rows, Name(call.key), Charge(call.cost), call.at);
    var live, row := Live(mem, Name(call.key), call.at), Live(rows, Name(call.key), call.at);
    assert Match(c, live, row, costs);
    CheckLive(c, mem, call.key, call.cost, call.at, true, Name(call.key), call.at);
    NothingSpent(costs);
    var fresh_ := Bucket(0, call.at + c.windowMs);
    ChargeMatches(c, if live.Some? then live.value else fresh_, if row.Some? then row.value else fresh_,
                  Charge(call.cost), call.at, costs);
    hide Match, Judge, Verdict;
    forall k
      ensures Match(c, Live(mem', k, call.at), Live(rows', k, call.at), costs)
    {
      assert Match(c, Live(mem, k, call.at), Live(rows, k, call.at), costs);
      CheckLive(c, mem, call.key, call.cost, call.at, true, k, call.at);
    }
  }

  predicate AllRelated(pg: seq<Outcome>, memory: seq<Outcome>, same: bool) {
    |pg| == |memory| && forall i :: 0 <= i < |pg| ==> Related(pg[i], memory[i], same)
  }

  ghost predicate CostsIn(ss: seq<Statement>, costs: Costs) {
    forall i :: 0 <= i < |ss| && ss[i].Charged? ==> Charge(ss[i].call.cost) in costs
  }

  lemma RestOrdered(ss: seq<Statement>, now: int, costs: Costs)
    requires ss != [] && Ordered(ss, now) && CostsIn(ss, costs)
    ensures now <= TimeOf(ss[0]) && Ordered(ss[1..], TimeOf(ss[0])) && CostsIn(ss[1..], costs)
    ensures ss[0].Charged? ==> Charge(ss[0].call.cost) in costs
  {
  }

  lemma CleanUpStep(c: Config, rows: Buckets, ss: seq<Statement>)
    requires ss != [] && ss[0].CleanUp?
    ensures Verdicts(c, rows, ss) == Verdicts(c, DeleteOld(rows, ss[0].at), ss[1..]) && Calls(ss) == Calls(ss[1..])
  {
    hide DeleteOld;
  }

  lemma ChargedStep(c: Config, mem: Buckets, rows: Buckets, ss: seq<Statement>, call: Call)
    requires ss != [] && ss[0] == Charged(call)
    ensures var next := Upsert(c, rows, Name(call.key), Charge(call.cost), call.at);
            Verdicts(c, rows, ss) == [Verdict(c, next[Name(call.key)], call.at)] + Verdicts(c, next, ss[1..])
    ensures var (mem', outcome) := Checked(c, mem, call.key, call.cost, call.at, true);
            Outcomes(c, mem, Calls(ss), true) == [outcome] + Outcomes(c, mem', Calls(ss[1..]), true)
  {
    hide Verdict, Checked;
    assert Calls(ss) == [call] + Calls(ss[1..]);
    assert ([call] + Calls(ss[1..]))[1..] == Calls(ss[1..]);
  }

  lemma OneMoreRelated(pg: seq<Outcome>, memory: seq<Outcome>, p: Outcome, m: Outcome, same: bool)
    requires AllRelated(pg, memory, same) && Related(p, m, same)
    ensures AllRelated([p] + pg, [m] + memory, same)
  {
    hide Related;
  }

  lemma NothingCharged(c: Config, mem: Buckets, rows: Buckets, same: bool)
    ensures AllRelated(Verdicts(c, rows, []), Outcomes(c, mem, Calls([]), true), same)
  {
  }

  /** On the same timed checks, interleaved in any way from any number of replicas: window resets
      coincide, whatever the table allows memory allows, and when the costs do not split every outcome is
      the same. */
  lemma {:induction false} TableSimulatesMemory(c: Config, mem: Buckets, rows: Buckets, ss: seq<Statement>, now: int, costs: Costs)
    requires ValidConfig(c) && Simulates(c, mem, rows, now, costs) && Ordered(ss, now) && CostsIn(ss, costs)
    ensures AllRelated(Verdicts(c, rows, ss), Outcomes(c, mem, Calls(ss), true), !Splits(costs, c.max))
    decreases |ss|
  {
    hide ValidConfig, Simulates, Ordered, CostsIn, AllRelated, Verdicts, Outcomes, Calls, Checked, Upsert, DeleteOld, Verdict, Splits;
    if ss == [] {
      NothingCharged(c, mem, rows, !Splits(costs, c.max));
    } else {
      var at := TimeOf(ss[0]);
      RestOrdered(ss, now, costs);
      SimulatesLater(c, mem, rows, now, at, costs);
      match ss[0]
      case CleanUp(_) =>
        CleanUpIsInvisible(c, mem, rows, at, costs);
        CleanUpStep(c, rows, ss);
        TableSimulatesMemory(c, mem, DeleteOld(rows, at), ss[1..], at, costs);
      case Charged(call) =>
        UpsertSimulates(c, mem, rows, call, costs);
        ChargedStep(c, mem, rows, ss, call);
        var (mem', outcome) := Checked(c, mem, call.key, call.cost, call.at, true);
        var rows' := Upsert(c, rows, Name(call.key), Charge(call.cost), call.at);
        TableSimulatesMemory(c, mem', rows', ss[1..], at, costs);
        OneMoreRelated(Verdicts(c, rows', ss[1..]), Outcomes(c, mem', Calls(ss[1..]), true),
                       Verdict(c, rows'[Name(call.key)], at), outcome, !Splits(costs, c.max));
    }
  }

  lemma FreshTableSimulatesFreshMemory(c: Config, ss: seq<Statement>, now: int, costs: Costs)
    requires ValidConfig(c) && Ordered(ss, now) && CostsIn(ss, costs)
    ensures AllRelated(Verdicts(c, map[], ss), Outcomes(c, map[], Calls(ss), true), !Splits(costs, c.max))
  {
    hide AllRelated, Verdicts, Outcomes, Calls, Splits, SumOf;
    TableSimulatesMemory(c, map[], map[], ss, now, costs);
  }

  // ----- When the limiters agree -------------------------------------------

  predicate SameAllowed(pg: seq<Outcome>, memory: seq<Outcome>) {
    |pg| == |memory| && forall i :: 0 <= i < |pg| ==> pg[i].allowed == memory[i].allowed
  }

  /** Every run with calls of these costs, from empty limiters, is decided alike. */
  ghost predicate DecideAlike(c: Config, costs: Costs) {
    forall ss, now :: Ordered(ss, now) && CostsIn(ss, costs) ==>
      SameAllowed(Verdicts(c, map[], ss), Outcomes(c, map[], Calls(ss), true))
  }

  /** Even every outcome told is the same. */
  ghost predicate TellAlike(c: Config, costs: Costs) {
    forall ss, now :: Ordered(ss, now) && CostsIn(ss, costs) ==>
      Verdicts(c, map[], ss) == Outcomes(c, map[], Calls(ss), true)
  }

  function CallOf(cost: nat): Statement {
    Charged(Call(0, "k", cost))
  }

  function Spending(spent: seq<nat>): seq<Statement> {
    if spent == [] then [] else [CallOf(spent[0])] + Spending(spent[1..])
  }

  /** Both limiters after `n` has been spent on one key at time zero. */
  function Holding(c: Config, n: nat): Buckets {
    if n == 0 then map[] else map["k" := Bucket(n, c.windowMs)]
  }

  lemma SpendOne(c: Config, n: nat, cost: nat)
    requires ValidConfig(c) && 1 <= cost && n + cost <= c.max
    ensures Upsert(c, Holding(c, n), "k", cost, 0) == Holding(c, n + cost)
    ensures Checked(c, Holding(c, n), "k", cost, 0, true).0 == Holding(c, n + cost)
  {
  }

  predicate Positive(spent: seq<nat>) {
    forall i :: 0 <= i < |spent| ==> 1 <= spent[i]
  }

  lemma FirstSplit(s: Statement, more: seq<Statement>, rest: seq<Statement>)
    ensures var ss := [s] + more + rest; ss[0] == s && ss[1..] == more + rest
  {
  }

  lemma SpendingSplit(spent: seq<nat>, rest: seq<Statement>)
    ensures spent == [] ==> Spending(spent) + rest == rest
    ensures spent != [] ==> var ss := Spending(spent) + rest;
                            ss != [] && ss[0] == CallOf(spent[0]) && ss[1..] == Spending(spent[1..]) + rest
  {
    if spent == [] {
      assert [] + rest == rest;
    } else {
      var more := Spending(spent[1..]);
      assert Spending(spent) == [CallOf(spent[0])] + more;
      hide Spending;
      FirstSplit(CallOf(spent[0]), more, rest);
    }
  }

  lemma TotalSplit(spent: seq<nat>)
    requires Positive(spent)
    ensures spent != [] ==> Total(spent) == spent[0] + Total(spent[1..]) && 1 <= spent[0] && Positive(spent[1..])
    ensures spent == [] ==> Total(spent) == 0
  {
  }

  lemma DropOne(x: Outcome, xs: seq<Outcome>, n: nat)
    requires n <= |xs|
    ensures ([x] + xs)[n + 1..] == xs[n..]
  {
  }

  /** The outcomes after those of what was spent. */
  predicate LeftOver(all: seq<Outcome>, n: nat, left: seq<Outcome>) {
    n <= |all| && all[n..] == left
  }

  lemma {:induction false} Spend(c: Config, n: nat, spent: seq<nat>, rest: seq<Statement>)
    requires ValidConfig(c) && Positive(spent) && n + Total(spent) <= c.max
    ensures var end := Holding(c, n + Total(spent));
            && LeftOver(Verdicts(c, Holding(c, n), Spending(spent) + rest), |spent|, Verdicts(c, end, rest))
            && LeftOver(Outcomes(c, Holding(c, n), Calls(Spending(spent) + rest), true), |spent|,
                        Outcomes(c, end, Calls(rest), true))
    decreases |spent|
  {
    hide Verdicts, Outcomes, Calls, Checked, Upsert, Holding, Verdict, Spending, Total, Positive, ValidConfig;
    var ss := Spending(spent) + rest;
    SpendingSplit(spent, rest);
    TotalSplit(spent);
    if spent != [] {
      ChargedStep(c, Holding(c, n), Holding(c, n), ss, ss[0].call);
      SpendOne(c, n, spent[0]);
      Spend(c, n + spent[0], spent[1..], rest);
      var end := Holding(c, n + spent[0]);
      var more := Spending(spent[1..]) + rest;
      DropOne(Verdicts(c, Holding(c, n), ss)[0], Verdicts(c, end, more), |spent| - 1);
      DropOne(Outcomes(c, Holding(c, n), Calls(ss), true)[0], Outcomes(c, end, Calls(more), true), |spent| - 1);
    }
  }

  /** What is left of a window tells the limiters apart: the table also counted the blocked call. */
  lemma TwoMore(c: Config, n: nat, fits: nat, exceeds: nat)
    requires ValidConfig(c) && 1 <= fits && n + fits <= c.max < n + exceeds
    ensures var ss := [CallOf(exceeds), CallOf(fits)];
            var pg, memory := Verdicts(c, Holding(c, n), ss), Outcomes(c, Holding(c, n), Calls(ss), true);
            |pg| == |memory| == 2 && !pg[1].allowed && memory[1].allowed
  {
    hide Verdicts, Outcomes, Calls;
    var ss := [CallOf(exceeds), CallOf(fits)];
    assert ss[1..] == [CallOf(fits)] && ss[1..][1..] == [];
    ChargedStep(c, Holding(c, n), Holding(c, n), ss, ss[0].call);
    var mem := Checked(c, Holding(c, n), "k", exceeds, 0, true).0;
    var rows := Upsert(c, Holding(c, n), "k", exceeds, 0);
    assert mem["k"] == Bucket(n, c.windowMs) && rows["k"] == Bucket(n + exceeds, c.windowMs);
    ChargedStep(c, mem, rows, ss[1..], ss[1].call);
    NoMore(c, Upsert(c, rows, "k", fits, 0), Checked(c, mem, "k", fits, 0, true).0);
  }

  lemma NoMore(c: Config, rows: Buckets, mem: Buckets)
    ensures Verdicts(c, rows, []) == [] && Outcomes(c, mem, Calls([]), true) == []
  {
  }

  lemma OneMoreOrdered(ss: seq<Statement>, cost: nat, costs: Costs)
    requires ss != [] && ss[0] == CallOf(cost) && Ordered(ss[1..], 0) && CostsIn(ss[1..], costs) && cost in costs && 1 <= cost
    ensures Ordered(ss, 0) && CostsIn(ss, costs)
  {
    forall i | 0 <= i < |ss| && ss[i].Charged?
      ensures Charge(ss[i].call.cost) in costs
    {
      if i > 0 { assert ss[i] == ss[1..][i - 1]; }
    }
  }

  lemma {:induction false} SpendingOrdered(spent: seq<nat>, rest: seq<Statement>, costs: Costs)
    requires Affordable(spent, costs) && Positive(spent) && Ordered(rest, 0) && CostsIn(rest, costs)
    ensures Ordered(Spending(spent) + rest, 0) && CostsIn(Spending(spent) + rest, costs)
  {
    hide Spending, Ordered, CostsIn;
    SpendingSplit(spent, rest);
    if spent != [] {
      SpendingOrdered(spent[1..], rest, costs);
      OneMoreOrdered(Spending(spent) + rest, spent[0], costs);
    }
  }

  /** A run that the limiters decide differently: spend `n`, then ask for too much, then for what fits. */
  lemma SplitsDiffer(c: Config, costs: Costs) returns (ss: seq<Statement>)
    requires ValidConfig(c) && Splits(costs, c.max) && forall cost :: cost in costs ==> 1 <= cost
    ensures Ordered(ss, 0) && CostsIn(ss, costs)
    ensures !SameAllowed(Verdicts(c, map[], ss), Outcomes(c, map[], Calls(ss), true))
  {
    hide Verdicts, Outcomes, Calls;
    var n, fits, exceeds :| SplitAt(costs, c.max, n, fits, exceeds);
    var spent :| Affordable(spent, costs) && Total(spent) == n;
    var rest := [CallOf(exceeds), CallOf(fits)];
    assert rest[1..] == [CallOf(fits)] && rest[1..][1..] == [];
    ss := Spending(spent) + rest;
    assert Ordered(rest[1..][1..], 0) && Ordered(rest[1..], 0) && Ordered(rest, 0);
    SpendingOrdered(spent, rest, costs);
    Spend(c, 0, spent, rest);
    TwoMore(c, n, fits, exceeds);
    var pg, memory := Verdicts(c, map[], ss), Outcomes(c, map[], Calls(ss), true);
    assert pg[|spent| + 1] == pg[|spent|..][1] && memory[|spent| + 1] == memory[|spent|..][1];
  }

  lemma RelatedSame(pg: seq<Outcome>, memory: seq<Outcome>)
    requires AllRelated(pg, memory, true)
    ensures pg == memory && SameAllowed(pg, memory)
  {
  }

  /** The limiters decide alike on every run with calls of some costs, and then even tell alike, exactly
      when no sum of such costs within the limit leaves room for one of them and not for another. */
  lemma LimitersAgreeIff(c: Config, costs: Costs)
    requires ValidConfig(c) && forall cost :: cost in costs ==> 1 <= cost
    ensures DecideAlike(c, costs) <==> !Splits(costs, c.max)
    ensures TellAlike(c, costs) <==> !Splits(costs, c.max)
  {
    hide Verdicts, Outcomes, Calls, Splits, AllRelated, Ordered, CostsIn;
    if Splits(costs, c.max) {
      var ss := SplitsDiffer(c, costs);
      assert Ordered(ss, 0) && CostsIn(ss, costs);
    } else {
      forall ss, now | Ordered(ss, now) && CostsIn(ss, costs)
        ensures Verdicts(c, map[], ss) == Outcomes(c, map[], Calls(ss), true)
        ensures SameAllowed(Verdicts(c, map[], ss), Outcomes(c, map[], Calls(ss), true))
      {
        FreshTableSimulatesFreshMemory(c, ss, now, costs);
        RelatedSame(Verdicts(c, map[], ss), Outcomes(c, map[], Calls(ss), true));
      }
    }
  }

  /** With one cost for every call, of any size, the limiters tell alike on every run. */
  lemma UniformCostsAgree(c: Config, cost: nat)
    requires ValidConfig(c) && 1 <= cost
    ensures TellAlike(c, iset{cost})
  {
    hide TellAlike, DecideAlike;
    LimitersAgreeIff(c, iset{cost});
  }

  /** Two costs of which only one fits at first already tell the limiters apart. */
  lemma CostlyCallsDiffer(c: Config, fits: nat, exceeds: nat)
    requires ValidConfig(c) && 1 <= fits <= c.max < exceeds
    ensures !DecideAlike(c, iset{fits, exceeds})
  {
    hide TellAlike, DecideAlike;
    NothingSpent(iset{fits, exceeds});
    assert SplitAt(iset{fits, exceeds}, c.max, 0, fits, exceeds);
    LimitersAgreeIff(c, iset{fits, exceeds});
  }
}
