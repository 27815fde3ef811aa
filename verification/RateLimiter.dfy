/** The fixed-window rate limiter: the in-memory object, the Postgres table, and what holds over
    every timed sequence of checks. Times are integer milliseconds. */
module RateLimiter {
  import opened Common

  datatype Bucket = Bucket(count: nat, resetAt: int)

  type Buckets = map<string, Bucket>

  /** Window length and limit, after the constructor has normalised its options. */
  datatype Config = Config(windowMs: nat, max: nat)

  predicate ValidConfig(c: Config) {
    1 <= c.windowMs && 1 <= c.max
  }

  datatype Outcome = Outcome(allowed: bool, remaining: nat, resetAt: int, retryAfterSeconds: nat)

  /** `key || "anonymous"` */
  function Name(key: string): string {
    if key == "" then "anonymous" else key
  }

  /** `Math.max(1, Number(cost || 1))` */
  function Charge(cost: int): nat {
    if cost < 1 then 1 else cost
  }

  /** `Math.max(1, Math.ceil(ms / 1000))` */
  function Seconds(ms: int): nat {
    if ms <= 1000 then 1 else (ms + 999) / 1000
  }

  // ----- One check ---------------------------------------------------------

  function Pruned(b: Buckets, now: int): Buckets {
    map k | k in b && now < b[k].resetAt :: b[k]
  }

  /** The bucket that still counts at `now`. */
  function Live(b: Buckets, key: string, now: int): Option<Bucket> {
    if key in b && now < b[key].resetAt then Some(b[key]) else None
  }

  function Open(c: Config, live: Option<Bucket>, now: int): Bucket {
    if live.Some? then live.value else Bucket(0, now + c.windowMs)
  }

  function Judge(c: Config, bucket: Bucket, charge: nat, now: int): Outcome {
    var next := bucket.count + charge;
    Outcome(next <= c.max, if next <= c.max then c.max - next else 0, bucket.resetAt, Seconds(bucket.resetAt - now))
  }

  /** `check` on an enabled limiter; `prune` says whether expired buckets are dropped first. */
  function Checked(c: Config, b: Buckets, key: string, cost: int, now: int, prune: bool): (Buckets, Outcome) {
    var kept := if prune then Pruned(b, now) else b;
    var bucket := Open(c, Live(kept, Name(key), now), now);
    var outcome := Judge(c, bucket, Charge(cost), now);
    (kept[Name(key) := if outcome.allowed then bucket.(count := bucket.count + Charge(cost)) else bucket], outcome)
  }

  class MemoryLimiter {
    const config: Config
    var buckets: Buckets
    var allowed: nat
    var blocked: nat

    constructor (windowMs: int, max: int)
      ensures config == Config(if windowMs == 0 then 60000 else if windowMs < 1 then 1 else windowMs,
                               if max < 0 then 0 else max)
      ensures buckets == map[] && allowed == 0 && blocked == 0
    {
      config := Config(if windowMs == 0 then 60000 else if windowMs < 1 then 1 else windowMs, if max < 0 then 0 else max);
      buckets, allowed, blocked := map[], 0, 0;
    }

    method Prune(current: int)
      modifies this`buckets
      ensures buckets == Pruned(old(buckets), current)
    {
      var todo := buckets.Keys;
      while todo != {}
        invariant todo <= old(buckets).Keys
        invariant buckets == map k | k in old(buckets) && (k in todo || current < old(buckets)[k].resetAt) :: old(buckets)[k]
        decreases |todo|
      {
        var k :| k in todo;
        todo := todo - {k};
        if buckets[k].resetAt <= current { buckets := buckets - {k}; }
      }
    }

    /** No outcome when the limiter is disabled: every call is allowed and nothing is recorded. */
    method Check(key: string, cost: int, now: int) returns (r: Option<Outcome>)
      modifies this`buckets, this`allowed, this`blocked
      ensures r.None? <==> config.max == 0
      ensures r.None? ==> buckets == old(buckets)
      ensures r.Some? ==> (buckets, r.value) == Checked(config, old(buckets), key, cost, now, true)
      ensures allowed == old(allowed) + (if r.None? || r.value.allowed then 1 else 0)
      ensures blocked == old(blocked) + (if r.None? || r.value.allowed then 0 else 1)
    {
      if config.max == 0 {
        allowed := allowed + 1;
        return None;
      }
      Prune(now);
      var name := Name(key);
      ghost var kept := buckets;
      if name !in buckets || buckets[name].resetAt <= now {
        buckets := buckets[name := Bucket(0, now + config.windowMs)];
      }
      var bucket := buckets[name];
      assert buckets == kept[name := bucket];
      var outcome := Judge(config, bucket, Charge(cost), now);
      if !outcome.allowed {
        blocked := blocked + 1;
        return Some(outcome);
      }
      buckets := buckets[name := bucket.(count := bucket.count + Charge(cost))];
      assert buckets == kept[name := buckets[name]];
      allowed := allowed + 1;
      r := Some(outcome);
    }
  }

  // ----- Runs --------------------------------------------------------------

  datatype Call = Call(at: int, key: string, cost: int)

  /** The clock never goes back. */
  predicate Timed(calls: seq<Call>, from: int) {
    calls == [] || (from <= calls[0].at && Timed(calls[1..], calls[0].at))
  }

  function After(c: Config, b: Buckets, calls: seq<Call>): Buckets
    decreases |calls|
  {
    if calls == [] then b
    else After(c, Checked(c, b, calls[0].key, calls[0].cost, calls[0].at, true).0, calls[1..])
  }

  function Outcomes(c: Config, b: Buckets, calls: seq<Call>, prune: bool): seq<Outcome>
    decreases |calls|
  {
    if calls == [] then []
    else
      var (next, outcome) := Checked(c, b, calls[0].key, calls[0].cost, calls[0].at, prune);
      [outcome] + Outcomes(c, next, calls[1..], prune)
  }

  /** The cost allowed to `key` at times from `lo` to `hi`, both included. */
  function AllowedCost(c: Config, b: Buckets, calls: seq<Call>, key: string, lo: int, hi: int): nat
    decreases |calls|
  {
    if calls == [] then 0
    else
      var (next, outcome) := Checked(c, b, calls[0].key, calls[0].cost, calls[0].at, true);
      (if outcome.allowed && Name(calls[0].key) == key && lo <= calls[0].at <= hi then Charge(calls[0].cost) else 0)
      + AllowedCost(c, next, calls[1..], key, lo, hi)
  }

  predicate WithinMax(c: Config, b: Buckets) {
    forall k :: k in b ==> b[k].count <= c.max
  }

  /** What one check does to the live buckets, now and later. */
  lemma CheckLive(c: Config, b: Buckets, key: string, cost: int, now: int, prune: bool, k: string, later: int)
    requires now <= later
    ensures var (next, outcome) := Checked(c, b, key, cost, now, prune);
            if k == Name(key)
            then var bucket := Open(c, Live(b, k, now), now);
                 && outcome == Judge(c, bucket, Charge(cost), now)
                 && k in next
                 && next[k] == if outcome.allowed then bucket.(count := bucket.count + Charge(cost)) else bucket
            else Live(next, k, later) == Live(b, k, later)
  {
  }

  lemma CheckWithinMax(c: Config, b: Buckets, key: string, cost: int, now: int)
    requires WithinMax(c, b)
    ensures WithinMax(c, Checked(c, b, key, cost, now, true).0)
  {
  }

  // ----- At most twice the limit in any window -----------------------------

  /** What `key` may still be allowed inside [lo, hi] when the clock stands at `now`. */
  function Budget(c: Config, live: Option<Bucket>, now: int, lo: int, hi: int): int {
    if hi < now then 0
    else match live
      case None => if lo < now then c.max else 2 * c.max
      case Some(b) =>
        if hi < b.resetAt then c.max - b.count
        else if lo < b.resetAt then 2 * c.max - b.count
        else 2 * c.max
  }

  /** Waiting never raises the budget. */
  lemma BudgetFalls(c: Config, b: Buckets, key: string, now: int, later: int, lo: int, hi: int)
    requires now <= later && lo <= hi && WithinMax(c, b)
    ensures 0 <= Budget(c, Live(b, key, later), later, lo, hi) <= Budget(c, Live(b, key, now), now, lo, hi)
  {
  }

  /** A check pays for itself out of the budget. */
  lemma CheckPays(c: Config, b: Buckets, key: string, cost: int, now: int, lo: int, hi: int)
    requires ValidConfig(c) && hi == lo + c.windowMs && WithinMax(c, b)
    ensures var (next, outcome) := Checked(c, b, key, cost, now, true);
            var paid := if outcome.allowed && lo <= now <= hi then Charge(cost) else 0;
            paid + Budget(c, Live(next, Name(key), now), now, lo, hi) <= Budget(c, Live(b, Name(key), now), now, lo, hi)
  {
    CheckLive(c, b, key, cost, now, true, Name(key), now);
  }

  lemma {:induction false} AllowedWithinBudget(c: Config, b: Buckets, calls: seq<Call>, key: string, now: int, lo: int, hi: int)
    requires ValidConfig(c) && hi == lo + c.windowMs && WithinMax(c, b) && Timed(calls, now)
    ensures AllowedCost(c, b, calls, key, lo, hi) <= Budget(c, Live(b, key, now), now, lo, hi)
    decreases |calls|
  {
    BudgetFalls(c, b, key, now, now, lo, hi);
    if calls != [] {
      var call := calls[0];
      var next := Checked(c, b, call.key, call.cost, call.at, true).0;
      CheckWithinMax(c, b, call.key, call.cost, call.at);
      AllowedWithinBudget(c, next, calls[1..], key, call.at, lo, hi);
      BudgetFalls(c, b, key, now, call.at, lo, hi);
      if Name(call.key) == key {
        CheckPays(c, b, call.key, call.cost, call.at, lo, hi);
      } else {
        CheckLive(c, b, call.key, call.cost, call.at, true, key, call.at);
      }
    }
  }

  /** In every run of a fresh limiter, any closed interval of one window length holds at most twice
      the limit of allowed cost per key. */
  lemma TwiceTheLimit(c: Config, calls: seq<Call>, key: string, start: int, lo: int)
    requires ValidConfig(c) && Timed(calls, start)
    ensures AllowedCost(c, map[], calls, key, lo, lo + c.windowMs) <= 2 * c.max
  {
    AllowedWithinBudget(c, map[], calls, key, start, lo, lo + c.windowMs);
  }

  /** While a bucket lives it counts exactly what was allowed, and never more than the limit. */
  lemma {:induction false} OneBucket(c: Config, b: Buckets, calls: seq<Call>, key: string, now: int)
    requires ValidConfig(c) && WithinMax(c, b) && Timed(calls, now)
    requires Live(b, key, now).Some?
    requires forall i :: 0 <= i < |calls| ==> calls[i].at < b[key].resetAt
    ensures var end := After(c, b, calls);
            && key in end && end[key].resetAt == b[key].resetAt
            && end[key].count == b[key].count + AllowedCost(c, b, calls, key, now, b[key].resetAt)
            && end[key].count <= c.max
    decreases |calls|
  {
    if calls != [] {
      var call := calls[0];
      var next := Checked(c, b, call.key, call.cost, call.at, true).0;
      CheckWithinMax(c, b, call.key, call.cost, call.at);
      CheckLive(c, b, call.key, call.cost, call.at, true, key, call.at);
      assert forall i :: 0 <= i < |calls[1..]| ==> calls[1..][i] == calls[i + 1];
      OneBucket(c, next, calls[1..], key, call.at);
      AllowedFrom(c, next, calls[1..], key, now, call.at, b[key].resetAt);
    }
  }

  /** Calls before `from` do not exist in a run timed from there. */
  lemma {:induction false} AllowedFrom(c: Config, b: Buckets, calls: seq<Call>, key: string, lo: int, from: int, hi: int)
    requires Timed(calls, from) && lo <= from
    ensures AllowedCost(c, b, calls, key, lo, hi) == AllowedCost(c, b, calls, key, from, hi)
    decreases |calls|
  {
    if calls != [] {
      var call := calls[0];
      var next := Checked(c, b, call.key, call.cost, call.at, true).0;
      AllowedFrom(c, next, calls[1..], key, lo, call.at, hi);
      AllowedFrom(c, next, calls[1..], key, from, call.at, hi);
    }
  }

  // ----- Pruning -----------------------------------------------------------

  ghost predicate SameLive(a: Buckets, b: Buckets, now: int) {
    forall k :: Live(a, k, now) == Live(b, k, now)
  }

  lemma SameLiveLater(a: Buckets, b: Buckets, now: int, later: int)
    requires SameLive(a, b, now) && now <= later
    ensures SameLive(a, b, later)
  {
    forall k
      ensures Live(a, k, later) == Live(b, k, later)
    {
      assert Live(a, k, now) == Live(b, k, now);
    }
  }

  /** Dropping expired buckets never changes a decision. */
  lemma {:induction false} PruningIsInvisible(c: Config, a: Buckets, b: Buckets, calls: seq<Call>, now: int)
    requires SameLive(a, b, now) && Timed(calls, now)
    ensures Outcomes(c, a, calls, true) == Outcomes(c, b, calls, false)
    decreases |calls|
  {
    if calls != [] {
      var call := calls[0];
      SameLiveLater(a, b, now, call.at);
      var a', b' := Checked(c, a, call.key, call.cost, call.at, true).0, Checked(c, b, call.key, call.cost, call.at, false).0;
      assert Live(a, Name(call.key), call.at) == Live(b, Name(call.key), call.at);
      CheckLive(c, a, call.key, call.cost, call.at, true, Name(call.key), call.at);
      CheckLive(c, b, call.key, call.cost, call.at, false, Name(call.key), call.at);
      forall k
        ensures Live(a', k, call.at) == Live(b', k, call.at)
      {
        assert Live(a, k, call.at) == Live(b, k, call.at);
        CheckLive(c, a, call.key, call.cost, call.at, true, k, call.at);
        CheckLive(c, b, call.key, call.cost, call.at, false, k, call.at);
      }
      PruningIsInvisible(c, a', b', calls[1..], call.at);
    }
  }

  // ----- Retrying ----------------------------------------------------------

  predicate Elsewhere(calls: seq<Call>, key: string) {
    forall i :: 0 <= i < |calls| ==> Name(calls[i].key) != key
  }

  lemma {:induction false} ElsewhereKeeps(c: Config, b: Buckets, calls: seq<Call>, key: string, now: int, later: int)
    requires Timed(calls, now) && Elsewhere(calls, key) && forall i :: 0 <= i < |calls| ==> calls[i].at <= later
    ensures Live(After(c, b, calls), key, later) == Live(b, key, later)
    decreases |calls|
  {
    if calls != [] {
      var call := calls[0];
      CheckLive(c, b, call.key, call.cost, call.at, true, key, later);
      assert forall i :: 0 <= i < |calls[1..]| ==> calls[1..][i] == calls[i + 1];
      ElsewhereKeeps(c, Checked(c, b, call.key, call.cost, call.at, true).0, calls[1..], key, call.at, later);
    }
  }

  /** Whoever waits as long as a check told, while nobody else uses the key, is allowed any cost up
      to the limit. */
  lemma RetryIsAllowed(c: Config, b: Buckets, key: string, cost: int, now: int, others: seq<Call>, retryCost: int, later: int)
    requires ValidConfig(c) && Charge(retryCost) <= c.max
    requires var (next, outcome) := Checked(c, b, key, cost, now, true);
             && now + 1000 * outcome.retryAfterSeconds <= later
             && Timed(others, now) && Elsewhere(others, Name(key)) && forall i :: 0 <= i < |others| ==> others[i].at <= later
    ensures var (next, _) := Checked(c, b, key, cost, now, true);
            Checked(c, After(c, next, others), key, retryCost, later, true).1.allowed
  {
    var next := Checked(c, b, key, cost, now, true).0;
    CheckLive(c, b, key, cost, now, true, Name(key), now);
    ElsewhereKeeps(c, next, others, Name(key), now, later);
    CheckLive(c, After(c, next, others), key, retryCost, later, true, Name(key), later);
  }

  // ----- What callers are told ---------------------------------------------

  /** The remaining cost told with an allowed check is exact: until the window ends, with nobody else
      on the key, the next check is allowed exactly when it costs no more. A blocked check tells zero,
      and the key starts afresh exactly from the reset time told. */
  lemma RemainingIsExact(c: Config, b: Buckets, key: string, cost: int, now: int, others: seq<Call>, nextCost: int, later: int)
    requires ValidConfig(c)
    requires Timed(others, now) && Elsewhere(others, Name(key)) && now <= later && forall i :: 0 <= i < |others| ==> others[i].at <= later
    ensures var (next, outcome) := Checked(c, b, key, cost, now, true);
            var after := After(c, next, others);
            && now < outcome.resetAt <= (if Live(b, Name(key), now).Some? then b[Name(key)].resetAt else now + c.windowMs)
            && (Live(after, Name(key), later).Some? <==> later < outcome.resetAt)
            && (!outcome.allowed ==> outcome.remaining == 0)
            && (outcome.allowed && later < outcome.resetAt ==>
                  (Checked(c, after, key, nextCost, later, true).1.allowed <==> Charge(nextCost) <= outcome.remaining))
  {
    var next := Checked(c, b, key, cost, now, true).0;
    var after := After(c, next, others);
    CheckLive(c, b, key, cost, now, true, Name(key), now);
    ElsewhereKeeps(c, next, others, Name(key), now, later);
    CheckLive(c, after, key, nextCost, later, true, Name(key), later);
  }

  /** The seconds told are the shortest whole number of seconds after which the window has ended. */
  lemma RetryIsTight(c: Config, b: Buckets, key: string, cost: int, now: int)
    requires ValidConfig(c)
    ensures var outcome := Checked(c, b, key, cost, now, true).1;
            now + 1000 * (outcome.retryAfterSeconds - 1) < outcome.resetAt <= now + 1000 * outcome.retryAfterSeconds
  {
    CheckLive(c, b, key, cost, now, true, Name(key), now);
  }

  // ----- One window, from the calls alone ----------------------------------

  /** Two calls are counted together: the same key, where no key at all is the key "anonymous". */
  predicate Together(a: string, b: string) {
    a == b || (a in {"", "anonymous"} && b in {"", "anonymous"})
  }

  function Cost(cost: int): nat { if cost > 1 then cost else 1 }

  /** What the calls counted together with `key` were allowed to spend. */
  function Spent(calls: seq<Call>, outcomes: seq<Outcome>, key: string): nat
    requires |calls| == |outcomes|
  {
    if calls == [] then 0
    else
      (if Together(calls[0].key, key) && outcomes[0].allowed then Cost(calls[0].cost) else 0)
      + Spent(calls[1..], outcomes[1..], key)
  }

  lemma {:induction false} OutcomesLength(c: Config, b: Buckets, calls: seq<Call>)
    ensures |Outcomes(c, b, calls, true)| == |calls|
    decreases |calls|
  {
    if calls != [] {
      OutcomesLength(c, Checked(c, b, calls[0].key, calls[0].cost, calls[0].at, true).0, calls[1..]);
    }
  }

  lemma {:induction false} OutcomesAppend(c: Config, b: Buckets, calls: seq<Call>, call: Call)
    ensures Outcomes(c, b, calls + [call], true) ==
            Outcomes(c, b, calls, true) + [Checked(c, After(c, b, calls), call.key, call.cost, call.at, true).1]
    decreases |calls|
  {
    if calls == [] {
      assert calls + [call] == [call];
    } else {
      assert (calls + [call])[1..] == calls[1..] + [call];
      OutcomesAppend(c, Checked(c, b, calls[0].key, calls[0].cost, calls[0].at, true).0, calls[1..], call);
    }
  }

  /** What a key has spent by `now`, in a run whose buckets are all alive. */
  function CountOf(b: Buckets, key: string, now: int): nat {
    var live := Live(b, Name(key), now);
    if live.Some? then live.value.count else 0
  }

  predicate AllLive(b: Buckets, until: int) {
    forall k :: k in b ==> until < b[k].resetAt
  }

  lemma TogetherIff(a: string, b: string)
    ensures Together(a, b) <==> Name(a) == Name(b)
  {
  }

  lemma {:induction false} SpentIsCounted(c: Config, b: Buckets, calls: seq<Call>, key: string, now: int, until: int)
    requires ValidConfig(c) && Timed(calls, now) && AllLive(b, until) && until < now + c.windowMs && now <= until
    requires forall i :: 0 <= i < |calls| ==> calls[i].at <= until
    ensures |Outcomes(c, b, calls, true)| == |calls|
    ensures AllLive(After(c, b, calls), until)
    ensures CountOf(After(c, b, calls), key, until) == CountOf(b, key, until) + Spent(calls, Outcomes(c, b, calls, true), key)
    decreases |calls|
  {
    if calls != [] {
      var call := calls[0];
      var (next, outcome) := Checked(c, b, call.key, call.cost, call.at, true);
      SpentStep(c, b, call, key, until);
      assert forall i :: 0 <= i < |calls[1..]| ==> calls[1..][i] == calls[i + 1];
      hide Checked, CountOf, AllLive, Cost, Together;
      SpentIsCounted(c, next, calls[1..], key, call.at, until);
    }
  }

  lemma SpentStep(c: Config, b: Buckets, call: Call, key: string, until: int)
    requires AllLive(b, until) && call.at <= until < call.at + c.windowMs
    ensures var (next, outcome) := Checked(c, b, call.key, call.cost, call.at, true);
            && AllLive(next, until)
            && CountOf(next, key, until) == CountOf(b, key, until) +
               if Together(call.key, key) && outcome.allowed then Cost(call.cost) else 0
  {
    TogetherIff(call.key, key);
    CheckLive(c, b, call.key, call.cost, call.at, true, Name(key), until);
    hide Together, Name;
  }

  /** A fresh limiter, as long as no window can have ended: a call is allowed exactly when what the calls
      before it were allowed to spend on its key leaves room for its cost, and is told what then remains. */
  lemma GreedyWithinWindow(c: Config, calls: seq<Call>, call: Call, start: int)
    requires ValidConfig(c) && Timed(calls, start) && call.at < start + c.windowMs && start <= call.at
    requires forall i :: 0 <= i < |calls| ==> calls[i].at <= call.at
    ensures var outcomes := Outcomes(c, map[], calls + [call], true);
            && |outcomes| == |calls| + 1
            && var spent := Spent(calls, outcomes[..|calls|], call.key) + Cost(call.cost);
               && (outcomes[|calls|].allowed <==> spent <= c.max)
               && outcomes[|calls|].remaining == (if spent <= c.max then c.max - spent else 0)
  {
    OutcomesAppend(c, map[], calls, call);
    SpentIsCounted(c, map[], calls, call.key, start, call.at);
    var b := After(c, map[], calls);
    assert Outcomes(c, map[], calls + [call], true)[..|calls|] == Outcomes(c, map[], calls, true);
    CheckLive(c, b, call.key, call.cost, call.at, true, Name(call.key), call.at);
    hide Checked, After, Outcomes, Spent;
  }
}
