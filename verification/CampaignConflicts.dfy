/** Campaign conflict warnings: rules that treat one audience in opposite ways on two surfaces. */
module CampaignConflicts {
  import opened Common
  import opened Json
  import opened CanonicalJson
  import opened ConditionMeaning
  import opened ConditionSignature

  datatype Verdict = Eligible | Ineligible | Undecided

  /** One audience outcome of a rule; no audience condition means all profiles. */
  datatype Entry = Entry(rule: Units, branch: Units, surface: Units, verdict: Verdict, audience: Option<Json>)

  /** Positions of the two entries in the list of comparable entries. */
  datatype Pair = Pair(left: nat, right: nat)

  const LIMIT := 20
  const BAR: Unit := 124

  function SignatureOf(e: Entry, collate: Collation): Units {
    if e.audience.None? then Text("__all_profiles__") else Signature(e.audience.value, collate)
  }

  function Comparable(entries: seq<Entry>): (r: seq<Entry>)
    ensures forall e :: e in r <==> e in entries && e.surface != [] && e.verdict != Undecided
  {
    if entries == [] then []
    else
      assert entries == [entries[0]] + entries[1..];
      (if entries[0].surface != [] && entries[0].verdict != Undecided then [entries[0]] else []) + Comparable(entries[1..])
  }

  predicate Clash(list: seq<Entry>, p: Pair, collate: Collation) {
    && p.left < p.right < |list|
    && SignatureOf(list[p.left], collate) == SignatureOf(list[p.right], collate)
    && list[p.left].surface != list[p.right].surface
    && list[p.left].verdict != list[p.right].verdict
  }

  /** The text under which a conflict is remembered: signature and both ends, in text order. */
  function Key(list: seq<Entry>, p: Pair, collate: Collation): Units {
    if p.left < |list| && p.right < |list|
    then Joined([SignatureOf(list[p.left], collate), End(list[p.left]), End(list[p.right])])
    else []
  }

  function Joined(ends: seq<Units>): Units
    requires |ends| == 3
  {
    var low, high := if Upto(ends[0], ends[1]) then ends[0] else ends[1], if Upto(ends[0], ends[1]) then ends[1] else ends[0];
    if Upto(ends[2], low) then ends[2] + [BAR] + low + [BAR] + high
    else if Upto(ends[2], high) then low + [BAR] + ends[2] + [BAR] + high
    else low + [BAR] + high + [BAR] + ends[2]
  }

  function End(e: Entry): Units {
    e.rule + [COLON] + e.branch + [COLON] + e.surface
  }

  /** The order in which pairs are visited. */
  predicate Before(p: Pair, q: Pair) {
    p.left < q.left || (p.left == q.left && p.right < q.right)
  }

  predicate Reportable(list: seq<Entry>, found: seq<Pair>, collate: Collation) {
    && (forall k :: 0 <= k < |found| ==> Clash(list, found[k], collate))
    && (forall j, k :: 0 <= j < k < |found| ==> Before(found[j], found[k]))
    && (forall j, k :: 0 <= j < k < |found| ==> Key(list, found[j], collate) != Key(list, found[k], collate))
  }

  /** A pair is represented by itself or by an earlier pair with the same key. */
  predicate Represented(list: seq<Entry>, found: seq<Pair>, p: Pair, collate: Collation) {
    exists k :: 0 <= k < |found| && Key(list, found[k], collate) == Key(list, p, collate) && !Before(p, found[k])
  }

  ghost predicate AllRepresented(list: seq<Entry>, found: seq<Pair>, next: Pair, collate: Collation) {
    forall p :: Clash(list, p, collate) && Before(p, next) ==> Represented(list, found, p, collate)
  }

  /** `seen` holds the keys of the pairs found, which all come before `next`. */
  predicate Remembered(list: seq<Entry>, found: seq<Pair>, seen: set<Units>, next: Pair, collate: Collation) {
    && (forall k :: 0 <= k < |found| ==> Before(found[k], next) && Key(list, found[k], collate) in seen)
    && (forall key :: key in seen ==> exists k :: 0 <= k < |found| && Key(list, found[k], collate) == key)
  }

  ghost predicate Searched(list: seq<Entry>, found: seq<Pair>, seen: set<Units>, next: Pair, collate: Collation) {
    && Reportable(list, found, collate)
    && Remembered(list, found, seen, next, collate)
    && AllRepresented(list, found, next, collate)
  }

  lemma StepPast(list: seq<Entry>, found: seq<Pair>, seen: set<Units>, next: Pair, collate: Collation)
    requires Searched(list, found, seen, next, collate)
    requires Clash(list, next, collate) ==> Key(list, next, collate) in seen
    ensures Searched(list, found, seen, Pair(next.left, next.right + 1), collate)
  {
    hide Clash, Key;
    forall p | Clash(list, p, collate) && Before(p, Pair(next.left, next.right + 1))
      ensures Represented(list, found, p, collate)
    {
      assert Before(p, next) || p == next;
    }
  }

  lemma StepRow(list: seq<Entry>, found: seq<Pair>, seen: set<Units>, left: nat, collate: Collation)
    requires Searched(list, found, seen, Pair(left, |list|), collate)
    ensures Searched(list, found, seen, Pair(left + 1, left + 2), collate)
  {
    hide Key, Represented;
    forall p | Clash(list, p, collate) && Before(p, Pair(left + 1, left + 2))
      ensures Represented(list, found, p, collate)
    {
      assert Before(p, Pair(left, |list|));
    }
  }

  /** Remembering a clash whose key is new. */
  lemma StepFound(list: seq<Entry>, found: seq<Pair>, seen: set<Units>, next: Pair, collate: Collation)
    requires Searched(list, found, seen, next, collate) && Clash(list, next, collate)
    requires Key(list, next, collate) !in seen
    ensures Searched(list, found + [next], seen + {Key(list, next, collate)}, Pair(next.left, next.right + 1), collate)
  {
    hide Key, Clash, Represented;
    var after := Pair(next.left, next.right + 1);
    StillRemembered(list, found, seen, next, collate);
    forall p | Clash(list, p, collate) && Before(p, after)
      ensures Represented(list, found + [next], p, collate)
    {
      assert p == next || Before(p, next);
      StillRepresented(list, found, next, p, collate);
    }
  }

  lemma StillRepresented(list: seq<Entry>, found: seq<Pair>, next: Pair, p: Pair, collate: Collation)
    requires p == next || Represented(list, found, p, collate)
    ensures Represented(list, found + [next], p, collate)
  {
    hide Key;
    var all := found + [next];
    if p == next {
      assert all[|found|] == next;
    } else {
      var k :| 0 <= k < |found| && Key(list, found[k], collate) == Key(list, p, collate) && !Before(p, found[k]);
      assert all[k] == found[k];
    }
  }

  lemma StillRemembered(list: seq<Entry>, found: seq<Pair>, seen: set<Units>, next: Pair, collate: Collation)
    requires Remembered(list, found, seen, next, collate)
    ensures Remembered(list, found + [next], seen + {Key(list, next, collate)}, Pair(next.left, next.right + 1), collate)
  {
    hide Key;
    var all := found + [next];
    assert all[|found|] == next;
    forall key | key in seen + {Key(list, next, collate)}
      ensures exists k :: 0 <= k < |all| && Key(list, all[k], collate) == key
    {
      if key in seen {
        var k :| 0 <= k < |found| && Key(list, found[k], collate) == key;
        assert all[k] == found[k];
      }
    }
  }

  lemma NothingSearched(list: seq<Entry>, collate: Collation)
    ensures Searched(list, [], {}, Pair(0, 1), collate)
  {
  }

  /** The pairs reported, and what they say about every clash. */
  ghost predicate FirstClashes(list: seq<Entry>, conflicts: seq<Pair>, collate: Collation) {
    && |conflicts| <= LIMIT && Reportable(list, conflicts, collate)
    && forall p :: Clash(list, p, collate) ==>
         Represented(list, conflicts, p, collate) || (|conflicts| == LIMIT && Before(conflicts[LIMIT - 1], p))
  }

  /** `campaignRuleConflicts`: the first twenty clashes in the order of the list, one for each key. */
  method FindConflicts(entries: seq<Entry>, collate: Collation) returns (list: seq<Entry>, conflicts: seq<Pair>)
    ensures list == Comparable(entries)
    ensures FirstClashes(list, conflicts, collate)
  {
    hide Searched, Clash, Key, FirstClashes;
    list := Comparable(entries);
    var found: seq<Pair>, seen: set<Units> := [], {};
    NothingSearched(list, collate);
    var left := 0;
    while left < |list|
      invariant left <= |list| && Searched(list, found, seen, Pair(left, left + 1), collate)
    {
      var right := left + 1;
      while right < |list|
        invariant left < right <= |list| && Searched(list, found, seen, Pair(left, right), collate)
      {
        var here := Pair(left, right);
        if Clash(list, here, collate) && Key(list, here, collate) !in seen {
          StepFound(list, found, seen, here, collate);
          found, seen := found + [here], seen + {Key(list, here, collate)};
        } else {
          StepPast(list, found, seen, here, collate);
        }
        right := right + 1;
      }
      StepRow(list, found, seen, left, collate);
      left := left + 1;
    }
    FirstOnes(list, found, seen, collate);
    conflicts := if |found| > LIMIT then found[..LIMIT] else found;
  }

  /** What the first twenty represent, when everything found represents every clash. */
  lemma FirstOnes(list: seq<Entry>, found: seq<Pair>, seen: set<Units>, collate: Collation)
    requires Searched(list, found, seen, Pair(|list|, |list| + 1), collate)
    ensures FirstClashes(list, if |found| > LIMIT then found[..LIMIT] else found, collate)
  {
    hide Key, Clash, Represented;
    var conflicts := if |found| > LIMIT then found[..LIMIT] else found;
    assert forall k :: 0 <= k < |conflicts| ==> conflicts[k] == found[k];
    forall p | Clash(list, p, collate)
      ensures Represented(list, conflicts, p, collate) || (|conflicts| == LIMIT && Before(conflicts[LIMIT - 1], p))
    {
      ClashInside(list, p, collate);
      RepresentedInPart(list, found, |conflicts|, p, collate);
    }
  }

  lemma ClashInside(list: seq<Entry>, p: Pair, collate: Collation)
    requires Clash(list, p, collate)
    ensures Before(p, Pair(|list|, |list| + 1))
  {
  }

  lemma RepresentedInPart(list: seq<Entry>, found: seq<Pair>, n: nat, p: Pair, collate: Collation)
    requires n <= |found| && Represented(list, found, p, collate)
    requires forall j, k :: 0 <= j < k < |found| ==> Before(found[j], found[k])
    ensures Represented(list, found[..n], p, collate) || n == 0 || (n < |found| && Before(found[n - 1], p))
  {
    hide Key;
    var k :| 0 <= k < |found| && Key(list, found[k], collate) == Key(list, p, collate) && !Before(p, found[k]);
    if k < n {
      assert found[..n][k] == found[k];
    } else if n > 0 {
      assert Before(found[n - 1], found[k]);
    }
  }

  // ----- What a reported conflict means ------------------------------------

  /** Whether a profile is in the audience of an entry. */
  function InAudience(e: Entry, env: Env): Outcome {
    if e.audience.None? then Value(true) else Evaluate(e.audience.value, env)
  }

  predicate WellFormed(e: Entry, collate: Collation) {
    e.audience.Some? ==> Valid(e.audience.value) && OrderFree(e.audience.value, collate)
  }

  lemma AllProfilesStandApart(j: Json, collate: Collation)
    requires Valid(j)
    ensures Signature(j, collate) != Text("__all_profiles__")
  {
    NormalValid(j, collate);
    Heads(Normal(j, collate));
    assert Text("__all_profiles__")[0] == 95;
  }

  /** No condition, or one none of whose leaves throws. */
  predicate SafeAudience(e: Entry, env: Env) {
    e.audience.Some? ==> Safe(e.audience.value, env)
  }

  /** Two entries that clash promise opposite outcomes, on different surfaces, to one audience: in
      every environment in which both conditions give an answer, it is the same answer, and where no leaf
      of one throws both give one. */
  lemma ClashIsContradiction(entries: seq<Entry>, p: Pair, env: Env, collate: Collation)
    requires Clash(Comparable(entries), p, collate)
    requires forall e :: e in entries ==> WellFormed(e, collate)
    ensures var list := Comparable(entries);
            var l, r := list[p.left], list[p.right];
            && l in entries && r in entries && l.surface != r.surface
            && {l.verdict, r.verdict} == {Eligible, Ineligible}
            && (InAudience(l, env).Value? && InAudience(r, env).Value? ==> InAudience(l, env) == InAudience(r, env))
            && (SafeAudience(l, env) || SafeAudience(r, env) ==>
                  InAudience(l, env).Value? && InAudience(l, env) == InAudience(r, env))
  {
    hide Evaluate, Safe, Signature, OrderFree, Valid, Text;
    var list := Comparable(entries);
    var l, r := list[p.left], list[p.right];
    assert l in list && r in list;
    if l.audience.Some? && r.audience.Some? {
      SharedSignatureSameAudience(l.audience.value, r.audience.value, env, collate);
    } else if l.audience.Some? {
      AllProfilesStandApart(l.audience.value, collate);
    } else if r.audience.Some? {
      AllProfilesStandApart(r.audience.value, collate);
    }
  }

  /** Every contradiction of that kind is a clash: opposite outcomes on different surfaces for everybody,
      or for two conditions equal up to the order of keys. */
  lemma ContradictionClashes(entries: seq<Entry>, p: Pair, collate: Collation)
    requires p.left < p.right < |Comparable(entries)|
    requires forall e :: e in entries && e.audience.Some? ==> Valid(e.audience.value)
    requires var l, r := Comparable(entries)[p.left], Comparable(entries)[p.right];
             && l.surface != r.surface && l.verdict != r.verdict
             && l.audience.Some? == r.audience.Some? && (l.audience.Some? ==> Same(l.audience.value, r.audience.value))
    ensures Clash(Comparable(entries), p, collate)
  {
    hide Signature, Valid, Text, Same;
    var list := Comparable(entries);
    var l, r := list[p.left], list[p.right];
    assert l in list && r in list;
    if l.audience.Some? { SignatureIgnoresKeyOrder(l.audience.value, r.audience.value, collate); }
  }

  predicate SortedJoin(key: Units, parts: seq<Units>)
    requires |parts| == 3
  {
    Upto(parts[0], parts[1]) && Upto(parts[1], parts[2]) && key == parts[0] + [124] + parts[1] + [124] + parts[2]
  }

  /** The key under which a conflict is remembered: the shared signature and the two ends, each its rule,
      branch and surface with colons between, in the order of the texts with bars between; so it does not
      depend on which end comes first. */
  lemma KeyIsSortedJoin(list: seq<Entry>, p: Pair, collate: Collation)
    requires p.left < |list| && p.right < |list|
    ensures var l, r := list[p.left], list[p.right];
            exists parts: seq<Units> ::
              && |parts| == 3 && SortedJoin(Key(list, p, collate), parts)
              && multiset(parts) == multiset{SignatureOf(l, collate), l.rule + [58] + l.branch + [58] + l.surface,
                                             r.rule + [58] + r.branch + [58] + r.surface}
  {
    hide SignatureOf, Upto;
    var ends := [SignatureOf(list[p.left], collate), End(list[p.left]), End(list[p.right])];
    var parts := JoinedSorted(ends);
    assert multiset(parts) == multiset{ends[0], ends[1], ends[2]};
  }

  lemma JoinedSorted(ends: seq<Units>) returns (parts: seq<Units>)
    requires |ends| == 3
    ensures |parts| == 3 && SortedJoin(Joined(ends), parts) && multiset(parts) == multiset{ends[0], ends[1], ends[2]}
  {
    hide Upto;
    var low, high := if Upto(ends[0], ends[1]) then ends[0] else ends[1], if Upto(ends[0], ends[1]) then ends[1] else ends[0];
    UptoTotal(ends[0], ends[1]);
    UptoTotal(ends[2], low);
    UptoTotal(ends[2], high);
    assert multiset{ends[0], ends[1], ends[2]} == multiset{ends[2], low, high};
    parts := InPlace(ends[2], low, high);
  }

  /** Putting one text into its place between two others. */
  lemma InPlace(x: Units, low: Units, high: Units) returns (parts: seq<Units>)
    requires Upto(low, high) && (Upto(x, low) || Upto(low, x)) && (Upto(x, high) || Upto(high, x))
    ensures |parts| == 3 && multiset(parts) == multiset{x, low, high}
    ensures SortedJoin(if Upto(x, low) then x + [BAR] + low + [BAR] + high
                       else if Upto(x, high) then low + [BAR] + x + [BAR] + high
                       else low + [BAR] + high + [BAR] + x, parts)
  {
    hide Upto;
    parts := if Upto(x, low) then [x, low, high] else if Upto(x, high) then [low, x, high] else [low, high, x];
  }
}
