/** Decision stacks: the run over the steps of a stack, its trace, and the result it reports. */
module DecisionStack {
  import opened Common
  import opened Json

  type Outputs = map<Units, Json>

  datatype Mode = Always | OnResult | OnOutput | OtherMode

  /** A step; a missing stop list is not an empty one. */
  datatype Step = Step(id: Units, decisionKey: Units, mode: Mode, requiredResult: Option<Json>, requiredOutput: Outputs,
                       namespace: Units, merge: bool, stopOn: Option<seq<Json>>, stopOnError: bool, onError: Option<Json>)

  const DEFERRED: Json := Str([100, 101, 102, 101, 114, 114, 101, 100])
  const ELIGIBLE: Json := Str([101, 108, 105, 103, 105, 98, 108, 101])

  /** A result of the rule evaluator, which puts deferred for an empty one. */
  type Result = j: Json | Truthy(Some(j)) witness DEFERRED

  /** What loading and evaluating the rule of a step gives. */
  datatype Ran = Threw(message: Units) | Done(result: Result, outputs: Outputs, matched: seq<Units>, errors: seq<Units>)

  datatype Reason = PreviousStepStopped | NoPreviousEvaluated | PreviousResult(result: Option<Json>) | OutputNotMatched
  datatype Status = Skipped(reason: Reason) | Evaluated | Failed

  datatype Entry = Entry(id: Units, status: Status, result: Option<Json>, outputs: Outputs)

  /** An error of a rule, of its evaluation, or of the missing stop list. */
  datatype Note = Reported(key: Units, text: Units) | Thrown(key: Units, text: Units) | NoStopList(key: Units)

  datatype State = State(entries: seq<Entry>, byStep: map<Units, Outputs>, flat: Outputs, matched: seq<(Units, Units)>,
                         errors: seq<Note>, final: Json, stopped: bool)

  function OrDeferred(v: Option<Json>): Json {
    if Truthy(v) then v.value else DEFERRED
  }

  // ----- One step ----------------------------------------------------------

  function LastEvaluated(entries: seq<Entry>): Option<Entry> {
    if entries == [] then None
    else if entries[|entries| - 1].status.Evaluated? then Some(entries[|entries| - 1])
    else LastEvaluated(entries[..|entries| - 1])
  }

  predicate OutputMatches(required: Outputs, outputs: Outputs) {
    forall key :: key in required ==> key in outputs && Identical(Some(outputs[key]), Some(required[key]))
  }

  /** `shouldRunStep`: nothing, or why the step does not run. */
  function ReasonToSkip(step: Step, entries: seq<Entry>): Option<Reason> {
    var previous := LastEvaluated(entries);
    if step.mode.Always? then None
    else if previous.None? then Some(NoPreviousEvaluated)
    else if step.mode.OnResult? then
      if Identical(previous.value.result, step.requiredResult) then None else Some(PreviousResult(previous.value.result))
    else if step.mode.OnOutput? then
      if OutputMatches(step.requiredOutput, previous.value.outputs) then None else Some(OutputNotMatched)
    else None
  }

  predicate ListHas(list: seq<Json>, result: Option<Json>) {
    exists j :: j in list && Identical(Some(j), result)
  }

  function NamespaceOf(step: Step): Units {
    if step.namespace == [] then step.decisionKey else step.namespace
  }

  function Tagged(key: Units, texts: seq<Units>): seq<(Units, Units)> {
    seq(|texts|, i requires 0 <= i < |texts| => (key, texts[i]))
  }

  function Notes(key: Units, texts: seq<Units>): seq<Note> {
    seq(|texts|, i requires 0 <= i < |texts| => Reported(key, texts[i]))
  }

  function SkipEntry(step: Step, reason: Reason): Entry {
    Entry(step.id, Skipped(reason), None, map[])
  }

  function Skip(s: State, step: Step, reason: Reason): State {
    s.(entries := s.entries + [SkipEntry(step, reason)])
  }

  /** The `catch` branch. */
  function Fail(s: State, step: Step, note: Note): State {
    s.(entries := s.entries + [Entry(step.id, Failed, Some(OrDeferred(step.onError)), map[])],
       errors := s.errors + [note], final := OrDeferred(step.onError), stopped := step.stopOnError)
  }

  /** The `try` branch up to the stop check. */
  function Take(s: State, step: Step, ran: Ran): State
    requires ran.Done?
  {
    State(s.entries + [Entry(step.id, Evaluated, Some(ran.result), ran.outputs)],
          s.byStep[NamespaceOf(step) := ran.outputs],
          if step.merge then s.flat + ran.outputs else s.flat,
          s.matched + Tagged(step.decisionKey, ran.matched),
          s.errors + Notes(step.decisionKey, ran.errors),
          if Truthy(Some(ran.result)) then ran.result else s.final,
          s.stopped)
  }

  function Advance(s: State, step: Step, ran: Ran): State {
    if s.stopped then Skip(s, step, PreviousStepStopped)
    else
      var reason := ReasonToSkip(step, s.entries);
      if reason.Some? then Skip(s, step, reason.value)
      else if ran.Threw? then Fail(s, step, Thrown(step.decisionKey, ran.message))
      else if step.stopOn.None? then Fail(Take(s, step, ran), step, NoStopList(step.decisionKey))
      else Take(s, step, ran).(stopped := ListHas(step.stopOn.value, Some(ran.result)))
  }

  const START: State := State([], map[], map[], [], [], DEFERRED, false)

  /** The state after the first `n` steps. */
  function Run(steps: seq<Step>, runs: seq<Ran>, n: nat): State
    requires n <= |steps| == |runs|
  {
    if n == 0 then START else Advance(Run(steps, runs, n - 1), steps[n - 1], runs[n - 1])
  }

  // ----- The result policy -------------------------------------------------

  datatype Policy = AnyEligible | AllEligible | OtherPolicy

  /** `normalizeStackResult` */
  function StackResult(policy: Policy, final: Json, entries: seq<Entry>): Json {
    if policy.AnyEligible? && exists e :: e in entries && e.result == Some(ELIGIBLE) then ELIGIBLE
    else if policy.AllEligible? then
      if (exists e :: e in entries && e.status.Evaluated?)
         && (forall e :: e in entries && e.status.Evaluated? ==> e.result == Some(ELIGIBLE))
      then ELIGIBLE else DEFERRED
    else OrDeferred(Some(final))
  }

  // ----- evaluateDecisionStack ---------------------------------------------

  /** The loop over the steps. The outcome of a step's own evaluation does not depend on earlier steps. */
  method EvaluateDecisionStack(steps: seq<Step>, runs: seq<Ran>, policy: Policy) returns (result: Json, end: State)
    requires |steps| == |runs|
    ensures end == Run(steps, runs, |steps|)
    ensures result == StackResult(policy, end.final, end.entries)
  {
    var entries: seq<Entry>, byStep: map<Units, Outputs>, flat: Outputs := [], map[], map[];
    var matched: seq<(Units, Units)>, errors: seq<Note> := [], [];
    var final, stopped := DEFERRED, false;
    var i := 0;
    while i < |steps|
      invariant i <= |steps|
      invariant State(entries, byStep, flat, matched, errors, final, stopped) == Run(steps, runs, i)
    {
      var step, ran := steps[i], runs[i];
      i := i + 1;
      if stopped {
        entries := entries + [SkipEntry(step, PreviousStepStopped)];
        continue;
      }
      var reason := ReasonToSkip(step, entries);
      if reason.Some? {
        entries := entries + [SkipEntry(step, reason.value)];
        continue;
      }
      var failure: Option<Note> := None;
      match ran {
        case Threw(message) => failure := Some(Thrown(step.decisionKey, message));
        case Done(given, outputs, rules, problems) =>
          byStep := byStep[NamespaceOf(step) := outputs];
          if step.merge { flat := flat + outputs; }
          matched := matched + Tagged(step.decisionKey, rules);
          errors := errors + Notes(step.decisionKey, problems);
          if Truthy(Some(given)) { final := given; }
          entries := entries + [Entry(step.id, Evaluated, Some(given), outputs)];
          if step.stopOn.None? {
            failure := Some(NoStopList(step.decisionKey));
          } else if ListHas(step.stopOn.value, Some(given)) {
            stopped := true;
          }
      }
      if failure.Some? {
        errors := errors + [failure.value];
        final := OrDeferred(step.onError);
        entries := entries + [Entry(step.id, Failed, Some(final), map[])];
        if step.stopOnError { stopped := true; }
      }
    }
    end := State(entries, byStep, flat, matched, errors, final, stopped);
    result := StackResult(policy, final, entries);
  }

  // ----- Stopping early ----------------------------------------------------

  /** Running only the first steps gives the same state as the run over all of them had then, and
      later steps only add to the trace. */
  lemma {:induction false} PrefixRun(steps: seq<Step>, runs: seq<Ran>, k: nat, n: nat)
    requires k <= n <= |steps| == |runs|
    ensures Run(steps[..n], runs[..n], k) == Run(steps, runs, k)
    ensures Run(steps, runs, k).entries <= Run(steps, runs, n).entries
    decreases n, k
  {
    hide Advance;
    if k > 0 {
      PrefixRun(steps, runs, k - 1, n);
      assert steps[..n][k - 1] == steps[k - 1] && runs[..n][k - 1] == runs[k - 1];
    }
    if k < n {
      PrefixRun(steps, runs, k, n - 1);
      EntriesGrow(Run(steps, runs, n - 1), steps[n - 1], runs[n - 1]);
    }
  }

  lemma EntriesGrow(s: State, step: Step, ran: Ran)
    ensures s.entries <= Advance(s, step, ran).entries
  {
  }

  // ----- One entry for each step -------------------------------------------

  /** Step `i` is evaluated but has no stop list. */
  predicate LacksList(steps: seq<Step>, runs: seq<Ran>, i: nat)
    requires i < |steps| == |runs|
  {
    var s := Run(steps, runs, i);
    !s.stopped && ReasonToSkip(steps[i], s.entries).None? && runs[i].Done? && steps[i].stopOn.None?
  }

  predicate NoneLacks(steps: seq<Step>, runs: seq<Ran>, n: nat)
    requires n <= |steps| == |runs|
  {
    forall i :: 0 <= i < n ==> !LacksList(steps, runs, i)
  }

  lemma OneOrTwoEntries(s: State, step: Step, ran: Ran)
    ensures var lacks := !s.stopped && ReasonToSkip(step, s.entries).None? && ran.Done? && step.stopOn.None?;
            |Advance(s, step, ran).entries| == |s.entries| + if lacks then 2 else 1
  {
    hide ReasonToSkip;
  }

  /** The trace has one entry for each step exactly when no evaluated step lacks its stop list; such
      a step adds a second, failed entry. */
  lemma {:induction false} OneEntryPerStepIff(steps: seq<Step>, runs: seq<Ran>, n: nat)
    requires n <= |steps| == |runs|
    ensures |Run(steps, runs, n).entries| >= n
    ensures |Run(steps, runs, n).entries| == n <==> NoneLacks(steps, runs, n)
  {
    hide Advance;
    if n > 0 {
      OneEntryPerStepIff(steps, runs, n - 1);
      OneOrTwoEntries(Run(steps, runs, n - 1), steps[n - 1], runs[n - 1]);
      assert NoneLacks(steps, runs, n) <==> NoneLacks(steps, runs, n - 1) && !LacksList(steps, runs, n - 1);
    }
  }

  // ----- What the trace says -----------------------------------------------

  predicate RanEntry(e: Entry) { e.status.Evaluated? || e.status.Failed? }

  /** The entry of a step that stops the stack. */
  predicate Stops(step: Step, e: Entry) {
    || (e.status.Evaluated? && step.stopOn.Some? && ListHas(step.stopOn.value, e.result))
    || (e.status.Failed? && step.stopOnError)
  }

  predicate StoppedBefore(steps: seq<Step>, entries: seq<Entry>, i: nat)
    requires i <= |steps| && i <= |entries|
  {
    exists j :: 0 <= j < i && Stops(steps[j], entries[j])
  }

  /** Entry `j` is the nearest evaluated one before `i`. */
  predicate Nearest(entries: seq<Entry>, j: nat, i: nat)
    requires i <= |entries|
  {
    j < i && entries[j].status.Evaluated? && forall k :: j < k < i ==> !entries[k].status.Evaluated?
  }

  predicate Matches(step: Step, previous: Entry) {
    match step.mode
    case OnResult => Identical(previous.result, step.requiredResult)
    case OnOutput => OutputMatches(step.requiredOutput, previous.outputs)
    case _ => true
  }

  predicate Due(step: Step, entries: seq<Entry>, i: nat)
    requires i <= |entries|
  {
    step.mode.Always? || exists j :: 0 <= j < i && Nearest(entries, j, i) && Matches(step, entries[j])
  }

  /** A step that is skipped although nothing stopped the stack gives the reason its mode and the nearest
      earlier evaluated entry call for. */
  predicate ReasonFits(step: Step, reason: Reason, entries: seq<Entry>, i: nat)
    requires i <= |entries|
  {
    match reason
    case PreviousStepStopped => false
    case NoPreviousEvaluated => forall j :: 0 <= j < i ==> !entries[j].status.Evaluated?
    case PreviousResult(result) =>
      step.mode.OnResult? && exists j :: 0 <= j < i && Nearest(entries, j, i) && entries[j].result == result
    case OutputNotMatched => step.mode.OnOutput? && exists j :: 0 <= j < i && Nearest(entries, j, i)
  }

  /** What the trace says of step `i`. */
  predicate Told(steps: seq<Step>, runs: seq<Ran>, entries: seq<Entry>, i: nat)
    requires i < |steps| == |runs| && i < |entries|
  {
    var e, stopped := entries[i], StoppedBefore(steps, entries, i);
    && e.id == steps[i].id
    && (e.status == Skipped(PreviousStepStopped) <==> stopped)
    && (RanEntry(e) <==> !stopped && Due(steps[i], entries, i))
    && (e.status.Skipped? && !stopped ==> ReasonFits(steps[i], e.status.reason, entries, i))
    && (e.status.Evaluated? ==> runs[i].Done? && e.result == Some(runs[i].result) && e.outputs == runs[i].outputs)
    && (e.status.Failed? ==> runs[i].Threw? && e.result == Some(if Truthy(steps[i].onError) then steps[i].onError.value else DEFERRED))
  }

  lemma {:induction false} LastIsNearest(entries: seq<Entry>)
    ensures match LastEvaluated(entries)
            case None => forall j :: 0 <= j < |entries| ==> !entries[j].status.Evaluated?
            case Some(e) => exists j :: 0 <= j < |entries| && Nearest(entries, j, |entries|) && entries[j] == e
  {
    if entries != [] {
      var last := |entries| - 1;
      if entries[last].status.Evaluated? {
        assert Nearest(entries, last, |entries|);
      } else {
        LastIsNearest(entries[..last]);
        if LastEvaluated(entries[..last]).Some? {
          var j :| 0 <= j < last && Nearest(entries[..last], j, last) && entries[..last][j] == LastEvaluated(entries[..last]).value;
          assert Nearest(entries, j, |entries|);
        }
      }
    }
  }

  lemma NearestUnique(entries: seq<Entry>, j: nat, k: nat, i: nat)
    requires i <= |entries| && Nearest(entries, j, i) && Nearest(entries, k, i)
    ensures j == k
  {
  }

  lemma SkipIffNotDue(step: Step, entries: seq<Entry>)
    ensures ReasonToSkip(step, entries).None? <==> Due(step, entries, |entries|)
    ensures ReasonToSkip(step, entries).Some? ==> ReasonFits(step, ReasonToSkip(step, entries).value, entries, |entries|)
  {
    hide LastEvaluated, OutputMatches, Identical;
    LastIsNearest(entries);
    var previous := LastEvaluated(entries);
    if previous.Some? {
      var j :| 0 <= j < |entries| && Nearest(entries, j, |entries|) && entries[j] == previous.value;
      forall k | 0 <= k < |entries| && Nearest(entries, k, |entries|)
        ensures k == j
      {
        NearestUnique(entries, j, k, |entries|);
      }
    }
  }

  predicate SamePast(a: seq<Entry>, b: seq<Entry>, i: nat) {
    i <= |a| && i <= |b| && a[..i] == b[..i]
  }

  /** What is said of a step does not depend on later entries. */
  lemma ToldEarlier(steps: seq<Step>, runs: seq<Ran>, a: seq<Entry>, b: seq<Entry>, i: nat)
    requires i < |steps| == |runs| && SamePast(a, b, i + 1)
    requires Told(steps, runs, a, i)
    ensures Told(steps, runs, b, i)
  {
    hide Stops, Matches, RanEntry;
    PastEntry(a, b, i, i + 1);
    assert SamePast(a, b, i) by { assert a[..i] == a[..i + 1][..i] && b[..i] == b[..i + 1][..i]; }
    StoppedEarlier(steps, a, b, i);
    DueEarlier(steps[i], a, b, i);
    if a[i].status.Skipped? && !StoppedBefore(steps, a, i) { ReasonEarlier(steps[i], a[i].status.reason, a, b, i); }
    hide StoppedBefore, Due, ReasonFits;
  }

  lemma PastEntry(a: seq<Entry>, b: seq<Entry>, j: nat, i: nat)
    requires j < i && SamePast(a, b, i)
    ensures a[j] == b[j]
  {
    assert a[..i][j] == b[..i][j];
  }

  lemma StoppedEarlier(steps: seq<Step>, a: seq<Entry>, b: seq<Entry>, i: nat)
    requires i <= |steps| && SamePast(a, b, i)
    ensures StoppedBefore(steps, a, i) == StoppedBefore(steps, b, i)
  {
    hide Stops;
    forall j | 0 <= j < i
      ensures a[j] == b[j]
    {
      PastEntry(a, b, j, i);
    }
  }

  lemma DueEarlier(step: Step, a: seq<Entry>, b: seq<Entry>, i: nat)
    requires SamePast(a, b, i)
    ensures Due(step, a, i) == Due(step, b, i)
  {
    hide Matches;
    forall j | 0 <= j < i
      ensures a[j] == b[j]
    {
      PastEntry(a, b, j, i);
    }
    forall j | 0 <= j < i
      ensures Nearest(a, j, i) == Nearest(b, j, i)
    {
    }
  }

  lemma ReasonEarlier(step: Step, reason: Reason, a: seq<Entry>, b: seq<Entry>, i: nat)
    requires SamePast(a, b, i) && ReasonFits(step, reason, a, i)
    ensures ReasonFits(step, reason, b, i)
  {
    forall j | 0 <= j < i
      ensures a[j] == b[j]
    {
      PastEntry(a, b, j, i);
    }
    if reason.PreviousResult? {
      var j :| 0 <= j < i && Nearest(a, j, i) && a[j].result == reason.result;
      assert Nearest(b, j, i);
    } else if reason.OutputNotMatched? {
      var j :| 0 <= j < i && Nearest(a, j, i);
      assert Nearest(b, j, i);
    }
  }

  /** One step adds an entry that tells what happened to it, and stops the stack if that entry does. */
  lemma AdvanceTells(steps: seq<Step>, runs: seq<Ran>, s: State, n: nat)
    requires n < |steps| == |runs| && |s.entries| == n
    requires s.stopped <==> StoppedBefore(steps, s.entries, n)
    requires steps[n].stopOn.None? ==> s.stopped || ReasonToSkip(steps[n], s.entries).Some? || runs[n].Threw?
    ensures var t := Advance(s, steps[n], runs[n]);
            && |t.entries| == n + 1 && SamePast(s.entries, t.entries, n)
            && Told(steps, runs, t.entries, n)
            && (t.stopped <==> s.stopped || Stops(steps[n], t.entries[n]))
  {
    hide ReasonToSkip, ListHas, Tagged, Notes, Due, StoppedBefore, ReasonFits;
    var t := Advance(s, steps[n], runs[n]);
    SkipIffNotDue(steps[n], s.entries);
    assert SamePast(s.entries, t.entries, n);
    StoppedEarlier(steps, s.entries, t.entries, n);
    DueEarlier(steps[n], s.entries, t.entries, n);
    if !s.stopped && ReasonToSkip(steps[n], s.entries).Some? {
      ReasonEarlier(steps[n], ReasonToSkip(steps[n], s.entries).value, s.entries, t.entries, n);
    }
  }

  lemma StoppedNext(steps: seq<Step>, entries: seq<Entry>, n: nat)
    requires n < |steps| && n < |entries|
    ensures StoppedBefore(steps, entries, n + 1) <==> StoppedBefore(steps, entries, n) || Stops(steps[n], entries[n])
  {
    hide Stops;
  }

  /** The whole trace: entry `i` belongs to step `i`; the steps after the first stop are skipped as
      such; a step runs exactly when nothing stopped before it and it is due, a conditional step being
      due when the nearest earlier evaluated entry matches; what ran is reported as it came out. */
  lemma {:induction false} TraceTells(steps: seq<Step>, runs: seq<Ran>, n: nat)
    requires n <= |steps| == |runs| && NoneLacks(steps, runs, n)
    ensures var s := Run(steps, runs, n);
            && |s.entries| == n
            && (s.stopped <==> StoppedBefore(steps, s.entries, n))
            && forall i :: 0 <= i < n ==> Told(steps, runs, s.entries, i)
  {
    hide Advance, Told, StoppedBefore, Stops, ReasonToSkip;
    if n == 0 {
      NothingStopped(steps);
    } else {
      TraceTells(steps, runs, n - 1);
      var s, t := Run(steps, runs, n - 1), Run(steps, runs, n);
      assert !LacksList(steps, runs, n - 1);
      AdvanceTells(steps, runs, s, n - 1);
      StoppedNext(steps, t.entries, n - 1);
      StoppedEarlier(steps, s.entries, t.entries, n - 1);
      forall i | 0 <= i < n - 1
        ensures Told(steps, runs, t.entries, i)
      {
        assert SamePast(s.entries, t.entries, i + 1) by {
          assert s.entries[..i + 1] == s.entries[..n - 1][..i + 1] && t.entries[..i + 1] == t.entries[..n - 1][..i + 1];
        }
        ToldEarlier(steps, runs, s.entries, t.entries, i);
      }
    }
  }

  lemma NothingStopped(steps: seq<Step>)
    ensures !StoppedBefore(steps, [], 0)
  {
  }

  /** A list stops the stack on a result that equals one of its scalars, and outputs match when each one
      required is there with an equal scalar. */
  lemma MatchingIsOfScalars(list: seq<Json>, result: Json, required: Outputs, outputs: Outputs)
    ensures ListHas(list, Some(result)) <==> result in list && !result.Arr? && !result.Obj?
    ensures OutputMatches(required, outputs) <==>
              forall key :: key in required ==>
                key in outputs && outputs[key] == required[key] && !required[key].Arr? && !required[key].Obj?
  {
    if result in list && !result.Arr? && !result.Obj? {
      assert Identical(Some(result), Some(result));
    }
  }

  // ----- The default result and the outputs --------------------------------

  /** The result of the last entry that ran, deferred when none did. */
  predicate LastWord(entries: seq<Entry>, final: Json) {
    || (final == DEFERRED && forall j :: 0 <= j < |entries| ==> !RanEntry(entries[j]))
    || (exists j :: 0 <= j < |entries| && LastRan(entries, j) && entries[j].result == Some(final))
  }

  predicate LastRan(entries: seq<Entry>, j: nat)
    requires j < |entries|
  {
    RanEntry(entries[j]) && forall k :: j < k < |entries| ==> !RanEntry(entries[k])
  }

  /** The default result is that of the last evaluated or failed entry, and deferred when no step ran. */
  lemma {:induction false} DefaultResult(steps: seq<Step>, runs: seq<Ran>, n: nat)
    requires n <= |steps| == |runs|
    ensures LastWord(Run(steps, runs, n).entries, Run(steps, runs, n).final)
    ensures Truthy(Some(Run(steps, runs, n).final))
  {
    hide Advance, LastWord;
    if n == 0 {
      SilentStart();
    } else {
      DefaultResult(steps, runs, n - 1);
      AdvanceLastWord(Run(steps, runs, n - 1), steps[n - 1], runs[n - 1]);
    }
  }

  lemma SilentStart()
    ensures LastWord([], DEFERRED)
  {
  }

  lemma WordAfter(entries: seq<Entry>, final: Json, e: Entry, next: Json)
    requires LastWord(entries, final)
    requires if RanEntry(e) then e.result == Some(next) else next == final
    ensures LastWord(entries + [e], next)
  {
    hide RanEntry;
    var all := entries + [e];
    assert all[|entries|] == e;
    assert forall j :: 0 <= j < |entries| ==> all[j] == entries[j];
    if RanEntry(e) {
      assert LastRan(all, |entries|);
    } else if exists j :: 0 <= j < |entries| && LastRan(entries, j) && entries[j].result == Some(final) {
      var j :| 0 <= j < |entries| && LastRan(entries, j) && entries[j].result == Some(final);
      assert LastRan(all, j);
    }
  }

  lemma AdvanceLastWord(s: State, step: Step, ran: Ran)
    requires LastWord(s.entries, s.final) && Truthy(Some(s.final))
    ensures LastWord(Advance(s, step, ran).entries, Advance(s, step, ran).final)
    ensures Truthy(Some(Advance(s, step, ran).final))
  {
    hide LastWord, ReasonToSkip, ListHas, Tagged, Notes;
    var reason := ReasonToSkip(step, s.entries);
    var failed := Entry(step.id, Failed, Some(OrDeferred(step.onError)), map[]);
    if s.stopped {
      WordAfter(s.entries, s.final, SkipEntry(step, PreviousStepStopped), s.final);
    } else if reason.Some? {
      WordAfter(s.entries, s.final, SkipEntry(step, reason.value), s.final);
    } else if ran.Threw? {
      WordAfter(s.entries, s.final, failed, OrDeferred(step.onError));
    } else {
      var t := Take(s, step, ran);
      WordAfter(s.entries, s.final, Entry(step.id, Evaluated, Some(ran.result), ran.outputs), t.final);
      WordAfter(t.entries, t.final, failed, OrDeferred(step.onError));
    }
  }

  predicate Writes(step: Step, e: Entry, key: Units) {
    e.status.Evaluated? && step.merge && key in e.outputs
  }

  predicate LastWrites(steps: seq<Step>, entries: seq<Entry>, j: nat, key: Units)
    requires j < |entries| <= |steps|
  {
    Writes(steps[j], entries[j], key) && forall k :: j < k < |entries| ==> !Writes(steps[k], entries[k], key)
  }

  /** A flat output is the one of the last merging step that has it. */
  predicate FlatAt(steps: seq<Step>, entries: seq<Entry>, flat: Outputs, key: Units)
    requires |entries| <= |steps|
  {
    && (key in flat <==> exists j :: 0 <= j < |entries| && Writes(steps[j], entries[j], key))
    && (forall j :: 0 <= j < |entries| && LastWrites(steps, entries, j, key) ==> key in flat && flat[key] == entries[j].outputs[key])
  }

  predicate Named(steps: seq<Step>, entries: seq<Entry>, j: nat, name: Units)
    requires j < |entries| <= |steps|
  {
    entries[j].status.Evaluated? && name == if steps[j].namespace != [] then steps[j].namespace else steps[j].decisionKey
  }

  predicate LastNamed(steps: seq<Step>, entries: seq<Entry>, j: nat, name: Units)
    requires j < |entries| <= |steps|
  {
    Named(steps, entries, j, name) && forall k :: j < k < |entries| ==> !Named(steps, entries, k, name)
  }

  /** Under a namespace stand the outputs of the last step evaluated for it. */
  predicate ByStepAt(steps: seq<Step>, entries: seq<Entry>, byStep: map<Units, Outputs>, name: Units)
    requires |entries| <= |steps|
  {
    && (name in byStep <==> exists j :: 0 <= j < |entries| && Named(steps, entries, j, name))
    && (forall j :: 0 <= j < |entries| && LastNamed(steps, entries, j, name) ==> name in byStep && byStep[name] == entries[j].outputs)
  }

  lemma FlatNext(steps: seq<Step>, entries: seq<Entry>, flat: Outputs, e: Entry, key: Units)
    requires |entries| < |steps| && FlatAt(steps, entries, flat, key)
    ensures FlatAt(steps, entries + [e], Merged(flat, steps[|entries|], e), key)
  {
    hide Writes, Merged;
    var all, n := entries + [e], |entries|;
    assert all[n] == e && forall j :: 0 <= j < n ==> all[j] == entries[j];
    assert forall j :: 0 <= j < n ==> Writes(steps[j], all[j], key) == Writes(steps[j], entries[j], key);
    MergedAt(flat, steps[n], e, key);
    forall j | 0 <= j <= n && LastWrites(steps, all, j, key)
      ensures j == n || (LastWrites(steps, entries, j, key) && !Writes(steps[n], e, key))
    {
    }
  }

  function Merged(flat: Outputs, step: Step, e: Entry): Outputs {
    if e.status.Evaluated? && step.merge then flat + e.outputs else flat
  }

  lemma MergedAt(flat: Outputs, step: Step, e: Entry, key: Units)
    ensures key in Merged(flat, step, e) <==> Writes(step, e, key) || key in flat
    ensures Writes(step, e, key) ==> key in e.outputs && Merged(flat, step, e)[key] == e.outputs[key]
    ensures !Writes(step, e, key) && key in flat ==> Merged(flat, step, e)[key] == flat[key]
  {
  }

  lemma ByStepNext(steps: seq<Step>, entries: seq<Entry>, byStep: map<Units, Outputs>, e: Entry, name: Units)
    requires |entries| < |steps| && ByStepAt(steps, entries, byStep, name)
    ensures ByStepAt(steps, entries + [e], Filed(byStep, steps[|entries|], e), name)
  {
    hide NamespaceOf, Filed;
    var all, n := entries + [e], |entries|;
    assert all[n] == e && forall j :: 0 <= j < n ==> all[j] == entries[j];
    assert forall j :: 0 <= j < n ==> Named(steps, all, j, name) == Named(steps, entries, j, name);
    FiledAt(byStep, steps[n], e, name);
    hide Named;
    assert Named(steps, all, n, name) == (e.status.Evaluated? && NamespaceOf(steps[n]) == name) by { NamedLast(steps, all, name); }
    forall j | 0 <= j <= n && LastNamed(steps, all, j, name)
      ensures j == n || (LastNamed(steps, entries, j, name) && !Named(steps, all, n, name))
    {
    }
  }

  lemma NamedLast(steps: seq<Step>, entries: seq<Entry>, name: Units)
    requires 0 < |entries| <= |steps|
    ensures var n := |entries| - 1;
            Named(steps, entries, n, name) <==> entries[n].status.Evaluated? && NamespaceOf(steps[n]) == name
  {
  }

  function Filed(byStep: map<Units, Outputs>, step: Step, e: Entry): map<Units, Outputs> {
    if e.status.Evaluated? then byStep[NamespaceOf(step) := e.outputs] else byStep
  }

  lemma FiledAt(byStep: map<Units, Outputs>, step: Step, e: Entry, name: Units)
    ensures var here := e.status.Evaluated? && NamespaceOf(step) == name;
            && (name in Filed(byStep, step, e) <==> here || name in byStep)
            && (here ==> Filed(byStep, step, e)[name] == e.outputs)
            && (!here && name in byStep ==> Filed(byStep, step, e)[name] == byStep[name])
  {
  }

  lemma AdvanceWrites(s: State, step: Step, ran: Ran)
    requires |Advance(s, step, ran).entries| == |s.entries| + 1
    ensures var t := Advance(s, step, ran);
            var e := t.entries[|s.entries|];
            && t.entries == s.entries + [e]
            && t.flat == Merged(s.flat, step, e)
            && t.byStep == Filed(s.byStep, step, e)
  {
    hide ReasonToSkip, ListHas, Tagged, Notes, NamespaceOf;
  }

  /** Flat and named outputs are those of the last writer. */
  lemma {:induction false} OutputsAreLastWritten(steps: seq<Step>, runs: seq<Ran>, n: nat, key: Units)
    requires n <= |steps| == |runs| && NoneLacks(steps, runs, n)
    ensures var s := Run(steps, runs, n);
            && |s.entries| == n
            && FlatAt(steps, s.entries, s.flat, key)
            && ByStepAt(steps, s.entries, s.byStep, key)
  {
    hide Advance, FlatAt, ByStepAt, NoneLacks, LacksList;
    OneEntryPerStepIff(steps, runs, n);
    if n == 0 {
      NothingWritten(steps, key);
    } else {
      FewerLack(steps, runs, n);
      OutputsAreLastWritten(steps, runs, n - 1, key);
      var s := Run(steps, runs, n - 1);
      AdvanceWrites(s, steps[n - 1], runs[n - 1]);
      var e := Run(steps, runs, n).entries[n - 1];
      FlatNext(steps, s.entries, s.flat, e, key);
      ByStepNext(steps, s.entries, s.byStep, e, key);
    }
  }

  lemma FewerLack(steps: seq<Step>, runs: seq<Ran>, n: nat)
    requires 0 < n <= |steps| == |runs| && NoneLacks(steps, runs, n)
    ensures NoneLacks(steps, runs, n - 1)
  {
  }

  lemma NothingWritten(steps: seq<Step>, key: Units)
    ensures FlatAt(steps, [], map[], key) && ByStepAt(steps, [], map[], key)
  {
  }

  // ----- Matched rules and errors ------------------------------------------

  /** The entries that step `i` adds to the trace. */
  function Added(steps: seq<Step>, runs: seq<Ran>, i: nat): seq<Entry>
    requires i < |steps| == |runs|
  {
    PrefixRun(steps, runs, i, i + 1);
    Run(steps, runs, i + 1).entries[|Run(steps, runs, i).entries|..]
  }

  predicate Has(entries: seq<Entry>, status: Status) {
    exists j :: 0 <= j < |entries| && entries[j].status == status
  }

  /** The rules matched by the steps that were evaluated, each under the key of its step. */
  function MatchedBy(steps: seq<Step>, runs: seq<Ran>, n: nat): seq<(Units, Units)>
    requires n <= |steps| == |runs|
  {
    if n == 0 then []
    else
      MatchedBy(steps, runs, n - 1)
      + if Has(Added(steps, runs, n - 1), Evaluated) && runs[n - 1].Done?
        then seq(|runs[n - 1].matched|, k requires 0 <= k < |runs[n - 1].matched| => (steps[n - 1].decisionKey, runs[n - 1].matched[k]))
        else []
  }

  /** The errors reported by the steps that were evaluated, and one for each that failed: what its rule
      threw, or that it lacks a stop list. */
  function ErrorsOf(steps: seq<Step>, runs: seq<Ran>, n: nat): seq<Note>
    requires n <= |steps| == |runs|
  {
    if n == 0 then []
    else
      ErrorsOf(steps, runs, n - 1) + StepErrors(steps[n - 1], runs[n - 1], Added(steps, runs, n - 1))
  }

  function StepErrors(step: Step, ran: Ran, added: seq<Entry>): seq<Note> {
    (if Has(added, Evaluated) && ran.Done?
     then seq(|ran.errors|, k requires 0 <= k < |ran.errors| => Reported(step.decisionKey, ran.errors[k])) else [])
    + (if Has(added, Failed) then [if ran.Threw? then Thrown(step.decisionKey, ran.message) else NoStopList(step.decisionKey)]
       else [])
  }

  lemma TakeReports(s: State, step: Step, ran: Ran, added: seq<Entry>, t: State)
    requires ran.Done? && (added == [] || (|added| == 1 && added[0].status == Failed))
    requires var u := Take(s, step, ran);
             && t.entries == u.entries + added && t.matched == u.matched
             && t.errors == u.errors + if added == [] then [] else [NoStopList(step.decisionKey)]
    ensures ReportsFit(s, step, ran, t)
  {
    hide Tagged;
    var all := t.entries[|s.entries|..];
    assert all == [Entry(step.id, Evaluated, Some(ran.result), ran.outputs)] + added;
    assert all[0].status == Evaluated;
    if added != [] { assert all[1].status == Failed; }
  }

  /** From one state to the next, the reports of the entries added. */
  predicate ReportsFit(s: State, step: Step, ran: Ran, t: State) {
    && s.entries <= t.entries
    && var added := t.entries[|s.entries|..];
       && t.errors == s.errors + StepErrors(step, ran, added)
       && t.matched == s.matched + if Has(added, Evaluated) && ran.Done? then Tagged(step.decisionKey, ran.matched) else []
  }

  lemma AdvanceReports(s: State, step: Step, ran: Ran)
    ensures ReportsFit(s, step, ran, Advance(s, step, ran))
  {
    hide ReasonToSkip, ListHas, Tagged, Notes;
    var t := Advance(s, step, ran);
    var added := t.entries[|s.entries|..];
    if s.stopped || ReasonToSkip(step, s.entries).Some? {
      assert |added| == 1 && added[0].status.Skipped?;
    } else if ran.Threw? {
      assert added == [Entry(step.id, Failed, Some(OrDeferred(step.onError)), map[])];
      assert added[0].status == Failed;
    } else {
      hide ReportsFit, Take;
      TakeReports(s, step, ran, t.entries[|Take(s, step, ran).entries|..], t);
    }
  }

  /** Over the whole run, matched rules and errors are exactly those of the entries, in order. */
  lemma {:induction false} ReportsAreOfEntries(steps: seq<Step>, runs: seq<Ran>, n: nat)
    requires n <= |steps| == |runs|
    ensures var s := Run(steps, runs, n);
            s.matched == MatchedBy(steps, runs, n) && s.errors == ErrorsOf(steps, runs, n)
  {
    hide Advance, StepErrors, Has;
    if n > 0 {
      ReportsAreOfEntries(steps, runs, n - 1);
      AdvanceReports(Run(steps, runs, n - 1), steps[n - 1], runs[n - 1]);
    }
  }

  // ----- Result policies ---------------------------------------------------

  /** Any-eligible reports eligible exactly when some entry, a failed one included, has that result, and
      the default result otherwise; all-eligible exactly when a step was evaluated and every evaluated
      one has it, and deferred otherwise; no other policy changes the default result. */
  lemma PolicyMeaning(steps: seq<Step>, runs: seq<Ran>, n: nat, policy: Policy)
    requires n <= |steps| == |runs|
    ensures var s := Run(steps, runs, n);
            var result := StackResult(policy, s.final, s.entries);
            && (policy.AnyEligible? ==>
                  && (result == ELIGIBLE <==> exists e :: e in s.entries && e.result == Some(ELIGIBLE))
                  && (result != ELIGIBLE ==> result == s.final))
            && (policy.AllEligible? ==>
                  && (result == ELIGIBLE <==>
                        && (exists e :: e in s.entries && e.status.Evaluated?)
                        && (forall e :: e in s.entries && e.status.Evaluated? ==> e.result == Some(ELIGIBLE)))
                  && (result == ELIGIBLE || result == DEFERRED))
            && (policy.OtherPolicy? ==> result == s.final)
  {
    DefaultResult(steps, runs, n);
    var s := Run(steps, runs, n);
    assert DEFERRED.s[0] != ELIGIBLE.s[0];
    if s.final == ELIGIBLE {
      var j :| 0 <= j < |s.entries| && LastRan(s.entries, j) && s.entries[j].result == Some(s.final);
      assert s.entries[j] in s.entries;
    }
    hide Run;
  }
}
