/** The optimistic snapshot writer: one stored row, one conditional upsert per save, and any
    number of processes whose saves overlap freely. */
module Snapshots {
  import opened Common

  type Snapshot = string
  type Pid = nat
  type WriteId = nat

  datatype Row = Row(revision: nat, snapshot: Snapshot)

  function Revision(row: Option<Row>): nat {
    match row case None => 0 case Some(r) => r.revision
  }

  /** `INSERT ... ON CONFLICT DO UPDATE ... WHERE revision = previous`: the new row and whether one row was written. */
  function Upsert(row: Option<Row>, previous: nat, snapshot: Snapshot): (Option<Row>, bool) {
    match row
    case None => (Some(Row(previous + 1, snapshot)), true)
    case Some(r) => if r.revision == previous then (Some(Row(previous + 1, snapshot)), true) else (row, false)
  }

  /** The snapshot table as `writeSnapshot` and `readSnapshot` use it. */
  class SnapshotTable {
    var row: Option<Row>

    constructor ()
      ensures row == None
    {
      row := None;
    }

    method ReadSnapshot() returns (revision: nat)
      ensures revision == Revision(row)
    {
      revision := if row.None? then 0 else row.value.revision;
    }

    /** Nothing is written and the call fails when the stored revision is another one. */
    method WriteSnapshot(snapshot: Snapshot, previous: nat) returns (saved: Option<nat>)
      modifies this
      ensures (row, saved.Some?) == Upsert(old(row), previous, snapshot)
      ensures saved.Some? ==> saved.value == previous + 1 == Revision(row)
    {
      var revision := previous + 1;
      if row.None? {
        row := Some(Row(revision, snapshot));
      } else if row.value.revision == previous {
        row := Some(Row(revision, snapshot));
      } else {
        return None;
      }
      saved := Some(revision);
    }
  }

  // ----- Interleavings -----------------------------------------------------

  datatype Progress = Pending | Succeeded | Conflicted

  /** A save on its way: the revision its process had seen when it started, and what the database did. */
  datatype Write = Write(pid: Pid, previous: nat, snapshot: Snapshot, progress: Progress)

  /** A successful write: who made it, what it replaced, and what its process had seen by then. */
  datatype Commit = Commit(pid: Pid, replaced: nat, seen: nat, snapshot: Snapshot)

  datatype State = State(row: Option<Row>, latest: map<Pid, nat>, writes: map<WriteId, Write>, log: seq<Commit>)

  datatype Step =
    | Load(pid: Pid)                                  // a process starts and reads the snapshot
    | BeginSave(id: WriteId, pid: Pid, snapshot: Snapshot)
    | Execute(id: WriteId)                            // the database runs the statement
    | Answer(id: WriteId)                             // the process gets the outcome
    | Fail(id: WriteId)                               // the connection fails, before or after the statement ran

  predicate Enabled(s: State, step: Step) {
    match step
    case Load(pid) => pid !in s.latest
    case BeginSave(id, pid, _) => id !in s.writes && pid in s.latest
    case Execute(id) => id in s.writes && s.writes[id].progress.Pending? && s.writes[id].pid in s.latest
    case Answer(id) => id in s.writes && !s.writes[id].progress.Pending?
    case Fail(id) => id in s.writes
  }

  function Next(s: State, step: Step): State
    requires Enabled(s, step)
  {
    match step
    case Load(pid) => s.(latest := s.latest[pid := Revision(s.row)])
    case BeginSave(id, pid, snapshot) =>
      s.(writes := s.writes[id := Write(pid, s.latest[pid], snapshot, Pending)])
    case Execute(id) =>
      var w := s.writes[id];
      var (row, written) := Upsert(s.row, w.previous, w.snapshot);
      if written then
        State(row, s.latest, s.writes[id := w.(progress := Succeeded)],
              s.log + [Commit(w.pid, Revision(s.row), s.latest[w.pid], w.snapshot)])
      else s.(writes := s.writes[id := w.(progress := Conflicted)])
    case Answer(id) =>
      var w := s.writes[id];
      if w.progress.Succeeded? then State(s.row, s.latest[w.pid := w.previous + 1], s.writes - {id}, s.log)
      else s.(writes := s.writes - {id})
    case Fail(id) => s.(writes := s.writes - {id})
  }

  predicate Runs(s: State, steps: seq<Step>)
    decreases |steps|
  {
    steps == [] || (Enabled(s, steps[0]) && Runs(Next(s, steps[0]), steps[1..]))
  }

  function RunOf(s: State, steps: seq<Step>): State
    requires Runs(s, steps)
    decreases |steps|
  {
    if steps == [] then s else RunOf(Next(s, steps[0]), steps[1..])
  }

  /** No process is running yet; the row is whatever earlier runs left. */
  predicate Initial(s: State) {
    s.latest == map[] && s.writes == map[] && s.log == []
  }

  /** A write whose success its process has not been told of. */
  predicate Unanswered(s: State, id: WriteId, pid: Pid) {
    id in s.writes && s.writes[id].pid == pid && s.writes[id].progress.Succeeded?
  }

  /** Pending saves are no newer than what their process has seen, and an unanswered success
      replaced exactly what its process had seen. */
  predicate WriteOk(latest: map<Pid, nat>, revision: nat, w: Write) {
    && w.pid in latest
    && (w.progress.Pending? ==> w.previous <= latest[w.pid])
    && (w.progress.Succeeded? ==> w.previous == latest[w.pid] < revision)
  }

  predicate WritesOk(latest: map<Pid, nat>, revision: nat, writes: map<WriteId, Write>) {
    forall id :: id in writes ==> WriteOk(latest, revision, writes[id])
  }

  predicate NoneAhead(latest: map<Pid, nat>, revision: nat) {
    forall pid :: pid in latest ==> latest[pid] <= revision
  }

  /** Each process has at most one unanswered success. */
  predicate OneSuccess(writes: map<WriteId, Write>) {
    forall id, id' ::
      id in writes && id' in writes && id != id' && writes[id].progress.Succeeded? && writes[id'].progress.Succeeded?
      ==> writes[id].pid != writes[id'].pid
  }

  /** Kept by every step. */
  predicate Inv(s: State) {
    && NoneAhead(s.latest, Revision(s.row))
    && WritesOk(s.latest, Revision(s.row), s.writes)
    && OneSuccess(s.writes)
  }

  lemma InvKept(s: State, step: Step)
    requires Inv(s) && Enabled(s, step)
    ensures Inv(Next(s, step))
  {
    match step
    case Load(pid) => LoadKeeps(s, pid);
    case BeginSave(id, pid, snapshot) =>
    case Execute(id) => ExecuteKeeps(s, id);
    case Answer(id) => AnswerKeeps(s, id);
    case Fail(id) =>
  }

  lemma LoadKeeps(s: State, pid: Pid)
    requires Inv(s) && Enabled(s, Load(pid))
    ensures Inv(Next(s, Load(pid)))
  {
    var t := Next(s, Load(pid));
    forall id | id in t.writes
      ensures WriteOk(t.latest, Revision(t.row), t.writes[id])
    {
      assert WriteOk(s.latest, Revision(s.row), s.writes[id]);
    }
  }

  lemma AnswerKeeps(s: State, id: WriteId)
    requires Inv(s) && Enabled(s, Answer(id))
    ensures Inv(Next(s, Answer(id)))
  {
    var t, w := Next(s, Answer(id)), s.writes[id];
    assert WriteOk(s.latest, Revision(s.row), w);
    forall other | other in t.writes
      ensures WriteOk(t.latest, Revision(t.row), t.writes[other])
    {
      assert WriteOk(s.latest, Revision(s.row), s.writes[other]);
    }
  }

  /** The database accepts a statement exactly when it names the stored revision, which its process
      has then seen. */
  lemma Accepted(s: State, id: WriteId)
    requires Inv(s) && Enabled(s, Execute(id))
    ensures var w := s.writes[id];
            && w.previous <= s.latest[w.pid] <= Revision(s.row)
            && Upsert(s.row, w.previous, w.snapshot) ==
               if w.previous == Revision(s.row) then (Some(Row(w.previous + 1, w.snapshot)), true) else (s.row, false)
  {
    assert WriteOk(s.latest, Revision(s.row), s.writes[id]);
  }

  lemma ExecuteKeeps(s: State, id: WriteId)
    requires Inv(s) && Enabled(s, Execute(id))
    ensures Inv(Next(s, Execute(id)))
  {
    Accepted(s, id);
    var t, w := Next(s, Execute(id)), s.writes[id];
    forall other | other in t.writes
      ensures WriteOk(t.latest, Revision(t.row), t.writes[other])
      ensures w.previous == Revision(s.row) && other != id && t.writes[other].progress.Succeeded? ==> t.writes[other].pid != w.pid
    {
      assert WriteOk(s.latest, Revision(s.row), s.writes[other]);
    }
  }

  /** When it accepts, the revision rises by one and the commit replaced what the process had seen. */
  lemma ExecuteIff(s: State, id: WriteId)
    requires Inv(s) && Enabled(s, Execute(id))
    ensures var t, w := Next(s, Execute(id)), s.writes[id];
            if w.previous == Revision(s.row)
            then && t.row == Some(Row(Revision(s.row) + 1, w.snapshot))
                 && t.log == s.log + [Commit(w.pid, Revision(s.row), Revision(s.row), w.snapshot)]
            else t.row == s.row && t.log == s.log
  {
    Accepted(s, id);
  }

  /** Commit number `i` replaced revision base + i, and its process had seen that revision. */
  ghost predicate Consecutive(log: seq<Commit>, base: nat) {
    forall i :: 0 <= i < |log| ==> log[i].replaced == log[i].seen == base + i
  }

  lemma {:induction false} RunKeeps(s: State, steps: seq<Step>, base: nat)
    requires Inv(s) && Runs(s, steps) && Consecutive(s.log, base) && Revision(s.row) == base + |s.log|
    ensures var t := RunOf(s, steps);
            Inv(t) && Consecutive(t.log, base) && Revision(t.row) == base + |t.log|
    decreases |steps|
  {
    if steps != [] {
      var t := Next(s, steps[0]);
      InvKept(s, steps[0]);
      if steps[0].Execute? { ExecuteIff(s, steps[0].id); }
      RunKeeps(t, steps[1..], base);
    }
  }

  /** Over any interleaving from a fresh start: the stored revision rises by exactly one per
      successful write, and every committed snapshot came from a process whose latest seen revision
      was the one it replaced. */
  lemma RevisionsCountCommits(s: State, steps: seq<Step>)
    requires Initial(s) && Runs(s, steps)
    ensures var t := RunOf(s, steps);
            && Inv(t)
            && Revision(t.row) == Revision(s.row) + |t.log|
            && Consecutive(t.log, Revision(s.row))
  {
    RunKeeps(s, steps, Revision(s.row));
  }

  /** A process that has fallen behind and waits for no good news. */
  ghost predicate Behind(s: State, pid: Pid) {
    && pid in s.latest && s.latest[pid] < Revision(s.row)
    && forall id :: !Unanswered(s, id, pid)
  }

  predicate CommitsOf(log: seq<Commit>, from: nat, pid: Pid) {
    exists i :: from <= i < |log| && log[i].pid == pid
  }

  lemma BehindKept(s: State, step: Step, pid: Pid)
    requires Inv(s) && Behind(s, pid) && Enabled(s, step)
    ensures var t := Next(s, step);
            && Behind(t, pid) && t.latest[pid] == s.latest[pid]
            && (t.log == s.log || (|t.log| == |s.log| + 1 && t.log[..|s.log|] == s.log && t.log[|s.log|].pid != pid))
  {
    if step.Execute? {
      ExecuteIff(s, step.id);
      assert !Unanswered(s, step.id, pid);
      assert s.writes[step.id].previous <= s.latest[s.writes[step.id].pid];
    }
    var t := Next(s, step);
    forall id
      ensures !Unanswered(t, id, pid)
    {
      assert !Unanswered(s, id, pid);
    }
    if step.Answer? { assert !Unanswered(s, step.id, pid); }
  }

  /** A process behind the stored revision, with no unanswered success of its own, never commits
      again, whatever it or the others do: it has to be restarted. */
  lemma {:induction false} BehindNeverCommits(s: State, steps: seq<Step>, pid: Pid)
    requires Inv(s) && Behind(s, pid) && Runs(s, steps)
    ensures var t := RunOf(s, steps);
            && Behind(t, pid) && s.log <= t.log
            && !CommitsOf(t.log, |s.log|, pid)
    decreases |steps|
  {
    if steps != [] {
      var u := Next(s, steps[0]);
      InvKept(s, steps[0]);
      BehindKept(s, steps[0], pid);
      BehindNeverCommits(u, steps[1..], pid);
      var t := RunOf(s, steps);
      assert s.log <= u.log <= t.log;
      forall i | |s.log| <= i < |t.log|
        ensures t.log[i].pid != pid
      {
        if i < |u.log| { assert t.log[i] == u.log[i]; }
      }
    }
  }

  /** Of two overlapping saves that start from the same revision, at most one commits. */
  lemma OverlappingSaves(s: State, a: WriteId, b: WriteId)
    requires Inv(s) && a != b && Enabled(s, Execute(a)) && Enabled(s, Execute(b))
    requires s.writes[a].previous == s.writes[b].previous
    ensures var t := Next(s, Execute(a));
            Enabled(t, Execute(b)) && |Next(t, Execute(b)).log| <= |s.log| + 1
  {
    var t := Next(s, Execute(a));
    InvKept(s, Execute(a));
    ExecuteIff(s, a);
    ExecuteIff(t, b);
  }

  // ----- Saves that go through ---------------------------------------------

  /** The process has seen the stored revision. */
  predicate UpToDate(s: State, pid: Pid) {
    pid in s.latest && s.latest[pid] == Revision(s.row)
  }

  predicate LeavesAlone(steps: seq<Step>, id: WriteId) {
    forall k :: 0 <= k < |steps| ==>
      steps[k] != Execute(id) && steps[k] != Answer(id) && steps[k] != Fail(id)
  }

  /** A save that nobody has touched stays as it is while others go on; commits only add to the log,
      and each raises the stored revision by one. */
  lemma {:induction false} Waiting(s: State, steps: seq<Step>, id: WriteId)
    requires Inv(s) && Runs(s, steps) && LeavesAlone(steps, id) && id in s.writes
    ensures var t := RunOf(s, steps);
            && Inv(t) && id in t.writes && t.writes[id] == s.writes[id] && s.latest.Keys <= t.latest.Keys
            && s.log <= t.log && Revision(t.row) - |t.log| == Revision(s.row) - |s.log|
    decreases |steps|
  {
    if steps != [] {
      assert steps[0] != Execute(id) && steps[0] != Answer(id) && steps[0] != Fail(id);
      InvKept(s, steps[0]);
      if steps[0].Execute? { ExecuteIff(s, steps[0].id); }
      Waiting(Next(s, steps[0]), steps[1..], id);
    }
  }

  /** A save commits exactly when its process was up to date when it began and nobody has committed
      since; it then stores its snapshot under the next revision. */
  lemma SaveCommitsIff(s: State, id: WriteId, pid: Pid, snapshot: Snapshot, steps: seq<Step>)
    requires Inv(s) && Runs(s, [BeginSave(id, pid, snapshot)] + steps) && LeavesAlone(steps, id)
    ensures var t := RunOf(s, [BeginSave(id, pid, snapshot)] + steps);
            && Enabled(t, Execute(id))
            && var u := Next(t, Execute(id));
               if UpToDate(s, pid) && t.log == s.log
               then && u.row == Some(Row(Revision(s.row) + 1, snapshot))
                    && u.log == s.log + [Commit(pid, Revision(s.row), Revision(s.row), snapshot)]
               else u.row == t.row && u.log == t.log
  {
    var begin := BeginSave(id, pid, snapshot);
    assert ([begin] + steps)[1..] == steps;
    InvKept(s, begin);
    var u := Next(s, begin);
    Waiting(u, steps, id);
    ExecuteIff(RunOf(u, steps), id);
    if RunOf(u, steps).log != s.log { assert |RunOf(u, steps).log| > |s.log|; }
  }

  /** A process that hears of its success has seen the revision which that write stored, whatever
      happened in between; a refusal tells it nothing. */
  lemma AnswerTellsRevision(s: State, id: WriteId, steps: seq<Step>)
    requires Inv(s) && Enabled(s, Execute(id))
    requires Runs(Next(s, Execute(id)), steps) && LeavesAlone(steps, id)
    ensures var pid, t := s.writes[id].pid, Next(s, Execute(id));
            var u := RunOf(t, steps);
            && Enabled(u, Answer(id)) && pid in u.latest
            && Next(u, Answer(id)).latest ==
               if |t.log| > |s.log| then u.latest[pid := Revision(t.row)] else u.latest
  {
    InvKept(s, Execute(id));
    ExecuteIff(s, id);
    Waiting(Next(s, Execute(id)), steps, id);
  }

  /** One save from start to answer, with what other processes do while it waits for the database and
      for its answer. */
  datatype Round = Round(id: WriteId, snapshot: Snapshot, before: seq<Step>, after: seq<Step>)

  function StepsOf(pid: Pid, r: Round): seq<Step> {
    [BeginSave(r.id, pid, r.snapshot)] + r.before + [Execute(r.id)] + r.after + [Answer(r.id)]
  }

  function AllSteps(pid: Pid, rounds: seq<Round>): seq<Step> {
    if rounds == [] then [] else StepsOf(pid, rounds[0]) + AllSteps(pid, rounds[1..])
  }

  predicate NoStatement(steps: seq<Step>) {
    forall k :: 0 <= k < |steps| ==> !steps[k].Execute?
  }

  /** Nobody else's statement runs in between, and the save is not cut off. */
  predicate Undisturbed(r: Round) {
    && LeavesAlone(r.before, r.id) && LeavesAlone(r.after, r.id)
    && NoStatement(r.before) && NoStatement(r.after)
  }

  lemma {:induction false} RunAppend(s: State, first: seq<Step>, rest: seq<Step>)
    ensures Runs(s, first + rest) <==> Runs(s, first) && Runs(RunOf(s, first), rest)
    ensures Runs(s, first + rest) ==> RunOf(s, first + rest) == RunOf(RunOf(s, first), rest)
    decreases |first|
  {
    if first == [] {
      assert first + rest == rest;
    } else {
      assert (first + rest)[1..] == first[1..] + rest;
      if Enabled(s, first[0]) { RunAppend(Next(s, first[0]), first[1..], rest); }
    }
  }

  lemma {:induction false} NothingCommitted(s: State, steps: seq<Step>)
    requires Runs(s, steps) && NoStatement(steps)
    ensures var t := RunOf(s, steps); t.log == s.log && t.row == s.row
    decreases |steps|
  {
    if steps != [] { NothingCommitted(Next(s, steps[0]), steps[1..]); }
  }

  lemma OneRound(s: State, pid: Pid, r: Round)
    requires Inv(s) && UpToDate(s, pid) && Undisturbed(r) && Runs(s, StepsOf(pid, r))
    ensures var t := RunOf(s, StepsOf(pid, r));
            && Inv(t) && UpToDate(t, pid)
            && t.row == Some(Row(Revision(s.row) + 1, r.snapshot))
            && t.log == s.log + [Commit(pid, Revision(s.row), Revision(s.row), r.snapshot)]
  {
    hide Inv, Next, Enabled, LeavesAlone;
    var begin, execute, answer := BeginSave(r.id, pid, r.snapshot), Execute(r.id), Answer(r.id);
    RunAppend(s, [begin] + r.before + [execute] + r.after, [answer]);
    RunAppend(s, [begin] + r.before + [execute], r.after);
    RunAppend(s, [begin] + r.before, [execute]);
    RunSteps(s, [begin] + r.before, pid, r);
  }

  lemma RunSteps(s: State, first: seq<Step>, pid: Pid, r: Round)
    requires Inv(s) && UpToDate(s, pid) && Undisturbed(r)
    requires first == [BeginSave(r.id, pid, r.snapshot)] + r.before && Runs(s, first)
    requires Runs(RunOf(s, first), [Execute(r.id)])
    requires var u := RunOf(RunOf(s, first), [Execute(r.id)]); Runs(u, r.after) && Runs(RunOf(u, r.after), [Answer(r.id)])
    ensures var u := RunOf(RunOf(s, first), [Execute(r.id)]);
            var t := RunOf(RunOf(u, r.after), [Answer(r.id)]);
            && Inv(t) && UpToDate(t, pid)
            && t.row == Some(Row(Revision(s.row) + 1, r.snapshot))
            && t.log == s.log + [Commit(pid, Revision(s.row), Revision(s.row), r.snapshot)]
  {
    NothingCommitted(s, first);
    KeepsInv(s, first);
    SaveCommitsIff(s, r.id, pid, r.snapshot, r.before);
    var t := RunOf(s, first);
    Began(s, r.id, pid, r.snapshot, r.before);
    AnswerTellsRevision(t, r.id, r.after);
    InvKept(t, Execute(r.id));
    var u := Next(t, Execute(r.id));
    assert RunOf(t, [Execute(r.id)]) == u;
    KeepsInv(u, r.after);
    NothingCommitted(u, r.after);
    InvKept(RunOf(u, r.after), Answer(r.id));
  }

  lemma Began(s: State, id: WriteId, pid: Pid, snapshot: Snapshot, steps: seq<Step>)
    requires Inv(s) && Runs(s, [BeginSave(id, pid, snapshot)] + steps) && LeavesAlone(steps, id)
    ensures var t := RunOf(s, [BeginSave(id, pid, snapshot)] + steps);
            Enabled(t, Execute(id)) && t.writes[id].pid == pid
  {
    assert ([BeginSave(id, pid, snapshot)] + steps)[1..] == steps;
    InvKept(s, BeginSave(id, pid, snapshot));
    Waiting(Next(s, BeginSave(id, pid, snapshot)), steps, id);
  }

  lemma {:induction false} KeepsInv(s: State, steps: seq<Step>)
    requires Inv(s) && Runs(s, steps)
    ensures Inv(RunOf(s, steps))
    decreases |steps|
  {
    if steps != [] {
      InvKept(s, steps[0]);
      KeepsInv(Next(s, steps[0]), steps[1..]);
    }
  }

  /** However many saves an up-to-date process makes, each undisturbed and answered before the next:
      all of them commit, in order, and it stays up to date. */
  lemma {:induction false} EverySaveCommits(s: State, pid: Pid, rounds: seq<Round>)
    requires Inv(s) && UpToDate(s, pid) && Runs(s, AllSteps(pid, rounds))
    requires forall k :: 0 <= k < |rounds| ==> Undisturbed(rounds[k])
    ensures var t := RunOf(s, AllSteps(pid, rounds));
            && UpToDate(t, pid) && Revision(t.row) == Revision(s.row) + |rounds|
            && (rounds != [] ==> t.row == Some(Row(Revision(s.row) + |rounds|, rounds[|rounds| - 1].snapshot)))
            && |t.log| == |s.log| + |rounds| && s.log <= t.log
            && forall k :: 0 <= k < |rounds| ==>
                 t.log[|s.log| + k] == Commit(pid, Revision(s.row) + k, Revision(s.row) + k, rounds[k].snapshot)
    decreases |rounds|
  {
    hide Inv, Next, StepsOf, Undisturbed;
    if rounds != [] {
      RunAppend(s, StepsOf(pid, rounds[0]), AllSteps(pid, rounds[1..]));
      OneRound(s, pid, rounds[0]);
      var u := RunOf(s, StepsOf(pid, rounds[0]));
      EverySaveCommits(u, pid, rounds[1..]);
      forall k | 0 <= k < |rounds|
        ensures RunOf(s, AllSteps(pid, rounds)).log[|s.log| + k]
             == Commit(pid, Revision(s.row) + k, Revision(s.row) + k, rounds[k].snapshot)
      {
        if k > 0 { assert rounds[1..][k - 1] == rounds[k]; }
      }
    }
  }

  /** In particular for a process that has just started, and such saves can always be made. */
  lemma FreshProcessSaves(s: State, pid: Pid, id: WriteId, snapshots: seq<Snapshot>)
    requires Inv(s) && Enabled(s, Load(pid)) && id !in s.writes
    ensures var rounds := seq(|snapshots|, k requires 0 <= k < |snapshots| => Round(id, snapshots[k], [], []));
            var steps := [Load(pid)] + AllSteps(pid, rounds);
            && Runs(s, steps)
            && var t := RunOf(s, steps);
               UpToDate(t, pid) && |t.log| == |s.log| + |snapshots| && Revision(t.row) == Revision(s.row) + |snapshots|
  {
    var rounds := seq(|snapshots|, k requires 0 <= k < |snapshots| => Round(id, snapshots[k], [], []));
    var u := Next(s, Load(pid));
    InvKept(s, Load(pid));
    assert ([Load(pid)] + AllSteps(pid, rounds))[1..] == AllSteps(pid, rounds);
    CanSave(u, pid, id, rounds);
    EverySaveCommits(u, pid, rounds);
  }

  lemma RunStep(s: State, step: Step, steps: seq<Step>)
    requires Enabled(s, step) && Runs(Next(s, step), steps)
    ensures Runs(s, [step] + steps) && RunOf(s, [step] + steps) == RunOf(Next(s, step), steps)
  {
    assert ([step] + steps)[1..] == steps;
  }

  lemma {:induction false} CanSave(s: State, pid: Pid, id: WriteId, rounds: seq<Round>)
    requires pid in s.latest && id !in s.writes
    requires forall k :: 0 <= k < |rounds| ==> rounds[k].id == id && rounds[k].before == rounds[k].after == []
    ensures Runs(s, AllSteps(pid, rounds))
    decreases |rounds|
  {
    if rounds != [] {
      var r := rounds[0];
      var begin := BeginSave(id, pid, r.snapshot);
      var t := Next(s, begin);
      var u := Next(t, Execute(id));
      var v := Next(u, Answer(id));
      RunStep(u, Answer(id), []);
      RunStep(t, Execute(id), [Answer(id)]);
      RunStep(s, begin, [Execute(id), Answer(id)]);
      assert StepsOf(pid, r) == [begin] + [Execute(id), Answer(id)];
      assert [Execute(id), Answer(id)] == [Execute(id)] + [Answer(id)];
      assert [Answer(id)] == [Answer(id)] + [];
      RunAppend(s, StepsOf(pid, r), AllSteps(pid, rounds[1..]));
      CanSave(v, pid, id, rounds[1..]);
    }
  }
}
