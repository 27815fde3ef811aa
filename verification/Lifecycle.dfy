/** The rule lifecycle over every run of requests: numbering, history, archiving, and the promise of the
    approval workflow. Submitting, approving and publishing take two steps, the guard on the rule as it
    was read and the later store call, so requests of others may land between them. */
module Lifecycle {
  import opened Common
  import opened RuleStore

  datatype Action = Submitting | Approving(force: bool) | Publishing

  /** `valid` is the definition validator's verdict at that moment: on the definition sent, or on the
      current draft for an edit of the visual editor, which sends none. */
  datatype Request =
    | Create(key: string, draft: Definition, metadata: Metadata, valid: bool)
    | Edit(key: string, newDraft: Option<Definition>, newMetadata: Option<MetadataInput>, valid: bool)
    | Guard(id: nat, key: string, action: Action, valid: bool)
    | Commit(id: nat)
    | Rollback(key: string, number: nat)
    | Archive(key: string)
    | Duplicate(key: string, newKey: string)
    | Move(key: string, rest: string)
    | SetWorkflow(on: bool)

  /** A request that has passed its guard, with the draft it read. */
  datatype Ticket = Ticket(key: string, action: Action, draft: Definition)

  /** `approved` records, per rule, the definitions that were its draft, or the draft of the rule it was
      duplicated from, when an approve step was taken. */
  datatype World = World(rules: Rules, workflow: bool, approved: map<string, set<Definition>>, tickets: map<nat, Ticket>)

  /** `requireApprovedDraft` */
  predicate Endorsed(metadata: Metadata, draft: Definition) {
    metadata.approval.Some? && metadata.approval.value.status == "approved" && metadata.approval.value.hash == Of(draft)
  }

  predicate GuardPasses(w: World, key: string, action: Action, valid: bool) {
    && valid && key in w.rules
    && var r := w.rules[key];
       match action
       case Submitting => w.workflow
       case Approving(force) =>
         w.workflow && (force || (r.metadata.approval.Some? && r.metadata.approval.value.status == "submitted"))
       case Publishing => w.workflow ==> Endorsed(r.metadata, r.draft)
  }

  /** The request passes its checks. The store call does not look at the approval again. */
  predicate Accepted(w: World, q: Request) {
    match q
    case Create(key, _, _, valid) => valid && key !in w.rules
    case Edit(key, _, _, valid) => valid && key in w.rules
    case Guard(id, key, action, valid) => id !in w.tickets && GuardPasses(w, key, action, valid)
    case Commit(id) => id in w.tickets && w.tickets[id].key in w.rules && !w.rules[w.tickets[id].key].status.Archived?
    case Rollback(key, number) =>
      key in w.rules && !w.rules[key].status.Archived? && FindVersion(w.rules[key].versions, number).Some?
    case Archive(key) => key in w.rules
    case Duplicate(key, newKey) => key in w.rules && newKey !in w.rules
    case Move(key, _) => key in w.rules
    case SetWorkflow(_) => true
  }

  function ApprovedFor(w: World, key: string): set<Definition> {
    if key in w.approved then w.approved[key] else {}
  }

  /** The store call of a request that passed its guard. */
  function Committed(w: World, t: Ticket): World
    requires t.key in w.rules
  {
    var r := w.rules[t.key];
    match t.action
    case Submitting => w.(rules := w.rules[t.key := Reviewed(r, "submitted", Some(Of(t.draft)))])
    case Approving(_) =>
      w.(rules := w.rules[t.key := Reviewed(r, "approved", Some(Of(t.draft)))],
         approved := w.approved[t.key := ApprovedFor(w, t.key) + {t.draft}])
    case Publishing => w.(rules := w.rules[t.key := Publication(r)])
  }

  /** A rejected request changes nothing; a rejected store call ends its request. */
  function Next(w: World, q: Request): World {
    if !Accepted(w, q) then (if q.Commit? then w.(tickets := w.tickets - {q.id}) else w)
    else match q
      case Create(key, draft, metadata, _) => w.(rules := w.rules[key := RuleSet(Draft, draft, metadata, [])])
      case Edit(key, draft, metadata, _) => w.(rules := w.rules[key := Edited(w.rules[key], draft, metadata)])
      case Guard(id, key, action, _) => w.(tickets := w.tickets[id := Ticket(key, action, w.rules[key].draft)])
      case Commit(id) => Committed(w.(tickets := w.tickets - {id}), w.tickets[id])
      case Rollback(key, number) =>
        w.(rules := w.rules[key := RolledBack(w.rules[key], FindVersion(w.rules[key].versions, number).value)])
      case Archive(key) => w.(rules := w.rules[key := w.rules[key].(status := Archived)])
      case Duplicate(key, newKey) =>
        w.(rules := w.rules[newKey := Copy(w.rules[key])], approved := w.approved[newKey := ApprovedFor(w, key)])
      case Move(key, rest) => w.(rules := w.rules[key := Moved(w.rules[key], rest)])
      case SetWorkflow(on) => w.(workflow := on)
  }

  function Run(w: World, qs: seq<Request>): World
    decreases |qs|
  {
    if qs == [] then w else Run(Next(w, qs[0]), qs[1..])
  }

  function Start(workflow: bool): World {
    World(map[], workflow, map[], map[])
  }

  /** A request whose store call follows its guard at once. */
  function AtOnce(w: World, id: nat, key: string, action: Action): World {
    Next(Next(w, Guard(id, key, action, true)), Commit(id))
  }

  predicate Publishable(w: World, key: string) {
    GuardPasses(w, key, Publishing, true) && !w.rules[key].status.Archived?
  }

  // ----- Versions and statuses ---------------------------------------------

  /** Version numbers are exactly 1 .. n, in order. */
  predicate Numbered(versions: seq<Version>) {
    forall i :: 0 <= i < |versions| ==> versions[i].number == i + 1
  }

  /** A published rule's draft is its latest version. */
  predicate InStep(r: RuleSet) {
    r.status.Published? ==> r.versions != [] && r.versions[|r.versions| - 1].definition == r.draft
  }

  predicate SoundRule(r: RuleSet) {
    Numbered(r.versions) && InStep(r)
  }

  predicate SoundRules(rules: Rules) {
    forall key :: key in rules ==> SoundRule(rules[key])
  }

  lemma {:induction false} MaxOfNumbered(versions: seq<Version>)
    requires Numbered(versions)
    ensures MaxNumber(versions) == |versions|
  {
    if versions != [] { MaxOfNumbered(versions[..|versions| - 1]); }
  }

  lemma {:induction false} FindNumbered(versions: seq<Version>, number: nat, skipped: nat)
    requires forall i :: 0 <= i < |versions| ==> versions[i].number == skipped + i + 1
    ensures FindVersion(versions, number) ==
            if skipped < number <= skipped + |versions| then Some(versions[number - skipped - 1]) else None
  {
    if versions != [] {
      assert forall i :: 0 <= i < |versions[1..]| ==> versions[1..][i] == versions[i + 1];
      FindNumbered(versions[1..], number, skipped + 1);
    }
  }

  lemma PublicationSound(r: RuleSet)
    requires SoundRule(r)
    ensures SoundRule(Publication(r))
  {
    MaxOfNumbered(r.versions);
    hide MaxNumber;
  }

  lemma ChangedRuleSound(w: World, q: Request, key: string)
    requires key in Next(w, q).rules && (key in w.rules ==> SoundRule(w.rules[key]))
    ensures SoundRule(Next(w, q).rules[key])
  {
    if key in w.rules { PublicationSound(w.rules[key]); }
    hide Publication, GuardPasses, Edited;
    if q.Edit? && key in w.rules { EditSound(w.rules[key], q.newDraft, q.newMetadata); }
  }

  lemma EditSound(r: RuleSet, draft: Option<Definition>, metadata: Option<MetadataInput>)
    requires SoundRule(r)
    ensures SoundRule(Edited(r, draft, metadata))
  {
  }

  lemma SoundKept(w: World, q: Request)
    requires SoundRules(w.rules)
    ensures SoundRules(Next(w, q).rules)
  {
    forall key | key in Next(w, q).rules
      ensures SoundRule(Next(w, q).rules[key])
    {
      if key in w.rules { assert SoundRule(w.rules[key]); }
      ChangedRuleSound(w, q, key);
    }
  }

  /** No request removes a rule, touches a version that exists, or revives an archived rule. */
  lemma HistoryKept(w: World, q: Request, key: string)
    requires key in w.rules
    ensures var rules := Next(w, q).rules;
            && key in rules
            && w.rules[key].versions <= rules[key].versions
            && |rules[key].versions| <= |w.rules[key].versions| + 1
            && (w.rules[key].status.Archived? ==> rules[key].status.Archived? && rules[key].versions == w.rules[key].versions)
  {
  }

  /** Over every run: versions are numbered 1 .. n in order and a published rule is in step. */
  lemma {:induction false} SoundThroughout(w: World, qs: seq<Request>)
    requires SoundRules(w.rules)
    ensures SoundRules(Run(w, qs).rules)
    decreases |qs|
  {
    if qs != [] {
      SoundKept(w, qs[0]);
      SoundThroughout(Next(w, qs[0]), qs[1..]);
    }
  }

  /** Over every run: existing versions never change and archived rules stay archived. */
  lemma {:induction false} HistoryThroughout(w: World, qs: seq<Request>, key: string)
    requires key in w.rules
    ensures var rules := Run(w, qs).rules;
            && key in rules
            && w.rules[key].versions <= rules[key].versions
            && (w.rules[key].status.Archived? ==> rules[key].status.Archived? && rules[key].versions == w.rules[key].versions)
    decreases |qs|
  {
    if qs != [] {
      HistoryKept(w, qs[0], key);
      HistoryThroughout(Next(w, qs[0]), qs[1..], key);
    }
  }

  /** Rolling back to version v and publishing creates version n + 1 with the definition of v. With
      the workflow on this needs v to carry its own approval. */
  lemma RollbackThenPublish(w: World, key: string, v: nat, id: nat)
    requires SoundRules(w.rules) && key in w.rules && 1 <= v <= |w.rules[key].versions| && id !in w.tickets
    ensures var before := w.rules[key];
            var u := Next(w, Rollback(key, v));
            var version := before.versions[v - 1];
            && Accepted(w, Rollback(key, v)) == !before.status.Archived?
            && (Publishable(u, key) <==>
                  !before.status.Archived? && (w.workflow ==> Endorsed(version.metadata, version.definition)))
            && (Publishable(u, key) ==>
                  AtOnce(u, id, key, Publishing).rules[key].versions ==
                  before.versions + [Version(|before.versions| + 1, version.definition, version.metadata)])
  {
    FindNumbered(w.rules[key].versions, v, 0);
    MaxOfNumbered(w.rules[key].versions);
  }

  // ----- The approval workflow ---------------------------------------------

  /** An endorsement in force, on a draft or kept with a version, goes back to an approve step. */
  predicate Earned(metadata: Metadata, definition: Definition, approved: set<Definition>) {
    Endorsed(metadata, definition) ==> definition in approved
  }

  predicate EarnedRule(r: RuleSet, approved: set<Definition>) {
    && Earned(r.metadata, r.draft, approved)
    && forall i :: 0 <= i < |r.versions| ==> Earned(r.versions[i].metadata, r.versions[i].definition, approved)
  }

  predicate EarnedRules(w: World) {
    && w.approved.Keys <= w.rules.Keys
    && forall key :: key in w.rules ==> EarnedRule(w.rules[key], ApprovedFor(w, key))
  }

  /** A creation whose metadata already claims the approval of the very draft it creates. */
  predicate Preapproved(q: Request) {
    q.Create? && Endorsed(q.metadata, q.draft)
  }

  predicate NonePreapproved(qs: seq<Request>) {
    forall i :: 0 <= i < |qs| ==> !Preapproved(qs[i])
  }

  /** What an edit leaves is never endorsed. */
  lemma EditUnendorsed(r: RuleSet, draft: Option<Definition>, metadata: Option<MetadataInput>)
    ensures !Endorsed(Edited(r, draft, metadata).metadata, Edited(r, draft, metadata).draft)
  {
  }

  lemma {:induction false} FoundAmong(versions: seq<Version>, number: nat)
    requires FindVersion(versions, number).Some?
    ensures exists i :: 0 <= i < |versions| && versions[i] == FindVersion(versions, number).value
  {
    if versions[0].number != number {
      FoundAmong(versions[1..], number);
      var i :| 0 <= i < |versions[1..]| && versions[1..][i] == FindVersion(versions, number).value;
      assert versions[i + 1] == versions[1..][i];
    }
  }

  /** The rule a request changes, afterwards. */
  lemma ChangedRuleEarned(w: World, q: Request, key: string)
    requires EarnedRules(w) && !Preapproved(q) && Accepted(w, q) && key in Next(w, q).rules
    requires key !in w.rules || Next(w, q).rules[key] != w.rules[key]
    ensures EarnedRule(Next(w, q).rules[key], ApprovedFor(Next(w, q), key))
  {
    if key in w.rules {
      var r, approved := w.rules[key], ApprovedFor(w, key);
      assert EarnedRule(r, approved);
      if q.Commit? {
        hide Next, EarnedRule;
        CommitOne(w, q.id, key);
        CommitEarned(w, q.id);
      } else if q.Edit? {
        EditUnendorsed(r, q.newDraft, q.newMetadata);
      } else if q.Rollback? {
        FoundAmong(r.versions, q.number);
      }
    } else if q.Duplicate? {
      assert EarnedRule(w.rules[q.key], ApprovedFor(w, q.key));
    }
  }

  lemma CommitOne(w: World, id: nat, key: string)
    requires Accepted(w, Commit(id)) && key in w.rules && key in Next(w, Commit(id)).rules
    requires Next(w, Commit(id)).rules[key] != w.rules[key]
    ensures key == w.tickets[id].key
  {
  }

  /** An approval names the draft its guard read, and that one is approved. */
  lemma CommitEarned(w: World, id: nat)
    requires Accepted(w, Commit(id)) && EarnedRule(w.rules[w.tickets[id].key], ApprovedFor(w, w.tickets[id].key))
    ensures var key := w.tickets[id].key;
            EarnedRule(Next(w, Commit(id)).rules[key], ApprovedFor(Next(w, Commit(id)), key))
  {
    hide MaxNumber;
  }

  /** What was approved for a rule stays so. */
  lemma ApprovedKept(w: World, q: Request, key: string)
    requires key in w.rules
    ensures ApprovedFor(w, key) <= ApprovedFor(Next(w, q), key) && key in Next(w, q).rules
  {
  }

  lemma EarnedKept(w: World, q: Request)
    requires EarnedRules(w) && !Preapproved(q)
    ensures EarnedRules(Next(w, q))
  {
    var u := Next(w, q);
    forall key | key in u.rules
      ensures EarnedRule(u.rules[key], ApprovedFor(u, key))
    {
      if Accepted(w, q) && (key !in w.rules || u.rules[key] != w.rules[key]) {
        ChangedRuleEarned(w, q, key);
      } else {
        assert EarnedRule(w.rules[key], ApprovedFor(w, key));
        ApprovedKept(w, q, key);
      }
    }
  }

  lemma {:induction false} EarnedThroughout(w: World, qs: seq<Request>)
    requires EarnedRules(w) && NonePreapproved(qs)
    ensures EarnedRules(Run(w, qs))
    decreases |qs|
  {
    if qs != [] {
      EarnedKept(w, qs[0]);
      assert forall i :: 0 <= i < |qs[1..]| ==> qs[1..][i] == qs[i + 1];
      EarnedThroughout(Next(w, qs[0]), qs[1..]);
    }
  }

  // ----- Between a guard and its store call --------------------------------

  /** Some step of the run changes the draft of the rule. */
  predicate DraftChanges(w: World, qs: seq<Request>, key: string)
    requires key in w.rules
    decreases |qs|
  {
    qs != [] &&
    var u := Next(w, qs[0]);
    key in u.rules && (u.rules[key].draft != w.rules[key].draft || DraftChanges(u, qs[1..], key))
  }

  predicate Uncommitted(qs: seq<Request>, id: nat) {
    forall i :: 0 <= i < |qs| ==> qs[i] != Commit(id)
  }

  lemma {:induction false} Meanwhile(w: World, qs: seq<Request>, key: string, id: nat)
    requires key in w.rules && id in w.tickets && Uncommitted(qs, id)
    ensures var z := Run(w, qs);
            && key in z.rules && id in z.tickets && z.tickets[id] == w.tickets[id]
            && ApprovedFor(w, key) <= ApprovedFor(z, key)
            && (!DraftChanges(w, qs, key) ==> z.rules[key].draft == w.rules[key].draft)
    decreases |qs|
  {
    if qs != [] {
      ApprovedKept(w, qs[0], key);
      assert forall i :: 0 <= i < |qs[1..]| ==> qs[1..][i] == qs[i + 1];
      TicketKept(w, qs[0], id);
      Meanwhile(Next(w, qs[0]), qs[1..], key, id);
    }
  }

  lemma TicketKept(w: World, q: Request, id: nat)
    requires id in w.tickets && q != Commit(id)
    ensures id in Next(w, q).tickets && Next(w, q).tickets[id] == w.tickets[id]
  {
  }

  /** Over every run without preapproved creations, a publish whose guard passes with the workflow on and
      whose store call comes any number of steps later: the version it creates has a definition that was
      the draft at an approve step of that rule, or of the rule it was duplicated from, unless a step in
      between changed the draft. */
  lemma PublishedWasApproved(workflow: bool, before: seq<Request>, key: string, valid: bool, id: nat, between: seq<Request>)
    requires NonePreapproved(before) && Uncommitted(between, id)
    requires var w := Run(Start(workflow), before); w.workflow && Accepted(w, Guard(id, key, Publishing, valid))
    requires var u := Next(Run(Start(workflow), before), Guard(id, key, Publishing, valid));
             Accepted(Run(u, between), Commit(id))
    ensures var u := Next(Run(Start(workflow), before), Guard(id, key, Publishing, valid));
            var z := Run(u, between);
            && key in u.rules && key in z.rules
            && var versions := Next(z, Commit(id)).rules[key].versions;
               && versions == z.rules[key].versions + [NextVersion(z.rules[key])]
               && (z.rules[key].draft == u.rules[key].draft ==> versions[|versions| - 1].definition in ApprovedFor(z, key))
               && (versions[|versions| - 1].definition !in ApprovedFor(z, key) ==> DraftChanges(u, between, key))
  {
    hide Run, DraftChanges, EarnedRules;
    RunBegins(workflow);
    EarnedThroughout(Start(workflow), before);
    var w := Run(Start(workflow), before);
    EndorsedApproved(w, key);
    var u := Next(w, Guard(id, key, Publishing, valid));
    Meanwhile(u, between, key, id);
  }

  lemma RunBegins(workflow: bool)
    ensures EarnedRules(Start(workflow))
  {
  }

  lemma EndorsedApproved(w: World, key: string)
    requires EarnedRules(w) && key in w.rules && Endorsed(w.rules[key].metadata, w.rules[key].draft)
    ensures w.rules[key].draft in ApprovedFor(w, key)
  {
    assert EarnedRule(w.rules[key], ApprovedFor(w, key));
  }

  /** And every such step goes through: whatever definition an edit puts between guard and store call is
      published, so unapproved exactly if it was never approved. */
  lemma LateEditPublished(w: World, id: nat, key: string, draft: Definition, metadata: Option<MetadataInput>)
    requires id in w.tickets && w.tickets[id].key == key && w.tickets[id].action.Publishing?
    requires key in w.rules && !w.rules[key].status.Archived?
    ensures var u := Next(w, Edit(key, Some(draft), metadata, true));
            var versions := Next(u, Commit(id)).rules[key].versions;
            && Accepted(u, Commit(id)) && versions != []
            && versions[|versions| - 1].definition == draft
            && ApprovedFor(Next(u, Commit(id)), key) == ApprovedFor(w, key)
  {
  }

  /** The condition on creations is exact: a creation is preapproved if and only if the new draft can be
      published at once, with the workflow on, although nothing of that rule was ever approved. */
  lemma PreapprovedIff(w: World, q: Request)
    requires EarnedRules(w) && w.workflow && q.Create? && Accepted(w, q)
    ensures var u := Next(w, q);
            && ApprovedFor(u, q.key) == {}
            && (Preapproved(q) <==> Publishable(u, q.key))
  {
  }

  /** An accepted approval lets the current draft be published; any edit in between revokes that,
      whatever metadata it sends, as long as the workflow is on. */
  lemma ApproveThenPublish(w: World, key: string, force: bool, edit: Request, id: nat)
    requires w.workflow && key in w.rules && !w.rules[key].status.Archived? && id !in w.tickets
    requires force || Submitted(w.rules[key])
    requires edit.Edit? && edit.key == key
    ensures var approved := AtOnce(w, id, key, Approving(force));
            && Publishable(approved, key)
            && (Accepted(approved, edit) ==> !Publishable(Next(approved, edit), key))
  {
    EditUnendorsed(AtOnce(w, id, key, Approving(force)).rules[key], edit.newDraft, edit.newMetadata);
  }

  // ----- Approval needs a submission ---------------------------------------

  predicate Submitted(r: RuleSet) {
    r.metadata.approval.Some? && r.metadata.approval.value.status == "submitted"
  }

  /** Some step of the run submits the rule, or rolls it back to a version that may have been submitted. */
  predicate Resubmitted(w: World, qs: seq<Request>, key: string)
    decreases |qs|
  {
    qs != [] &&
    (|| (qs[0].Rollback? && qs[0].key == key)
     || (qs[0].Commit? && qs[0].id in w.tickets && w.tickets[qs[0].id] == Ticket(key, Submitting, w.tickets[qs[0].id].draft))
     || Resubmitted(Next(w, qs[0]), qs[1..], key))
  }

  /** Over every run: without force a rule cannot be approved that was not submitted, nor one that was
      edited since; and with the workflow off nothing is submitted or approved at all. */
  lemma {:induction false} ApprovalNeedsSubmission(w: World, qs: seq<Request>, key: string, valid: bool)
    requires key in w.rules && !Resubmitted(w, qs, key)
    requires !Submitted(w.rules[key]) || (qs != [] && qs[0].Edit? && qs[0].key == key && Accepted(w, qs[0]))
    ensures var z := Run(w, qs);
            && key in z.rules && !Submitted(z.rules[key]) && !GuardPasses(z, key, Approving(false), valid)
            && (!z.workflow ==> !GuardPasses(z, key, Submitting, valid) && !GuardPasses(z, key, Approving(true), valid))
    decreases |qs|
  {
    if qs != [] {
      SubmissionGone(w, qs[0], key);
      hide Next;
      ApprovalNeedsSubmission(Next(w, qs[0]), qs[1..], key, valid);
    }
  }

  lemma SubmissionGone(w: World, q: Request, key: string)
    requires key in w.rules && !(q.Rollback? && q.key == key)
    requires q.Commit? && q.id in w.tickets ==> w.tickets[q.id].key != key || !w.tickets[q.id].action.Submitting?
    requires !Submitted(w.rules[key]) || (q.Edit? && q.key == key && Accepted(w, q))
    ensures key in Next(w, q).rules && !Submitted(Next(w, q).rules[key])
  {
    hide NextVersion;
  }

  // ----- What requests do and leave alone ----------------------------------

  /** The rules a request may change. */
  function Concerned(w: World, q: Request): set<string> {
    match q
    case Create(key, _, _, _) => {key}
    case Edit(key, _, _, _) => {key}
    case Commit(id) => if id in w.tickets then {w.tickets[id].key} else {}
    case Rollback(key, _) => {key}
    case Archive(key) => {key}
    case Duplicate(_, newKey) => {newKey}
    case Move(key, _) => {key}
    case _ => {}
  }

  /** Every other rule stays as it is, and so does its standing with the approval workflow. */
  lemma OthersUntouched(w: World, q: Request, key: string)
    requires key !in Concerned(w, q)
    ensures var u := Next(w, q);
            && (key in u.rules <==> key in w.rules)
            && (key in w.rules ==> u.rules[key] == w.rules[key])
            && (key in w.rules && u.workflow == w.workflow ==> (Publishable(u, key) <==> Publishable(w, key)))
  {
    hide Publication, Edited, Reviewed, Copy, Moved, RolledBack, Endorsed;
  }

  /** A submitted draft can be approved without force, and then published, as long as nothing happens in
      between. */
  lemma SubmitApprovePublish(w: World, key: string, id: nat)
    requires w.workflow && key in w.rules && !w.rules[key].status.Archived? && id !in w.tickets
    ensures var submitted := AtOnce(w, id, key, Submitting);
            var approved := AtOnce(submitted, id, key, Approving(false));
            var published := AtOnce(approved, id, key, Publishing);
            && GuardPasses(submitted, key, Approving(false), true)
            && Publishable(approved, key)
            && key in published.rules
            && var r := published.rules[key];
               && r.status.Published? && r.draft == w.rules[key].draft
               && |r.versions| == |w.rules[key].versions| + 1 && r.versions[|r.versions| - 1].definition == w.rules[key].draft
  {
    hide MaxNumber;
  }

  /** An archived rule is archived for good: no version is added and it is never publishable again. */
  lemma ArchivedForGood(w: World, key: string, qs: seq<Request>)
    requires key in w.rules
    ensures var u := Next(w, Archive(key));
            && key in u.rules && u.rules[key].draft == w.rules[key].draft && u.rules[key].metadata == w.rules[key].metadata
            && var z := Run(u, qs);
               key in z.rules && z.rules[key].status.Archived? && z.rules[key].versions == w.rules[key].versions
               && !Publishable(z, key)
  {
    HistoryThroughout(Next(w, Archive(key)), qs, key);
  }

  /** A duplicate has the draft and metadata of its original and no versions; it can be published exactly
      when the original, were it not archived, could be. */
  lemma DuplicateKeeps(w: World, key: string, newKey: string)
    requires Accepted(w, Duplicate(key, newKey))
    ensures var u := Next(w, Duplicate(key, newKey));
            && newKey in u.rules && u.rules[newKey].draft == w.rules[key].draft
            && u.rules[newKey].metadata == w.rules[key].metadata && u.rules[newKey].versions == []
            && u.rules[newKey].status.Draft?
            && (Publishable(u, newKey) <==> GuardPasses(w, key, Publishing, true))
            && (key in u.rules && u.rules[key] == w.rules[key])
  {
  }

  /** Moving a rule to another campaign changes nothing that publishing looks at. */
  lemma MoveKeeps(w: World, key: string, rest: string, q: Request)
    requires key in w.rules
    ensures var u := Next(w, Move(key, rest));
            && key in u.rules && u.rules[key].metadata.rest == rest
            && u.rules[key].metadata.approval == w.rules[key].metadata.approval
            && u.rules[key].draft == w.rules[key].draft && u.rules[key].versions == w.rules[key].versions
            && u.rules[key].status == w.rules[key].status
            && (Publishable(u, key) <==> Publishable(w, key))
  {
  }

  /** What an edit sends replaces what was there, and what it does not send stays; published and draft
      rules become drafts. */
  lemma EditKeeps(w: World, key: string, draft: Option<Definition>, metadata: Option<MetadataInput>)
    requires key in w.rules
    ensures var r, e := w.rules[key], Next(w, Edit(key, draft, metadata, true)).rules[key];
            && e.draft == (if draft.Some? then draft.value else r.draft) && e.versions == r.versions
            && e.metadata.rest == (if metadata.Some? then metadata.value.rest else r.metadata.rest)
            && (e.status.Archived? <==> r.status.Archived?) && !e.status.Published?
            && var sent := if metadata.Some? && metadata.value.ownsApproval then metadata.value.approval else r.metadata.approval;
               && (e.metadata.approval.Some? <==> sent.Some?)
               && (sent.Some? ==> e.metadata.approval.value == Approval("draft", sent.value.hash))
  {
  }
}
