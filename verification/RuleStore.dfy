/** The rule store: what each operation makes of a rule set, and the object whose methods do it. */
module RuleStore {
  import opened Common

  /** A rule definition, as its JSON text. */
  type Definition = string

  /** The digest recorded with an approval: that of some definition (digests do not collide), or
      any text that came with user supplied metadata. */
  datatype Digest = Of(definition: Definition) | Foreign(text: string)

  datatype Approval = Approval(status: string, hash: Digest)

  /** The approval entry, and the rest of the metadata as text. */
  datatype Metadata = Metadata(approval: Option<Approval>, rest: string)

  /** Metadata sent with an edit: it may or may not carry an `approval` key of its own. */
  datatype MetadataInput = MetadataInput(ownsApproval: bool, approval: Option<Approval>, rest: string)

  datatype Status = Draft | Published | Archived

  datatype Version = Version(number: nat, definition: Definition, metadata: Metadata)

  datatype RuleSet = RuleSet(status: Status, draft: Definition, metadata: Metadata, versions: seq<Version>)

  datatype Error = NotFound | Conflict | BadRequest(message: string)

  datatype Result<+T> = Ok(value: T) | Err(error: Error)

  // ----- Metadata ----------------------------------------------------------

  function MergeApproval(existing: Metadata, next: Option<MetadataInput>): Metadata {
    match next
    case None => existing
    case Some(m) => if m.ownsApproval then Metadata(m.approval, m.rest) else Metadata(existing.approval, m.rest)
  }

  function ResetApproval(m: Metadata): Metadata {
    if m.approval.None? || m.approval.value.status == "draft" then m
    else m.(approval := Some(m.approval.value.(status := "draft")))
  }

  // ----- One rule set ------------------------------------------------------

  function Edited(r: RuleSet, draft: Option<Definition>, metadata: Option<MetadataInput>): RuleSet {
    r.(draft := if draft.Some? then draft.value else r.draft,
       metadata := ResetApproval(MergeApproval(r.metadata, metadata)),
       status := if r.status.Archived? then Archived else Draft)
  }

  /** `setRuleApproval` with the digest its caller passes, if any. */
  function Reviewed(r: RuleSet, status: string, hash: Option<Digest>): RuleSet {
    r.(metadata := r.metadata.(approval := Some(Approval(status,
      if hash.Some? then hash.value else if r.metadata.approval.Some? then r.metadata.approval.value.hash else Foreign("")))))
  }

  /** `Math.max(0, ...numbers)` */
  function MaxNumber(versions: seq<Version>): nat {
    if versions == [] then 0
    else
      var m := MaxNumber(versions[..|versions| - 1]);
      if m < versions[|versions| - 1].number then versions[|versions| - 1].number else m
  }

  function NextVersion(r: RuleSet): Version {
    Version(MaxNumber(r.versions) + 1, r.draft, r.metadata)
  }

  function Publication(r: RuleSet): RuleSet {
    r.(status := Published, versions := r.versions + [NextVersion(r)])
  }

  function RolledBack(r: RuleSet, v: Version): RuleSet {
    r.(draft := v.definition, metadata := v.metadata, status := Draft)
  }

  function Copy(r: RuleSet): RuleSet {
    r.(status := Draft, versions := [])
  }

  function Moved(r: RuleSet, rest: string): RuleSet {
    r.(metadata := r.metadata.(rest := rest))
  }

  /** The version with a number: the first such, numbers being unique in the table. */
  function FindVersion(versions: seq<Version>, number: nat): Option<Version> {
    if versions == [] then None
    else if versions[0].number == number then Some(versions[0])
    else FindVersion(versions[1..], number)
  }

  // ----- The store ---------------------------------------------------------

  type Rules = map<string, RuleSet>

  class Store {
    var rules: Rules

    constructor ()
      ensures rules == map[]
    {
      rules := map[];
    }

    method CreateRuleSet(key: string, draft: Definition, metadata: Metadata) returns (r: Result<RuleSet>)
      modifies this
      ensures key in old(rules) ==> r == Err(Conflict) && rules == old(rules)
      ensures key !in old(rules) ==>
        r == Ok(RuleSet(Draft, draft, metadata, [])) && rules == old(rules)[key := RuleSet(Draft, draft, metadata, [])]
    {
      if key in rules { return Err(Conflict); }
      var rule := RuleSet(Draft, draft, metadata, []);
      rules := rules[key := rule];
      r := Ok(rule);
    }

    method UpdateDraft(key: string, draft: Option<Definition>, metadata: Option<MetadataInput>) returns (r: Result<RuleSet>)
      modifies this
      ensures key !in old(rules) ==> r == Err(NotFound) && rules == old(rules)
      ensures key in old(rules) ==>
        r == Ok(Edited(old(rules)[key], draft, metadata)) && rules == old(rules)[key := Edited(old(rules)[key], draft, metadata)]
    {
      if key !in rules { return Err(NotFound); }
      var updated := rules[key];
      if draft.Some? { updated := updated.(draft := draft.value); }
      updated := updated.(metadata := MergeApproval(updated.metadata, metadata));
      if !updated.status.Archived? { updated := updated.(status := Draft); }
      updated := updated.(metadata := ResetApproval(updated.metadata));
      rules := rules[key := updated];
      r := Ok(updated);
    }

    method SetRuleApproval(key: string, status: string, hash: Option<Digest>) returns (r: Result<RuleSet>)
      modifies this
      ensures r.Err? ==> rules == old(rules)
      ensures r.Ok? <==> key in old(rules) && !old(rules)[key].status.Archived? && status in {"submitted", "approved"}
      ensures r.Ok? ==> r.value == Reviewed(old(rules)[key], status, hash) && rules == old(rules)[key := r.value]
    {
      if key !in rules { return Err(NotFound); }
      if rules[key].status.Archived? { return Err(BadRequest("archived")); }
      if status != "submitted" && status != "approved" { return Err(BadRequest("status")); }
      var existing := rules[key].metadata.approval;
      var recorded := if hash.Some? then hash.value else if existing.Some? then existing.value.hash else Foreign("");
      var updated := rules[key].(metadata := rules[key].metadata.(approval := Some(Approval(status, recorded))));
      rules := rules[key := updated];
      r := Ok(updated);
    }

    method Publish(key: string) returns (r: Result<Version>)
      modifies this
      ensures r.Err? ==> rules == old(rules)
      ensures r.Ok? <==> key in old(rules) && !old(rules)[key].status.Archived?
      ensures r.Ok? ==> r.value == NextVersion(old(rules)[key]) && rules == old(rules)[key := Publication(old(rules)[key])]
    {
      if key !in rules { return Err(NotFound); }
      var rule := rules[key];
      if rule.status.Archived? { return Err(BadRequest("archived")); }
      var version := Version(MaxNumber(rule.versions) + 1, rule.draft, rule.metadata);
      rules := rules[key := rule.(versions := rule.versions + [version])];
      rules := rules[key := rules[key].(status := Published)];
      assert rules == old(rules)[key := Publication(rule)];
      r := Ok(version);
    }

    method RollbackDraftToVersion(key: string, number: nat) returns (r: Result<RuleSet>)
      modifies this
      ensures r.Err? ==> rules == old(rules)
      ensures r.Ok? <==> && key in old(rules) && !old(rules)[key].status.Archived?
                         && FindVersion(old(rules)[key].versions, number).Some?
      ensures r.Ok? ==> r.value == RolledBack(old(rules)[key], FindVersion(old(rules)[key].versions, number).value)
                        && rules == old(rules)[key := r.value]
    {
      if key !in rules { return Err(NotFound); }
      if rules[key].status.Archived? { return Err(BadRequest("archived")); }
      var version := FindVersion(rules[key].versions, number);
      if version.None? { return Err(NotFound); }
      var updated := RolledBack(rules[key], version.value);
      rules := rules[key := updated];
      r := Ok(updated);
    }

    method ArchiveRuleSet(key: string) returns (r: Result<RuleSet>)
      modifies this
      ensures key !in old(rules) ==> r == Err(NotFound) && rules == old(rules)
      ensures key in old(rules) ==>
        r == Ok(old(rules)[key].(status := Archived)) && rules == old(rules)[key := old(rules)[key].(status := Archived)]
    {
      if key !in rules { return Err(NotFound); }
      var updated := rules[key].(status := Archived);
      rules := rules[key := updated];
      r := Ok(updated);
    }

    method SetRuleCampaign(key: string, rest: string) returns (r: Result<RuleSet>)
      modifies this
      ensures key !in old(rules) ==> r == Err(NotFound) && rules == old(rules)
      ensures key in old(rules) ==>
        r == Ok(Moved(old(rules)[key], rest)) && rules == old(rules)[key := Moved(old(rules)[key], rest)]
    {
      if key !in rules { return Err(NotFound); }
      var updated := rules[key].(metadata := rules[key].metadata.(rest := rest));
      rules := rules[key := updated];
      r := Ok(updated);
    }

    method DuplicateRuleSet(key: string, newKey: string) returns (r: Result<RuleSet>)
      modifies this
      ensures r.Err? ==> rules == old(rules)
      ensures r.Ok? <==> key in old(rules) && newKey !in old(rules)
      ensures r.Ok? ==> r.value == Copy(old(rules)[key]) && rules == old(rules)[newKey := r.value]
    {
      if key !in rules { return Err(NotFound); }
      if newKey in rules { return Err(Conflict); }
      var duplicate := rules[key].(status := Draft, versions := []);
      rules := rules[newKey := duplicate];
      r := Ok(duplicate);
    }
  }
}
