/** The immutable event ledger of intake cases, and the import of their older audit history into it. */
module EventLedger {
  import opened Base

  type Id = string

  // ---- Appending ----

  /** A stage as text: one of the catalog's nine, or anything else. */
  datatype Stage =
    | Draft | Submitted | WaitingOnApplicant | PreOfferingOpen | PostIpoStructuring
    | ApprovedForFinalOffering | Rejected | Withdrawn | Expired | NoStage(text: string)

  datatype Workflow =
    | DraftSubmission | OperationsReview | ApplicantInformation | Ipo | PostIpo | FinalOffering | Terminal

  datatype Case = Case(stage: Stage, counter: nat)

  datatype Input = Input(
    caseId: Id, key: string, eventType: string, actorType: string, actor: Option<Id>,
    from: Option<Stage>, to: Option<Stage>, relatedType: Option<string>, relatedId: Option<Id>,
    occurredAt: int, legacy: bool, version: Option<nat>)

  datatype Event = Event(input: Input, sequence: nat, workflow: Workflow, version: nat)

  datatype Db = Db(cases: map<Id, Case>, offerings: map<Id, Id>, events: seq<Event>)

  datatype Appended = Ok(event: Event) | Aborted

  /** The workflow of a stage; a text that is no stage has none. */
  function WorkflowOf(stage: Stage): Option<Workflow> {
    match stage
    case Draft => Some(DraftSubmission)
    case Submitted => Some(OperationsReview)
    case WaitingOnApplicant => Some(ApplicantInformation)
    case PreOfferingOpen => Some(Ipo)
    case PostIpoStructuring => Some(PostIpo)
    case ApprovedForFinalOffering => Some(FinalOffering)
    case Rejected => Some(Terminal)
    case Withdrawn => Some(Terminal)
    case Expired => Some(Terminal)
    case NoStage(_) => None
  }

  function VersionOf(input: Input): nat {
    if input.version.Some? then input.version.value else if input.legacy then 0 else 1
  }

  function FindEvent(events: seq<Event>, key: string): (found: Option<Event>)
    ensures found.Some? ==> found.value in events && found.value.input.key == key
    ensures found.None? ==> forall e :: e in events ==> e.input.key != key
  {
    if events == [] then None
    else if events[|events| - 1].input.key == key then Some(events[|events| - 1])
    else FindEvent(events[..|events| - 1], key)
  }

  /** The stage that names the workflow: where the case goes, where it comes from, or where it is. */
  function StageFor(db: Db, input: Input): Option<Stage> {
    if input.to.Some? then input.to
    else if input.from.Some? then input.from
    else if input.caseId in db.cases then Some(db.cases[input.caseId].stage)
    else None
  }

  function Append(db: Db, input: Input): (Db, Appended) {
    var existing := FindEvent(db.events, input.key);
    if existing.Some? then (db, Ok(existing.value))
    else
      var stage := StageFor(db, input);
      if stage.None? || WorkflowOf(stage.value).None? || input.caseId !in db.cases then (db, Aborted)
      else
        var c := db.cases[input.caseId];
        var e := Event(input, c.counter + 1, WorkflowOf(stage.value).value, VersionOf(input));
        (db.(cases := db.cases[input.caseId := c.(counter := c.counter + 1)], events := db.events + [e]), Ok(e))
  }

  // ---- The import ----

  datatype AuditRow = AuditRow(id: Id, actor: Option<Id>, action: string, resourceId: Id, createdAt: int)

  datatype Mapping = Mapping(eventType: string, from: Option<Stage>, to: Option<Stage>, actorType: string)

  function CaseMapping(action: string): (m: Option<Mapping>)
    ensures m.Some? && m.value.to.Some? ==> WorkflowOf(m.value.to.value).Some?
    ensures m.Some? && m.value.from.Some? ==> m.value.to.Some?
  {
    if action == "intake.case_draft_created" then Some(Mapping("case_created", None, None, "applicant"))
    else if action == "intake.case_created_by_staff" then Some(Mapping("case_created", None, None, "staff"))
    else if action == "intake.case_submitted" then
      Some(Mapping("case_submitted", Some(Draft), Some(Submitted), "applicant"))
    else if action == "intake.case_resubmitted" then
      Some(Mapping("case_resubmitted", Some(WaitingOnApplicant), Some(Submitted), "applicant"))
    else if action == "intake.information_request_published" then
      Some(Mapping("case_information_requested", Some(Submitted), Some(WaitingOnApplicant), "staff"))
    else if action == "intake.information_request_withdrawn" then
      Some(Mapping("case_information_request_withdrawn", Some(WaitingOnApplicant), Some(Submitted), "staff"))
    else if action == "intake.information_request_expired" then
      Some(Mapping("case_expired", Some(WaitingOnApplicant), Some(Expired), "system"))
    else if action == "intake.evidence_reviewed" then Some(Mapping("case_evidence_reviewed", None, None, "staff"))
    else if action == "intake.case_approved" then
      Some(Mapping("founder_decision_recorded", Some(Submitted), Some(PreOfferingOpen), "staff"))
    else if action == "intake.case_rejected" then
      Some(Mapping("founder_decision_recorded", Some(Submitted), Some(Rejected), "staff"))
    else if action == "intake.case_withdrawn" then Some(Mapping("case_withdrawn", None, None, "staff"))
    else if action == "intake.case_post_ipo_structuring_started" then
      Some(Mapping("case_post_ipo_structuring_started", Some(PreOfferingOpen), Some(PostIpoStructuring), "system"))
    else if action == "intake.case_approved_for_final_offering" then
      Some(Mapping("case_approved_for_final_offering", Some(PostIpoStructuring), Some(ApprovedForFinalOffering),
                   "system"))
    else if action == "intake.case_partner_organization_assigned" then
      Some(Mapping("partner_assignment_changed", None, None, "staff"))
    else if action == "intake.case_legal_structuring_recorded" then
      Some(Mapping("legal_structuring_updated", None, None, "partner"))
    else if action == "intake.case_appraisal_recorded" then Some(Mapping("appraisal_updated", None, None, "partner"))
    else None
  }

  function OfferingEventType(action: string): Option<string> {
    if action == "offering.opened_for_approved_case" then Some("offering_created")
    else if action == "offering.disclosure_pack_published" then Some("offering_disclosure_pack_published")
    else if action == "offering.final_terms_published" then Some("offering_final_terms_published")
    else if action == "offering.finalized" then Some("offering_finalized")
    else None
  }

  function MappingOf(row: AuditRow): (m: Option<Mapping>)
    ensures m.Some? && m.value.to.Some? ==> WorkflowOf(m.value.to.value).Some?
    ensures m.Some? && m.value.from.Some? ==> m.value.to.Some?
  {
    hide CaseMapping, OfferingEventType;
    if CaseMapping(row.action).Some? then CaseMapping(row.action)
    else if OfferingEventType(row.action).None? then None
    else Some(Mapping(OfferingEventType(row.action).value, None, None, if row.actor.None? then "system" else "staff"))
  }

  /** The case a row is about: named by the row itself, or by its offering. */
  function CaseOf(db: Db, row: AuditRow): Option<Id> {
    if "case_" <= row.resourceId then Some(row.resourceId)
    else if row.resourceId in db.offerings then Some(db.offerings[row.resourceId])
    else None
  }

  function LegacyKey(row: AuditRow): string { "legacy:audit:" + row.id }

  function LegacyInput(row: AuditRow, m: Mapping, caseId: Id): Input {
    Input(caseId, LegacyKey(row), m.eventType, m.actorType, if m.actorType == "system" then None else row.actor,
          m.from, m.to, Some(if "offering." <= row.action then "offering" else "intake_case"), Some(row.resourceId),
          row.createdAt, true, Some(0))
  }

  /** One row's transaction; false when it aborts. */
  function ImportRow(db: Db, row: AuditRow): (Db, bool) {
    var m, c := MappingOf(row), CaseOf(db, row);
    if m.None? || c.None? || c.value !in db.cases then (db, true)
    else
      var (next, r) := Append(db, LegacyInput(row, m.value, c.value));
      (next, r.Ok?)
  }

  /** The import of a list of rows, as far as it gets. */
  function Import(db: Db, rows: seq<AuditRow>): Db
    decreases |rows|
  {
    if rows == [] then db else ImportRow(Import(db, rows[..|rows| - 1]), rows[|rows| - 1]).0
  }

  class Ledger {
    var cases: map<Id, Case>
    var offerings: map<Id, Id>
    var events: seq<Event>

    function View(): Db
      reads this
    {
      Db(cases, offerings, events)
    }

    constructor (db: Db)
      ensures View() == db
    {
      cases, offerings, events := db.cases, db.offerings, db.events;
    }

    method AppendIntakeCaseEvent(input: Input) returns (r: Appended)
      modifies this
      ensures (View(), r) == Append(old(View()), input)
    {
      var existing := FindEvent(events, input.key);
      if existing.Some? { return Ok(existing.value); }
      var target := if input.to.Some? then input.to else input.from;
      if target.None? {
        if input.caseId !in cases { return Aborted; }
        target := Some(cases[input.caseId].stage);
      }
      var workflow := WorkflowOf(target.value);
      if workflow.None? { return Aborted; }
      if input.caseId !in cases { return Aborted; }
      var c := cases[input.caseId];
      cases := cases[input.caseId := c.(counter := c.counter + 1)];
      var e := Event(input, c.counter + 1, workflow.value, VersionOf(input));
      events := events + [e];
      r := Ok(e);
    }

    /**
     * The import loop; every row is its own transaction, and one that aborts ends the run. Whatever
     * happens, the rows counted are the rows imported, and a ledger in good order is imported in full.
     */
    method Backfill(rows: seq<AuditRow>) returns (imported: nat, skipped: nat, completed: bool)
      modifies this
      ensures imported + skipped <= |rows| && View() == Import(old(View()), rows[..imported + skipped])
      ensures completed <==> imported + skipped == |rows|
      ensures skipped == |Unmapped(rows[..imported + skipped])|
      ensures Inv(old(View())) ==> completed
    {
      hide WorkflowOf, MappingOf, SequencesOf, Append, CaseOf, Inv;
      imported, skipped, completed := 0, 0, true;
      for i := 0 to |rows|
        invariant completed && View() == Import(old(View()), rows[..i]) && imported + skipped == i
        invariant skipped == |Unmapped(rows[..i])| && (Inv(old(View())) ==> Inv(View()))
      {
        var row := rows[i];
        assert rows[..i + 1][..i] == rows[..i];
        if Inv(View()) { ImportKeeps(View(), row); }
        ghost var before := View();
        var mapping := MappingOf(row);
        if mapping.None? {
          skipped := skipped + 1;
          continue;
        }
        var caseId := CaseOf(View(), row);
        if caseId.Some? && caseId.value in cases {
          var r := AppendIntakeCaseEvent(LegacyInput(row, mapping.value, caseId.value));
          if r.Aborted? {
            AbortChangesNothing(before, LegacyInput(row, mapping.value, caseId.value));
            completed := false;
            return;
          }
        }
        imported := imported + 1;
      }
    }
  }

  lemma AbortChangesNothing(db: Db, input: Input)
    requires Append(db, input).1.Aborted?
    ensures Append(db, input).0 == db
  {
  }

  function Unmapped(rows: seq<AuditRow>): seq<AuditRow> {
    if rows == [] then []
    else Unmapped(rows[..|rows| - 1]) + if MappingOf(rows[|rows| - 1]).None? then [rows[|rows| - 1]] else []
  }

  // ---- What every run keeps ----

  /** The sequence numbers of a case's events, in the order they were appended. */
  function SequencesOf(events: seq<Event>, caseId: Id): seq<nat> {
    if events == [] then []
    else
      var e := events[|events| - 1];
      SequencesOf(events[..|events| - 1], caseId) + if e.input.caseId == caseId then [e.sequence] else []
  }

  function UpTo(n: nat): seq<nat> { seq(n, i => i + 1) }

  ghost predicate KeysAreUnique(events: seq<Event>) {
    forall i, j :: 0 <= i < j < |events| ==> events[i].input.key != events[j].input.key
  }

  /** Each case's events are numbered 1 to its counter without a gap, and no key appears twice. */
  ghost predicate Inv(db: Db) {
    && (forall c :: c in db.cases ==>
          SequencesOf(db.events, c) == UpTo(db.cases[c].counter) && WorkflowOf(db.cases[c].stage).Some?)
    && (forall e :: e in db.events ==> e.input.caseId in db.cases)
    && KeysAreUnique(db.events)
  }

  datatype Step =
    | AppendStep(input: Input)
    | ImportStep(row: AuditRow)
    | CreateCase(id: Id, stage: Stage)
    | MoveCase(id: Id, stage: Stage)
    | OpenOffering(id: Id, caseId: Id)

  function Do(db: Db, s: Step): Db {
    match s
    case AppendStep(input) => Append(db, input).0
    case ImportStep(row) => ImportRow(db, row).0
    case CreateCase(id, stage) =>
      if id in db.cases || WorkflowOf(stage).None? then db else db.(cases := db.cases[id := Case(stage, 0)])
    case MoveCase(id, stage) =>
      if id !in db.cases || WorkflowOf(stage).None? then db
          else db.(cases := db.cases[id := db.cases[id].(stage := stage)])
    case OpenOffering(id, caseId) =>
      if id in db.offerings then db else db.(offerings := db.offerings[id := caseId])
  }

  function After(db: Db, steps: seq<Step>): Db
    decreases |steps|
  {
    if steps == [] then db else Do(After(db, steps[..|steps| - 1]), steps[|steps| - 1])
  }

  lemma {:induction false} NoSequences(events: seq<Event>, caseId: Id)
    requires forall e :: e in events ==> e.input.caseId != caseId
    ensures SequencesOf(events, caseId) == []
  {
    if events != [] { NoSequences(events[..|events| - 1], caseId); }
  }

  // One appended event continues the numbering of its case and leaves every other case's alone.
  lemma AppendKeeps(db: Db, input: Input)
    requires Inv(db)
    ensures Inv(Append(db, input).0)
  {
    hide WorkflowOf, VersionOf, StageFor, FindEvent;
    var (next, r) := Append(db, input);
    if next.events != db.events {
      var e := next.events[|db.events|];
      assert next.events[..|next.events| - 1] == db.events;
      forall c | c in next.cases ensures SequencesOf(next.events, c) == UpTo(next.cases[c].counter) {
        assert UpTo(db.cases[c].counter) + [db.cases[c].counter + 1] == UpTo(db.cases[c].counter + 1);
      }
      forall i, j | 0 <= i < j < |next.events| ensures next.events[i].input.key != next.events[j].input.key {
        if j == |db.events| { assert db.events[i] in db.events; }
      }
    }
  }

  // With every case in a known stage, an import never aborts.
  lemma ImportKeeps(db: Db, row: AuditRow)
    requires Inv(db)
    ensures Inv(ImportRow(db, row).0) && ImportRow(db, row).1
  {
    hide WorkflowOf, MappingOf, SequencesOf;
    var m, c := MappingOf(row), CaseOf(db, row);
    if m.Some? && c.Some? && c.value in db.cases {
      AppendKeeps(db, LegacyInput(row, m.value, c.value));
    }
  }

  lemma StepKeeps(db: Db, s: Step)
    requires Inv(db)
    ensures Inv(Do(db, s))
  {
    hide WorkflowOf, SequencesOf, Append, ImportRow;
    match s
    case AppendStep(input) => AppendKeeps(db, input);
    case ImportStep(row) => ImportKeeps(db, row);
    case CreateCase(id, stage) =>
      if id !in db.cases { NoSequences(db.events, id); }
    case _ =>
  }

  /** Over every run of live appends, replays, imports and case changes the ledger stays gapless and its keys unique. */
  lemma {:induction false} EveryRunKeepsInv(db: Db, steps: seq<Step>)
    requires Inv(db)
    ensures Inv(After(db, steps))
    decreases |steps|
  {
    hide Inv, Do;
    if steps != [] {
      EveryRunKeepsInv(db, steps[..|steps| - 1]);
      StepKeeps(After(db, steps[..|steps| - 1]), steps[|steps| - 1]);
    }
  }

  // ---- The ledger only grows ----

  lemma StepGrows(db: Db, s: Step)
    ensures db.events <= Do(db, s).events && db.cases.Keys <= Do(db, s).cases.Keys
  {
    hide WorkflowOf, MappingOf, FindEvent, StageFor;
  }

  lemma {:induction false} RunGrows(db: Db, steps: seq<Step>, n: nat)
    requires n <= |steps|
    ensures After(db, steps[..n]).events <= After(db, steps).events
    decreases |steps|
  {
    hide Do;
    if n < |steps| {
      var m := |steps| - 1;
      RunGrows(db, steps[..m], n);
      assert steps[..m][..n] == steps[..n];
      StepGrows(After(db, steps[..m]), steps[m]);
    } else {
      assert steps[..n] == steps;
    }
  }

  /**
   * However imports, live appends and case changes interleave, a mapped row that was imported when its
   * case was there has exactly one event at the end: under the row's key, in that case, of the mapped type.
   */
  lemma ImportedExactlyOnce(db: Db, steps: seq<Step>, k: nat, row: AuditRow)
    requires Inv(db) && k < |steps| && steps[k] == ImportStep(row)
    requires FindEvent(After(db, steps[..k]).events, LegacyKey(row)).None? && MappingOf(row).Some?
    requires var c := CaseOf(After(db, steps[..k]), row); c.Some? && c.value in After(db, steps[..k]).cases
    ensures var now, c := After(db, steps).events, CaseOf(After(db, steps[..k]), row).value;
            exists i :: && 0 <= i < |now| && now[i].input == LegacyInput(row, MappingOf(row).value, c)
                        && forall j :: 0 <= j < |now| && now[j].input.key == LegacyKey(row) ==> j == i
  {
    hide After, Inv, WorkflowOf, MappingOf, CaseOf;
    var before := After(db, steps[..k]);
    EveryRunKeepsInv(db, steps[..k]);
    EveryRunKeepsInv(db, steps);
    ImportKeeps(before, row);
    AfterNext(db, steps, k);
    RunGrows(db, steps, k + 1);
    var now, i := After(db, steps).events, |before.events|;
    var soon := After(db, steps[..k + 1]).events;
    assert soon[i].input == LegacyInput(row, MappingOf(row).value, CaseOf(before, row).value);
    assert now[i] == soon[i];
    UniqueOfInv(After(db, steps));
    forall j | 0 <= j < |now| && now[j].input.key == LegacyKey(row) ensures j == i {
      assert now[i].input.key == LegacyKey(row);
    }
  }

  lemma UniqueOfInv(db: Db)
    requires Inv(db)
    ensures KeysAreUnique(db.events)
  {
  }

  lemma AfterNext(db: Db, steps: seq<Step>, k: nat)
    requires k < |steps|
    ensures After(db, steps[..k + 1]) == Do(After(db, steps[..k]), steps[k])
  {
    hide Do;
    assert steps[..k + 1][..k] == steps[..k];
  }

  // ---- Interrupted imports ----

  /** Importing the row would change nothing. */
  predicate IsSettled(db: Db, row: AuditRow) { ImportRow(db, row).0 == db }

  // A row is settled when it is not mapped, its case is not there, or its key is on record.
  lemma SettledIff(db: Db, row: AuditRow)
    requires Inv(db)
    ensures IsSettled(db, row) <==>
            || MappingOf(row).None? || CaseOf(db, row).None? || CaseOf(db, row).value !in db.cases
            || FindEvent(db.events, LegacyKey(row)).Some?
  {
    hide WorkflowOf, MappingOf, SequencesOf, CaseOf;
    ImportKeeps(db, row);
  }

  // An import adds at most its own event and changes neither which cases there are nor the offerings.
  lemma ImportAdds(db: Db, row: AuditRow)
    ensures var next := ImportRow(db, row).0;
            && next.cases.Keys == db.cases.Keys && next.offerings == db.offerings && db.events <= next.events
  {
    hide WorkflowOf, MappingOf, CaseOf, StageFor, FindEvent;
  }

  lemma SettledAfterImport(db: Db, row: AuditRow)
    requires Inv(db)
    ensures IsSettled(ImportRow(db, row).0, row)
  {
    hide WorkflowOf, MappingOf, SequencesOf;
    ImportKeeps(db, row);
    var next := ImportRow(db, row).0;
    if next.events != db.events {
      assert next.events[|db.events|] in next.events;
    }
  }

  lemma StaysSettled(db: Db, row: AuditRow, other: AuditRow)
    requires Inv(db) && IsSettled(db, row)
    ensures IsSettled(ImportRow(db, other).0, row)
  {
    hide Inv, IsSettled, ImportRow, MappingOf;
    var next := ImportRow(db, other).0;
    ImportKeeps(db, other);
    ImportAdds(db, other);
    SettledIff(db, row);
    SettledIff(next, row);
    if FindEvent(db.events, LegacyKey(row)).Some? { StaysFound(db.events, next.events, LegacyKey(row)); }
  }

  lemma StaysFound(a: seq<Event>, b: seq<Event>, key: string)
    requires a <= b && FindEvent(a, key).Some?
    ensures FindEvent(b, key).Some?
  {
    assert FindEvent(a, key).value in b;
  }

  lemma {:induction false} ImportInv(db: Db, rows: seq<AuditRow>)
    requires Inv(db)
    ensures Inv(Import(db, rows))
    decreases |rows|
  {
    hide Inv, ImportRow;
    if rows != [] {
      ImportInv(db, rows[..|rows| - 1]);
      ImportKeeps(Import(db, rows[..|rows| - 1]), rows[|rows| - 1]);
    }
  }

  lemma {:induction false} ImportSettles(db: Db, rows: seq<AuditRow>)
    requires Inv(db)
    ensures forall i :: 0 <= i < |rows| ==> IsSettled(Import(db, rows), rows[i])
    decreases |rows|
  {
    hide Inv, ImportRow, IsSettled;
    if rows != [] {
      var n := |rows| - 1;
      var before := Import(db, rows[..n]);
      ImportInv(db, rows[..n]);
      ImportSettles(db, rows[..n]);
      SettledAfterImport(before, rows[n]);
      forall i | 0 <= i < n ensures IsSettled(Import(db, rows), rows[i]) {
        assert rows[..n][i] == rows[i];
        StaysSettled(before, rows[i], rows[n]);
      }
    }
  }

  lemma {:induction false} SettledImport(db: Db, rows: seq<AuditRow>)
    requires forall i :: 0 <= i < |rows| ==> IsSettled(db, rows[i])
    ensures Import(db, rows) == db
    decreases |rows|
  {
    hide ImportRow;
    if rows != [] {
      SettledImport(db, rows[..|rows| - 1]);
      assert IsSettled(db, rows[|rows| - 1]);
    }
  }

  lemma {:induction false} ImportSplits(db: Db, rows: seq<AuditRow>, k: nat)
    requires k <= |rows|
    ensures Import(db, rows) == Import(Import(db, rows[..k]), rows[k..])
    decreases |rows|
  {
    hide ImportRow;
    if k == |rows| {
      assert rows[..k] == rows && rows[k..] == [];
    } else {
      var n := |rows| - 1;
      ImportSplits(db, rows[..n], k);
      assert rows[..n][..k] == rows[..k] && rows[..n][k..] == rows[k..n] == rows[k..][..n - k];
    }
  }

  /** An import that stopped after k rows, run again in full, ends where a single full import ends. */
  lemma InterruptedThenFull(db: Db, rows: seq<AuditRow>, k: nat)
    requires Inv(db) && k <= |rows|
    ensures Import(Import(db, rows[..k]), rows) == Import(db, rows)
  {
    hide Inv, ImportRow, IsSettled, Import;
    var part := Import(db, rows[..k]);
    ImportSettles(db, rows[..k]);
    SettledImport(part, rows[..k]);
    ImportSplits(part, rows, k);
    ImportSplits(db, rows, k);
  }

  /** Imports that stop after the given numbers of rows, one after the other. */
  function Interrupted(db: Db, rows: seq<AuditRow>, stops: seq<nat>): Db
    requires forall i :: 0 <= i < |stops| ==> stops[i] <= |rows|
    decreases |stops|
  {
    if stops == [] then db else Import(Interrupted(db, rows, stops[..|stops| - 1]), rows[..stops[|stops| - 1]])
  }

  /**
   * Any number of interrupted imports followed by a full one add what a single full import adds,
   * and a further one adds nothing.
   */
  lemma {:induction false} RestartsAddTheSame(db: Db, rows: seq<AuditRow>, stops: seq<nat>)
    requires Inv(db) && forall i :: 0 <= i < |stops| ==> stops[i] <= |rows|
    ensures Import(Interrupted(db, rows, stops), rows) == Import(db, rows)
    ensures Import(Import(db, rows), rows) == Import(db, rows)
    decreases |stops|
  {
    hide Inv, ImportRow, Import;
    assert rows[..|rows|] == rows;
    InterruptedThenFull(db, rows, |rows|);
    if stops != [] {
      var n := |stops| - 1;
      InterruptedInv(db, rows, stops[..n]);
      InterruptedThenFull(Interrupted(db, rows, stops[..n]), rows, stops[n]);
      RestartsAddTheSame(db, rows, stops[..n]);
    }
  }

  lemma {:induction false} InterruptedInv(db: Db, rows: seq<AuditRow>, stops: seq<nat>)
    requires Inv(db) && forall i :: 0 <= i < |stops| ==> stops[i] <= |rows|
    ensures Inv(Interrupted(db, rows, stops))
    decreases |stops|
  {
    hide Inv, Import;
    if stops != [] {
      var n := |stops| - 1;
      InterruptedInv(db, rows, stops[..n]);
      ImportInv(Interrupted(db, rows, stops[..n]), rows[..stops[n]]);
    }
  }
}
