/** The import of older history held against the live writers that audit and record the same changes. */
module LedgerImport {
  import opened Base
  import opened EventLedger

  /** The changes of a case that write an audit row and a ledger event in one transaction. */
  datatype Change =
    | CreateDraft | CreateByStaff | Submit | Resubmit | PublishRequest | WithdrawRequest
    | ExpireRequest(byStaff: bool) | ReviewEvidence | Approve(handoffQueued: bool) | Reject
    | CloseWithdrawn(from: Stage) | CloseRejected(from: Stage) | StartStructuring | AssignPartner
    | RecordLegal(completes: bool) | RecordAppraisal(completes: bool)

  /** The actions of the audit rows a change writes. */
  function AuditActions(c: Change): (r: seq<string>)
    ensures |r| == if (c.RecordLegal? || c.RecordAppraisal?) && c.completes then 2 else 1
  {
    match c
    case CreateDraft => ["intake.case_draft_created"]
    case CreateByStaff => ["intake.case_created_by_staff"]
    case Submit => ["intake.case_submitted"]
    case Resubmit => ["intake.case_resubmitted"]
    case PublishRequest => ["intake.information_request_published"]
    case WithdrawRequest => ["intake.information_request_withdrawn"]
    case ExpireRequest(_) => ["intake.information_request_expired"]
    case ReviewEvidence => ["intake.evidence_reviewed"]
    case Approve(_) => ["intake.case_approved"]
    case Reject => ["intake.case_rejected"]
    case CloseWithdrawn(_) => ["intake.case_withdrawn"]
    case CloseRejected(_) => ["intake.case_rejected"]
    case StartStructuring => ["intake.case_post_ipo_structuring_started"]
    case AssignPartner => ["intake.case_partner_organization_assigned"]
    case RecordLegal(completes) =>
      ["intake.case_legal_structuring_recorded"] + Completion(completes)
    case RecordAppraisal(completes) =>
      ["intake.case_appraisal_recorded"] + Completion(completes)
  }

  function Completion(completes: bool): seq<string> {
    if completes then ["intake.case_approved_for_final_offering"] else []
  }

  function Moves(eventType: string, from: Stage, to: Stage, actorType: string): Mapping {
    Mapping(eventType, Some(from), Some(to), actorType)
  }

  function Notes(eventType: string, actorType: string): Mapping { Mapping(eventType, None, None, actorType) }

  /** The ledger events the same change appends itself. */
  function LiveEvents(c: Change): (r: seq<Mapping>)
    ensures |r| == if c.CreateByStaff? || (c.Approve? && c.handoffQueued) then 2 else 1
  {
    match c
    case CreateDraft => [Notes("case_created", "applicant")]
    case CreateByStaff => [Notes("case_created", "staff"), Moves("case_submitted", Draft, Submitted, "staff")]
    case Submit => [Moves("case_submitted", Draft, Submitted, "applicant")]
    case Resubmit => [Moves("case_resubmitted", WaitingOnApplicant, Submitted, "applicant")]
    case PublishRequest => [Moves("case_information_requested", Submitted, WaitingOnApplicant, "staff")]
    case WithdrawRequest => [Moves("case_information_request_withdrawn", WaitingOnApplicant, Submitted, "staff")]
    case ExpireRequest(byStaff) =>
      [Moves("case_expired", WaitingOnApplicant, Expired, if byStaff then "staff" else "system")]
    case ReviewEvidence => [Notes("case_evidence_reviewed", "staff")]
    case Approve(handoffQueued) =>
      [Moves("founder_decision_recorded", Submitted, PreOfferingOpen, "staff")]
      + if handoffQueued then [Notes("handoff_queued", "system")] else []
    case Reject => [Moves("founder_decision_recorded", Submitted, Rejected, "staff")]
    case CloseWithdrawn(from) => [Moves("case_withdrawn", from, Withdrawn, "staff")]
    case CloseRejected(from) => [Moves("case_rejected", from, Rejected, "staff")]
    case StartStructuring => [Moves("case_post_ipo_structuring_started", PreOfferingOpen, PostIpoStructuring, "system")]
    case AssignPartner => [Notes("partner_assignment_changed", "staff")]
    case RecordLegal(completes) =>
      [if completes then CompletedByPartner() else Notes("legal_structuring_updated", "partner")]
    case RecordAppraisal(completes) =>
      [if completes then CompletedByPartner() else Notes("appraisal_updated", "partner")]
  }

  function CompletedByPartner(): Mapping {
    Moves("case_approved_for_final_offering", PostIpoStructuring, ApprovedForFinalOffering, "partner")
  }

  /** What the import makes of a list of audit rows. */
  function Imported(rows: seq<AuditRow>): seq<Mapping> {
    if rows == [] then []
    else (if MappingOf(rows[0]).Some? then [MappingOf(rows[0]).value] else []) + Imported(rows[1..])
  }

  /** The changes whose audit rows do not say what the live event says. */
  predicate AuditSaysLess(c: Change) {
    match c
    case CreateByStaff => true               // the submission that goes with the creation has no audit row
    case ExpireRequest(byStaff) => byStaff   // the import holds the system responsible
    case Approve(handoffQueued) => handoffQueued
    case CloseWithdrawn(_) => true           // the import does not know the stages
    case CloseRejected(_) => true            // the import takes it for the decision at the review
    case RecordLegal(completes) => completes // the import sees two changes, the second by the system
    case RecordAppraisal(completes) => completes
    case _ => false
  }

  lemma ImportedOne(row: AuditRow)
    requires CaseMapping(row.action).Some?
    ensures Imported([row]) == [CaseMapping(row.action).value]
  {
    hide CaseMapping, OfferingEventType;
    assert [row][1..] == [];
  }

  lemma ImportedTwo(a: AuditRow, b: AuditRow)
    requires CaseMapping(a.action).Some? && CaseMapping(b.action).Some?
    ensures Imported([a, b]) == [CaseMapping(a.action).value, CaseMapping(b.action).value]
  {
    hide CaseMapping, OfferingEventType;
    assert [a, b][1..] == [b];
    ImportedOne(b);
  }

  // The first audit row of a change is mapped, to the first event of the change or to another one.
  ghost predicate FirstAgreesIff(c: Change, agrees: bool) {
    var m := CaseMapping(AuditActions(c)[0]);
    m.Some? && (m.value == LiveEvents(c)[0] <==> agrees)
  }

  lemma ApplicantMappings()
    ensures CaseMapping("intake.case_draft_created") == Some(Notes("case_created", "applicant"))
    ensures CaseMapping("intake.case_created_by_staff") == Some(Notes("case_created", "staff"))
    ensures CaseMapping("intake.case_submitted") == Some(Moves("case_submitted", Draft, Submitted, "applicant"))
    ensures CaseMapping("intake.case_resubmitted") ==
              Some(Moves("case_resubmitted", WaitingOnApplicant, Submitted, "applicant"))
  {
  }

  lemma FirstOfApplicant(c: Change)
    requires c.CreateDraft? || c.CreateByStaff? || c.Submit? || c.Resubmit?
    ensures FirstAgreesIff(c, true)
  {
    hide CaseMapping;
    ApplicantMappings();
  }

  lemma RequestMappings()
    ensures CaseMapping("intake.information_request_published") ==
              Some(Moves("case_information_requested", Submitted, WaitingOnApplicant, "staff"))
    ensures CaseMapping("intake.information_request_withdrawn") ==
              Some(Moves("case_information_request_withdrawn", WaitingOnApplicant, Submitted, "staff"))
    ensures CaseMapping("intake.information_request_expired") ==
              Some(Moves("case_expired", WaitingOnApplicant, Expired, "system"))
    ensures CaseMapping("intake.evidence_reviewed") == Some(Notes("case_evidence_reviewed", "staff"))
  {
  }

  lemma FirstOfRequest(c: Change)
    requires c.PublishRequest? || c.WithdrawRequest? || c.ExpireRequest? || c.ReviewEvidence?
    ensures FirstAgreesIff(c, !(c.ExpireRequest? && c.byStaff))
  {
    hide CaseMapping;
    RequestMappings();
  }

  lemma DecisionMappings()
    ensures CaseMapping("intake.case_approved") ==
              Some(Moves("founder_decision_recorded", Submitted, PreOfferingOpen, "staff"))
    ensures CaseMapping("intake.case_rejected") ==
              Some(Moves("founder_decision_recorded", Submitted, Rejected, "staff"))
    ensures CaseMapping("intake.case_withdrawn") == Some(Notes("case_withdrawn", "staff"))
  {
  }

  lemma FirstOfDecision(c: Change)
    requires c.Approve? || c.Reject? || c.CloseWithdrawn? || c.CloseRejected?
    ensures FirstAgreesIff(c, c.Approve? || c.Reject?)
  {
    hide CaseMapping;
    DecisionMappings();
  }

  lemma StructuringMappings()
    ensures CaseMapping("intake.case_post_ipo_structuring_started") ==
              Some(Moves("case_post_ipo_structuring_started", PreOfferingOpen, PostIpoStructuring, "system"))
    ensures CaseMapping("intake.case_partner_organization_assigned") ==
              Some(Notes("partner_assignment_changed", "staff"))
  {
  }

  lemma FirstOfStructuring(c: Change)
    requires c.StartStructuring? || c.AssignPartner?
    ensures FirstAgreesIff(c, true)
  {
    hide CaseMapping;
    StructuringMappings();
  }

  lemma PartnerMappings()
    ensures CaseMapping("intake.case_legal_structuring_recorded") == Some(Notes("legal_structuring_updated", "partner"))
    ensures CaseMapping("intake.case_appraisal_recorded") == Some(Notes("appraisal_updated", "partner"))
  {
  }

  lemma FirstOfPartner(c: Change)
    requires c.RecordLegal? || c.RecordAppraisal?
    ensures FirstAgreesIff(c, !c.completes)
  {
    hide CaseMapping;
    PartnerMappings();
  }

  lemma CompletionMapping()
    ensures CaseMapping("intake.case_approved_for_final_offering") ==
              Some(Moves("case_approved_for_final_offering", PostIpoStructuring, ApprovedForFinalOffering, "system"))
  {
  }

  lemma CompletionIsMapped(c: Change)
    requires |AuditActions(c)| == 2
    ensures CaseMapping(AuditActions(c)[1]).Some?
  {
    hide LiveEvents, CaseMapping;
    CompletionMapping();
  }

  /** The rows are the audit trail of the change. */
  predicate IsTrailOf(rows: seq<AuditRow>, c: Change) {
    |rows| == |AuditActions(c)| && forall i :: 0 <= i < |rows| ==> rows[i].action == AuditActions(c)[i]
  }

  /**
   * Importing the audit trail of a change reproduces the events the change recorded itself, in type,
   * stages and actor, for exactly the changes whose audit rows say as much.
   */
  lemma ImportReproducesLiveIff(c: Change, rows: seq<AuditRow>)
    requires IsTrailOf(rows, c)
    ensures Imported(rows) == LiveEvents(c) <==> !AuditSaysLess(c)
  {
    hide Imported, CaseMapping, LiveEvents, AuditActions;
    match c {
      case CreateDraft => FirstOfApplicant(c);
      case CreateByStaff => FirstOfApplicant(c);
      case Submit => FirstOfApplicant(c);
      case Resubmit => FirstOfApplicant(c);
      case PublishRequest => FirstOfRequest(c);
      case WithdrawRequest => FirstOfRequest(c);
      case ExpireRequest(_) => FirstOfRequest(c);
      case ReviewEvidence => FirstOfRequest(c);
      case Approve(_) => FirstOfDecision(c);
      case Reject => FirstOfDecision(c);
      case CloseWithdrawn(_) => FirstOfDecision(c);
      case CloseRejected(_) => FirstOfDecision(c);
      case StartStructuring => FirstOfStructuring(c);
      case AssignPartner => FirstOfStructuring(c);
      case RecordLegal(_) => FirstOfPartner(c);
      case RecordAppraisal(_) => FirstOfPartner(c);
    }
    if |rows| == 1 {
      assert rows == [rows[0]];
      ImportedOne(rows[0]);
    } else {
      CompletionIsMapped(c);
      assert rows == [rows[0], rows[1]];
      ImportedTwo(rows[0], rows[1]);
    }
  }

  lemma OfferingTypes()
    ensures OfferingEventType("offering.opened_for_approved_case") == Some("offering_created")
    ensures OfferingEventType("offering.disclosure_pack_published") == Some("offering_disclosure_pack_published")
    ensures OfferingEventType("offering.final_terms_published") == Some("offering_final_terms_published")
    ensures OfferingEventType("offering.finalized") == Some("offering_finalized")
  {
  }

  lemma OpeningIsNoCaseAction()
    ensures CaseMapping("offering.opened_for_approved_case").None?
  {
  }

  lemma DisclosingIsNoCaseAction()
    ensures CaseMapping("offering.disclosure_pack_published").None?
  {
  }

  lemma PublishingIsNoCaseAction()
    ensures CaseMapping("offering.final_terms_published").None?
  {
  }

  lemma FinalizingIsNoCaseAction()
    ensures CaseMapping("offering.finalized").None?
  {
  }

  /** A change of an offering is imported as an event of its case, by the person who made it or by the system. */
  lemma OfferingChangesAreImported(row: AuditRow, eventType: string)
    requires (row.action, eventType) in {
               ("offering.opened_for_approved_case", "offering_created"),
               ("offering.disclosure_pack_published", "offering_disclosure_pack_published"),
               ("offering.final_terms_published", "offering_final_terms_published"),
               ("offering.finalized", "offering_finalized")}
    ensures MappingOf(row) == Some(Notes(eventType, if row.actor == None then "system" else "staff"))
  {
    hide CaseMapping, OfferingEventType;
    OfferingTypes();
    OpeningIsNoCaseAction();
    DisclosingIsNoCaseAction();
    PublishingIsNoCaseAction();
    FinalizingIsNoCaseAction();
  }

  /** What a new event of the ledger says, whoever appended it. */
  lemma AppendedIs(db: Db, input: Input)
    requires var (next, r) := Append(db, input); r.Ok? && next != db
    ensures var (next, r) := Append(db, input);
            var e := r.event;
            var stage := if input.to != None then input.to else if input.from != None then input.from
                         else Some(db.cases[input.caseId].stage);
            && next.events == db.events + [e] && e.input == input
            && input.caseId in db.cases && e.sequence == db.cases[input.caseId].counter + 1
            && (e.workflow.DraftSubmission? <==> stage == Some(Draft))
            && (e.workflow.OperationsReview? <==> stage == Some(Submitted))
            && (e.workflow.ApplicantInformation? <==> stage == Some(WaitingOnApplicant))
            && (e.workflow.Ipo? <==> stage == Some(PreOfferingOpen))
            && (e.workflow.PostIpo? <==> stage == Some(PostIpoStructuring))
            && (e.workflow.FinalOffering? <==> stage == Some(ApprovedForFinalOffering))
            && (e.workflow.Terminal? <==> stage in {Some(Rejected), Some(Withdrawn), Some(Expired)})
            && (input.version == None ==> e.version == if input.legacy then 0 else 1)
            && (input.version != None ==> Some(e.version) == input.version)
  {
  }

  /** What an imported event says, from the audit row it stands for. */
  lemma ImportedIs(db: Db, row: AuditRow, m: Mapping, caseId: Id)
    requires MappingOf(row) == Some(m) && caseId in db.cases && FindEvent(db.events, LegacyKey(row)).None?
    requires if "case_" <= row.resourceId then caseId == row.resourceId
             else row.resourceId in db.offerings && db.offerings[row.resourceId] == caseId
    requires WorkflowOf(db.cases[caseId].stage).Some?
    ensures var (next, ok) := ImportRow(db, row);
            && ok && |next.events| == |db.events| + 1
            && var e := next.events[|db.events|];
               && e.input.caseId == caseId && e.input.key == "legacy:audit:" + row.id && e.version == 0
               && e.input.legacy && e.input.occurredAt == row.createdAt
               && e.input.eventType == m.eventType && e.input.from == m.from && e.input.to == m.to
               && e.input.actorType == m.actorType
               && e.input.actor == (if m.actorType == "system" then None else row.actor)
               && e.input.relatedId == Some(row.resourceId)
               && e.input.relatedType == Some(if "offering." <= row.action then "offering" else "intake_case")
  {
    hide CaseMapping, OfferingEventType;
  }
}
