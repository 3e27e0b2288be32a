/** The worker that turns one received provider webhook into at most one transaction on the table. */
module KycWebhook {
  import opened Base
  import opened KycPolicy
  import opened AddressPolicy
  import opened KycDb
  import opened KycRuns
  import opened KycLease
  import opened KycRepository
  import opened KycServices
  import opened KycStreams
  import opened KycOutcomes

  datatype Config = Config(workflowId: Id, applicationId: Id, environment: string, addressWorkflowId: Option<Id>)

  datatype Webhook = Webhook(
    eventId: Id, webhookType: string, applicationId: Id, environment: string, sessionId: Id,
    sessionKind: Option<string>, workflowId: Option<Id>, vendorData: Option<Id>, status: string, createdAt: int)

  /** What the provider's decision endpoint answers. */
  datatype Fetched = Fetched(
    sessionId: Id, business: bool, vendorData: Option<Id>, workflowId: Option<Id>, status: Option<DiditStatus>,
        summary: Decision)

  function AsStatus(value: string): Option<DiditStatus> {
    if value == "Not Started" then Some(NotStarted)
    else if value == "In Progress" then Some(InProgress)
    else if value == "In Review" then Some(InReview)
    else if value == "Approved" then Some(Approved)
    else if value == "Declined" then Some(Declined)
    else if value == "Resubmitted" then Some(Resubmitted)
    else if value == "Expired" then Some(Expired)
    else if value == "Abandoned" then Some(Abandoned)
    else if value == "Kyc Expired" then Some(KycExpired)
    else if value == "Awaiting User" then Some(AwaitingUser)
    else None
  }

  predicate NeedsDecision(status: Option<DiditStatus>) {
    status == Some(Approved) || status == Some(Declined) || status == Some(InReview) || status == Some(Abandoned)
  }

  function Purpose(c: Config, w: Webhook): Option<Kind> {
    if w.workflowId == Some(c.workflowId) then Some(BaselineSession)
    else if c.addressWorkflowId.Some? && w.workflowId == c.addressWorkflowId then Some(AddressSession)
    else None
  }

  predicate IsConfigured(c: Config, w: Webhook) {
    && w.applicationId == c.applicationId && w.environment == c.environment && Purpose(c, w).Some?
    && w.sessionKind != Some("business") && (w.webhookType == "status.updated" || w.webhookType == "data.updated")
  }

  predicate DecisionMatches(w: Webhook, d: Fetched, account: Id) {
    && d.sessionId == w.sessionId && !d.business && d.vendorData == Some(account)
    && (d.workflowId.Some? ==> d.workflowId == w.workflowId) && d.status == AsStatus(w.status)
  }

  /** The transaction a webhook leads to, from what the worker reads before it; None when its key is already claimed. */
  ghost function Plan(db: Db, c: Config, w: Webhook, fetched: Fetched): (plan: Option<Step>)
    ensures plan.Some? ==> plan.value.OutcomeStep? || plan.value.AddressOutcomeStep? || plan.value.UnmatchedStep?
  {
    var key := WebhookKey(w.eventId);
    if key in db.claimed then None
    else if !IsConfigured(c, w) then Some(UnmatchedStep(key))
    else
      var baseline := Purpose(c, w) == Some(BaselineSession);
      var target := if baseline then Holder(db, w.sessionId) else AddressHolder(db, w.sessionId);
      if target.None? || w.vendorData != target then Some(UnmatchedStep(key))
      else
        var status := AsStatus(w.status);
        if NeedsDecision(status) && !DecisionMatches(w, fetched, target.value) then Some(UnmatchedStep(key))
        else
          var row := db.rows[target.value];
          var decision := if NeedsDecision(status) then Some(fetched.summary) else None;
          if baseline then
            Some(OutcomeStep(key, w.sessionId, status, decision, 1000 * w.createdAt, row.residence, row.tax,
                row.baseline.everReviewed))
          else
            Some(AddressOutcomeStep(key, w.sessionId, status, decision, 1000 * w.createdAt, row.residence))
  }

  datatype Received = Received(duplicate: bool, stale: bool, ignored: bool)

  /** What the worker answers when it performs a planned transaction on this table. */
  ghost function ResponseTo(db: Db, s: Step): Received
    requires s.OutcomeStep? || s.AddressOutcomeStep? || s.UnmatchedStep?
  {
    if s.UnmatchedStep? then Received(false, false, true)
    else
      var applied := if s.OutcomeStep? then Apply(db, s.key, s.reference, s.providerStatus, s.at, OutcomeOf(s)).1
                     else ApplyAddress(db, s.key, s.reference, s.providerStatus, s.at, AddressOutcomeOf(s)).1;
      Received(applied.Duplicate?, applied.Stale?, applied.Unmatched?)
  }

  method Deliver(repo: Repository, s: Step) returns (r: Received)
    requires Inv(repo.View()) && (s.OutcomeStep? || s.AddressOutcomeStep? || s.UnmatchedStep?)
    modifies repo
    ensures repo.View() == Do(old(repo.View()), s).0 && Inv(repo.View()) && r == ResponseTo(old(repo.View()), s)
  {
    hide RowOk, Distinct, Evaluate, EvaluateAddress, BaselineRow, AddressRow;
    InvKept(repo.View(), s);
    match s
    case OutcomeStep(key, reference, status, _, at, _, _, _) =>
      var applied := repo.ApplyProviderOutcome(key, reference, status, at, OutcomeOf(s));
      r := Received(applied.Duplicate?, applied.Stale?, applied.Unmatched?);
    case AddressOutcomeStep(key, reference, status, _, at, _) =>
      var applied := repo.ApplyAddressOutcome(key, reference, status, at, AddressOutcomeOf(s));
      r := Received(applied.Duplicate?, applied.Stale?, applied.Unmatched?);
    case UnmatchedStep(key) =>
      repo.RecordUnmatched(key);
      r := Received(false, false, true);
  }

  /** The answer is the truth about the table: duplicate, stale or ignored, or else the event is now on the row. */
  lemma AnswerIsTruthful(kind: Kind, db: Db, s: Step, account: Id)
    requires Inv(db) && account in db.rows && FromSession(db.rows[account], s) && IsOf(kind, s)
    ensures var r, next := ResponseTo(db, s), Do(db, s).0;
            && (r.duplicate <==> s.key in db.claimed)
            && (r.stale <==> s.key !in db.claimed && IsStale(Settle(kind, db.rows[account]).at, s.at))
            && !r.ignored && s.key in next.claimed
            && account in next.rows
            && (if r.duplicate || r.stale then next.rows == db.rows else Settle(kind, next.rows[account]) == ValueOf(s))
  {
    UniqueOfInv(db);
    hide Inv, OutcomeOf, AddressOutcomeOf, BaselineRow, AddressRow;
    ColumnStep(kind, db, s, account);
    if s.OutcomeStep? { HolderIs(db, s.reference, account); } else { AddressHolderIs(db, s.reference, account); }
  }

  /** The worker reads the table, awaits the provider while others write, and then performs the planned transaction. */
  method ProcessWebhook(repo: Repository, c: Config, w: Webhook, fetched: Fetched,
      meanwhile: seq<Step>) returns (r: Received)
    requires Inv(repo.View())
    modifies repo
    ensures Inv(repo.View())
    ensures var plan := Plan(old(repo.View()), c, w, fetched);
            repo.View() == (if plan.None? then old(repo.View()) else After(old(repo.View()), meanwhile + [plan.value]))
    ensures var plan := Plan(old(repo.View()), c, w, fetched);
            r == if plan.None? then Received(true, false, false)
                else ResponseTo(After(old(repo.View()), meanwhile), plan.value)
  {
    hide Inv, Do, AsStatus, ResponseTo;
    var key := WebhookKey(w.eventId);
    if key in repo.claimed { return Received(true, false, false); }
    ghost var plan := Plan(repo.View(), c, w, fetched);
    var step := UnmatchedStep(key);
    if IsConfigured(c, w) {
      UniqueOfInv(repo.View());
      var target;
      if Purpose(c, w) == Some(BaselineSession) {
        target := repo.FindByReference(w.sessionId);
      } else {
        target := repo.FindByAddressReference(w.sessionId);
      }
      if target.Some? && w.vendorData == target {
        var status, row := AsStatus(w.status), repo.rows[target.value];
        if !NeedsDecision(status) || DecisionMatches(w, fetched, target.value) {
          var decision := if NeedsDecision(status) then Some(fetched.summary) else None;
          if Purpose(c, w) == Some(BaselineSession) {
            step := OutcomeStep(key, w.sessionId, status, decision, 1000 * w.createdAt, row.residence, row.tax,
                row.baseline.everReviewed);
          } else {
            step := AddressOutcomeStep(key, w.sessionId, status, decision, 1000 * w.createdAt, row.residence);
          }
        }
      }
    }
    assert plan == Some(step);
    PerformAll(repo, meanwhile);
    r := Deliver(repo, step);
    assert (meanwhile + [step])[..|meanwhile|] == meanwhile;
  }

  // ---- What the provider's texts lead to ----

  /** The provider's own word for a status. */
  function WireText(status: DiditStatus): string {
    match status
    case NotStarted => "Not Started"
    case InProgress => "In Progress"
    case InReview => "In Review"
    case Approved => "Approved"
    case Declined => "Declined"
    case Resubmitted => "Resubmitted"
    case Expired => "Expired"
    case Abandoned => "Abandoned"
    case KycExpired => "Kyc Expired"
    case AwaitingUser => "Awaiting User"
  }

  /** The ten words and the ten statuses correspond one to one; any other text is no status. */
  lemma TextsAndStatuses(value: string, status: DiditStatus)
    ensures AsStatus(value) == Some(status) <==> value == WireText(status)
    ensures AsStatus(WireText(status)) == Some(status)
  {
    if AsStatus(value).Some? { assert WireText(AsStatus(value).value) == value; }
    assert AsStatus(WireText(status)) == Some(status);
  }

  predicate IsForUs(c: Config, w: Webhook) {
    && w.applicationId == c.applicationId && w.environment == c.environment
    && w.webhookType in {"status.updated", "data.updated"} && w.sessionKind != Some("business")
  }

  /** The decision fetched for a final status belongs to the session, the account and the workflow of the webhook. */
  predicate Backs(fetched: Fetched, w: Webhook, account: Id) {
    w.status in {"Approved", "Declined", "In Review", "Abandoned"} ==>
      && fetched.sessionId == w.sessionId && !fetched.business && fetched.vendorData == Some(account)
      && (fetched.workflowId == None || fetched.workflowId == w.workflowId)
      && fetched.status.Some? && WireText(fetched.status.value) == w.status
  }

  lemma NeedsDecisionIff(w: Webhook)
    ensures NeedsDecision(AsStatus(w.status)) <==> w.status in {"Approved", "Declined", "In Review", "Abandoned"}
  {
    TextsAndStatuses(w.status, Approved);
    TextsAndStatuses(w.status, Declined);
    TextsAndStatuses(w.status, InReview);
    TextsAndStatuses(w.status, Abandoned);
    hide AsStatus;
  }

  lemma BacksIff(fetched: Fetched, w: Webhook, account: Id)
    ensures Backs(fetched, w, account) <==>
              (NeedsDecision(AsStatus(w.status)) ==> DecisionMatches(w, fetched, account))
  {
    NeedsDecisionIff(w);
    if fetched.status.Some? { TextsAndStatuses(w.status, fetched.status.value); }
    hide AsStatus, WireText;
  }

  /** Exactly the webhooks of this application about a session on record become a baseline outcome, and with what. */
  lemma BaselineOutcomeIff(db: Db, c: Config, w: Webhook, fetched: Fetched, account: Id)
    requires Inv(db) && w.vendorData == Some(account)
    ensures var plan := Plan(db, c, w, fetched);
            && (plan.Some? && plan.value.OutcomeStep? <==>
                  && WebhookKey(w.eventId) !in db.claimed && IsForUs(c, w) && w.workflowId == Some(c.workflowId)
                  && account in db.rows && db.rows[account].baseline.reference == Some(w.sessionId)
                  && Backs(fetched, w, account))
            && (plan.Some? && plan.value.OutcomeStep? ==>
                  && plan.value.key == WebhookKey(w.eventId) && plan.value.at == 1000 * w.createdAt
                  && plan.value.reference == w.sessionId && plan.value.providerStatus == AsStatus(w.status)
                  && plan.value.readResidence == db.rows[account].residence
                  && plan.value.readTax == db.rows[account].tax
                  && plan.value.decision == (if w.status in {"Approved", "Declined", "In Review", "Abandoned"}
                                             then Some(fetched.summary) else None))
  {
    UniqueOfInv(db);
    hide Inv, AsStatus, DecisionMatches, Backs, WireText;
    if Holds(db, w.sessionId, account) { HolderIs(db, w.sessionId, account); }
    NeedsDecisionIff(w);
    BacksIff(fetched, w, account);
  }

  /** The same for the owner proof of address, whose workflow has to be configured and to be another one. */
  lemma AddressOutcomeIff(db: Db, c: Config, w: Webhook, fetched: Fetched, account: Id)
    requires Inv(db) && w.vendorData == Some(account)
    ensures var plan := Plan(db, c, w, fetched);
            && (plan.Some? && plan.value.AddressOutcomeStep? <==>
                  && WebhookKey(w.eventId) !in db.claimed && IsForUs(c, w)
                  && w.workflowId.Some? && w.workflowId == c.addressWorkflowId && w.workflowId != Some(c.workflowId)
                  && account in db.rows && db.rows[account].address.reference == Some(w.sessionId)
                  && Backs(fetched, w, account))
            && (plan.Some? && plan.value.AddressOutcomeStep? ==>
                  && plan.value.key == WebhookKey(w.eventId) && plan.value.at == 1000 * w.createdAt
                  && plan.value.reference == w.sessionId && plan.value.providerStatus == AsStatus(w.status)
                  && plan.value.readResidence == db.rows[account].residence
                  && plan.value.decision == (if w.status in {"Approved", "Declined", "In Review", "Abandoned"}
                                             then Some(fetched.summary) else None))
  {
    UniqueOfInv(db);
    hide Inv, AsStatus, DecisionMatches, Backs, WireText;
    if HoldsAddress(db, w.sessionId, account) { AddressHolderIs(db, w.sessionId, account); }
    NeedsDecisionIff(w);
    BacksIff(fetched, w, account);
  }

  /** Every other webhook leaves the rows and the history alone and only uses up its key. */
  lemma OthersOnlyClaim(db: Db, c: Config, w: Webhook, fetched: Fetched)
    requires var plan := Plan(db, c, w, fetched); plan.Some? && plan.value.UnmatchedStep?
    ensures Do(db, Plan(db, c, w, fetched).value).0 == db.(claimed := db.claimed + {WebhookKey(w.eventId)})
  {
    hide AsStatus, Evaluate, EvaluateAddress;
  }

  /** What an applied baseline webhook puts on the row, by the word it carried. */
  lemma TextDecidesRow(db: Db, c: Config, w: Webhook, fetched: Fetched, meanwhile: seq<Step>, account: Id)
    requires Inv(db) && w.vendorData == Some(account)
    requires var plan := Plan(db, c, w, fetched);
             plan.Some? && plan.value.OutcomeStep? && Do(After(db, meanwhile), plan.value).1
             && Holder(After(db, meanwhile), w.sessionId) == Some(account)
    ensures var next := Do(After(db, meanwhile), Plan(db, c, w, fetched).value).0;
            && account in next.rows
            && var b := next.rows[account].baseline;
               && (forall status :: b.providerStatus == Some(status) <==> w.status == WireText(status))
               && b.providerUpdatedAt == Some(1000 * w.createdAt)
               && (b.state.StateNotStarted? <==> w.status in {"Not Started", "Expired", "Abandoned"})
               && (b.state.StateInProgress? <==> w.status in {"In Progress", "Resubmitted"})
               && (b.state.RequiresRenewal? <==> w.status == "Kyc Expired")
               && (b.state.Eligible? ==> w.status == "Approved")
               && (b.state.UnsupportedJurisdiction? <==>
                     && w.status == "Approved"
                     && !(IsSupported(db.rows[account].residence) && IsSupported(db.rows[account].tax)))
               && (b.state.NotEligible? ==> w.status == "Approved" || w.status == "Declined")
               && (w.status == "In Review" || w.status == "Awaiting User" || b.providerStatus == None ==>
                     b.state.PendingManualReview?)
  {
    BaselineOutcomeIff(db, c, w, fetched, account);
    var s := Plan(db, c, w, fetched).value;
    assert Do(After(db, meanwhile), s).0.rows[account] ==
           BaselineRow(After(db, meanwhile).rows[account], s.providerStatus, s.at, OutcomeOf(s)) by {
      hide After, Plan, Inv, AsStatus, Evaluate, BaselineRow;
    }
    hide After, Plan, Inv, Do, AsStatus, Evaluate, IsSupported, Rejected, AnyWantsReview, FullyVerified, WireText;
    StateIff(s.providerStatus, s.decision, s.readResidence, s.readTax, s.at, s.readReviewed);
    EligibleIff(s.providerStatus, s.decision, s.readResidence, s.readTax, s.at, s.readReviewed);
    forall status ensures s.providerStatus == Some(status) <==> w.status == WireText(status) {
      TextsAndStatuses(w.status, status);
    }
    TextsByName(w.status, s.providerStatus);
  }

  lemma TextsByName(value: string, status: Option<DiditStatus>)
    requires status == AsStatus(value)
    ensures value in {"Not Started", "Expired", "Abandoned"} <==>
              status in {Some(NotStarted), Some(Expired), Some(Abandoned)}
    ensures value in {"In Progress", "Resubmitted"} <==> status in {Some(InProgress), Some(Resubmitted)}
    ensures value == "Kyc Expired" <==> status == Some(KycExpired)
    ensures value == "Approved" <==> status == Some(Approved)
    ensures value == "Declined" <==> status == Some(Declined)
    ensures value == "In Review" <==> status == Some(InReview)
    ensures value == "Awaiting User" <==> status == Some(AwaitingUser)
  {
  }

  /**
   * What the worker applies is correlated: the session is the row's own, the vendor data names that account,
   * and every column it judges by is the row's. So the deliveries of EveryOrderConverges are what webhooks produce.
   */
  lemma PlannedIsCorrelated(db: Db, c: Config, w: Webhook, fetched: Fetched)
    requires Plan(db, c, w, fetched).Some? && !Plan(db, c, w, fetched).value.UnmatchedStep?
    ensures var s := Plan(db, c, w, fetched).value;
            && w.vendorData.Some? && w.vendorData.value in db.rows && FromSession(db.rows[w.vendorData.value], s)
            && s.key == WebhookKey(w.eventId) && s.key !in db.claimed && FreshSource(s)
            && ReadsCurrentFlag(db, s)
            && (s.OutcomeStep? <==> w.workflowId == Some(c.workflowId))
            && (s.decision.Some? ==> DecisionMatches(w, fetched, w.vendorData.value))
  {
    hide AsStatus;
  }

  /** In every run from the empty table a baseline webhook is judged by the countries of its account's latest start. */
  lemma JudgedAsDeclared(accounts: set<Id>, steps: seq<Step>, c: Config, w: Webhook, fetched: Fetched)
    requires var plan := Plan(After(Empty(accounts), steps), c, w, fetched); plan.Some? && plan.value.OutcomeStep?
    ensures var s := Plan(After(Empty(accounts), steps), c, w, fetched).value;
            && w.vendorData.Some?
            && var start := LatestReservation(Empty(accounts), steps, w.vendorData.value);
               start.Some? && s.readResidence == Some(start.value.residence) && s.readTax == Some(start.value.tax)
  {
    hide After, Inv, LatestReservation;
    EmptyIsInv(accounts);
    EveryRunKeepsInv(Empty(accounts), steps);
    PlannedIsCorrelated(After(Empty(accounts), steps), c, w, fetched);
    BaselineOutcomeIff(After(Empty(accounts), steps), c, w, fetched, w.vendorData.value);
    RowHoldsDeclared(Empty(accounts), steps, w.vendorData.value);
    hide Plan;
  }

  /**
   * Whatever was delivered before, what the worker plans next for the account is one more delivery of
   * the sessions it had at the start: the convergence of the streams is that of the webhooks.
   */
  lemma PlannedIsADelivery(db: Db, account: Id, steps: seq<Step>, c: Config, w: Webhook, fetched: Fetched)
    requires Inv(db) && Deliveries(db, account, steps) && w.vendorData == Some(account)
    requires var plan := Plan(After(db, steps), c, w, fetched); plan.Some? && !plan.value.UnmatchedStep?
    ensures FromSession(db.rows[account], Plan(After(db, steps), c, w, fetched).value)
  {
    hide Plan, After, Inv, Deliveries, Settle, Converged;
    EveryOrderConverges(BaselineSession, db, account, steps);
    PlannedIsCorrelated(After(db, steps), c, w, fetched);
    SameSessions(db.rows[account], After(db, steps).rows[account], account);
  }
}
