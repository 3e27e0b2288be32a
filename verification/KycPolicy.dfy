/** The policy that turns one provider status and decision into an eligibility outcome. */
module KycPolicy {
  import opened Base
  import opened Calendar

  datatype DiditStatus =
    | NotStarted | InProgress | InReview | Approved | Declined
    | Resubmitted | Expired | Abandoned | KycExpired | AwaitingUser

  datatype EligibilityState =
    | StateNotStarted | StateInProgress | PendingManualReview | Eligible
    | UnsupportedJurisdiction | NotEligible | RequiresRenewal | SuspendedRestricted

  datatype Substatus =
    | KycNotStarted | SessionCreating | SessionCreationFailed | SessionOpen | KycPending
    | ResubmissionPending | ManualReview | VerifiedPendingPolicyEval | Verified
    | VerifiedOwnerPoaMissing | JurisdictionBlocked | KycFailed | RestartRequired
    | ReverificationRequired | Restricted | IntegrationAnomaly

  datatype Reason =
    | SessionIsOpen | SessionPending | ResubmissionRequired | ManualReviewNeeded
    | SessionExpired | SessionAbandoned | Reverification | ProviderStatusAnomaly
    | IdDocumentInvalid | IdDocumentExpired | IdDocumentTamperSuspected | IdentityDataMismatch
    | BiometricFaceMismatch | BiometricLivenessFail | AmlSanctionsHit | AmlPepReview
    | AmlAdverseMediaReview | JurisdictionUnsupported | AgeUnder18 | BaselineApproved
    | SessionStarted | AddressSessionStarted | RenewalDue
    | AddressPending | AddressInsufficient | AddressMissing | AddressApproved

  /** A checked feature: its status and the risk of each warning on it. */
  datatype Feature = Feature(status: string, warnings: seq<Option<string>>)

  datatype Identity = Identity(feature: Feature, dateOfBirth: Option<string>)

  datatype Aml = Aml(feature: Feature, totalHits: Option<int>)

  datatype AddressDocument = AddressDocument(feature: Feature, issueDate: Option<string>, countryCode: Option<string>)

  datatype Decision = Decision(
    identities: seq<Identity>,
    liveness: seq<Feature>,
    faceMatches: seq<Feature>,
    screenings: seq<Aml>,
    addressDocuments: seq<AddressDocument>)

  datatype PolicyOutcome = PolicyOutcome(
    state: EligibilityState,
    substatus: Substatus,
    reason: Reason,
    lastVerifiedAt: Option<int>,
    renewalDueAt: Option<int>,
    everReviewed: bool)

  const APPROVED := "Approved"

  const SUPPORTED_COUNTRIES := {
    "AT", "BE", "BG", "HR", "CY", "CZ", "DK", "EE", "FI", "FR", "DE",
    "GR", "HU", "IE", "IT", "LV", "LT", "LU", "MT", "NL", "PL", "PT",
    "RO", "SK", "SI", "ES", "SE", "IS", "LI", "NO" }

  predicate IsSupported(country: Option<string>) {
    country.Some? && country.value in SUPPORTED_COUNTRIES
  }

  predicate IsManualReviewReason(r: Reason) {
    || r.IdDocumentTamperSuspected? || r.BiometricFaceMismatch? || r.IdentityDataMismatch?
    || r.AmlSanctionsHit? || r.AmlPepReview? || r.AmlAdverseMediaReview?
  }

  // ---- Warning texts ----

  /** String.prototype.toUpperCase, for every character whose upper case holds an ASCII letter. */
  function UpperChar(c: char): string {
    if 'a' <= c <= 'z' then [(c as int - 32) as char]
    else if c == '\U{DF}' then "SS"
    else if c == '\U{131}' then "I"
    else if c == '\U{17F}' then "S"
    else if c == '\U{FB00}' then "FF"
    else if c == '\U{FB01}' then "FI"
    else if c == '\U{FB02}' then "FL"
    else if c == '\U{FB03}' then "FFI"
    else if c == '\U{FB04}' then "FFL"
    else if c == '\U{FB05}' || c == '\U{FB06}' then "ST"
    else if c == '\U{149}' then "\U{2BC}N"
    else if c == '\U{1F0}' then "J\U{30C}"
    else if c == '\U{1E96}' then "H\U{331}"
    else if c == '\U{1E97}' then "T\U{308}"
    else if c == '\U{1E98}' then "W\U{30A}"
    else if c == '\U{1E99}' then "Y\U{30A}"
    else if c == '\U{1E9A}' then "A\U{2BE}"
    else [c]
  }

  function Upper(s: string): string {
    if s == [] then [] else UpperChar(s[0]) + Upper(s[1..])
  }

  predicate Includes(s: string, part: string) {
    |part| <= |s| && (s[..|part|] == part || (s != [] && Includes(s[1..], part)))
  }

  predicate AnyRisk(features: seq<Feature>, part: string) {
    exists i, j :: 0 <= i < |features| && 0 <= j < |features[i].warnings|
      && features[i].warnings[j].Some? && Includes(Upper(features[i].warnings[j].value), part)
  }

  function WarningReason(features: seq<Feature>, fallback: Reason): Reason {
    if AnyRisk(features, "SANCTION") then AmlSanctionsHit
    else if AnyRisk(features, "ADVERSE") then AmlAdverseMediaReview
    else if AnyRisk(features, "PEP") then AmlPepReview
    else if AnyRisk(features, "TAMPER") then IdDocumentTamperSuspected
    else if AnyRisk(features, "FACE") || AnyRisk(features, "MATCH") then BiometricFaceMismatch
    else if AnyRisk(features, "LIVENESS") then BiometricLivenessFail
    else if AnyRisk(features, "EXPIRED") then IdDocumentExpired
    else fallback
  }

  function IdentityFeatures(s: seq<Identity>): seq<Feature> {
    seq(|s|, i requires 0 <= i < |s| => s[i].feature)
  }

  function AmlFeatures(s: seq<Aml>): seq<Feature> {
    seq(|s|, i requires 0 <= i < |s| => s[i].feature)
  }

  function DecisionReason(decision: Option<Decision>, fallback: Reason): Reason {
    match decision
    case None => fallback
    case Some(d) =>
      WarningReason(IdentityFeatures(d.identities) + d.liveness + d.faceMatches + AmlFeatures(d.screenings), fallback)
  }

  // ---- The outcome ----

  function Outcome(state: EligibilityState, substatus: Substatus, reason: Reason): PolicyOutcome {
    PolicyOutcome(state, substatus, reason, None, None, false)
  }

  function ReviewOrFail(reason: Reason): PolicyOutcome {
    if IsManualReviewReason(reason) then Outcome(PendingManualReview, ManualReview, reason)
    else Outcome(NotEligible, KycFailed, reason)
  }

  predicate IsAdult(dateOfBirth: string, at: int) {
    IsIsoDate(dateOfBirth) &&
    MS_PER_DAY * Utc(YearOf(dateOfBirth) + 18, MonthIn(dateOfBirth) - 1, DateIn(dateOfBirth)) <= at
  }

  predicate AllApproved(features: seq<Feature>) {
    forall i :: 0 <= i < |features| ==> features[i].status == APPROVED
  }

  predicate ScreeningClear(a: Aml) {
    a.feature.status == APPROVED && (a.totalHits.Some? ==> a.totalHits.value <= 0)
  }

  /** The first identity check that is not approved. */
  function FirstFailedIdentity(s: seq<Identity>): (r: Option<Identity>)
    ensures r.None? <==> AllApproved(IdentityFeatures(s))
  {
    if s == [] then None
    else if s[0].feature.status != APPROVED then
      assert IdentityFeatures(s)[0].status != APPROVED;
      Some(s[0])
    else
      var rest := IdentityFeatures(s[1..]);
      assert IdentityFeatures(s) == [s[0].feature] + rest;
      assert forall i :: 0 <= i < |rest| ==> IdentityFeatures(s)[i + 1] == rest[i];
      FirstFailedIdentity(s[1..])
  }

  predicate NoDateOfBirth(s: seq<Identity>) {
    forall i :: 0 <= i < |s| ==> s[i].dateOfBirth.None?
  }

  predicate KnownDatesAdult(s: seq<Identity>, at: int) {
    forall i :: 0 <= i < |s| && s[i].dateOfBirth.Some? ==> IsAdult(s[i].dateOfBirth.value, at)
  }

  /** Everything an approval has to show before an account becomes eligible. */
  predicate FullyVerified(d: Decision, at: int) {
    && d.identities != [] && AllApproved(IdentityFeatures(d.identities))
    && d.liveness != [] && AllApproved(d.liveness)
    && d.faceMatches != [] && AllApproved(d.faceMatches)
    && d.screenings != [] && (forall i :: 0 <= i < |d.screenings| ==> ScreeningClear(d.screenings[i]))
    && !NoDateOfBirth(d.identities) && KnownDatesAdult(d.identities, at)
  }

  // What every outcome looks like before the renewal date is layered on.
  predicate BeforeRenewal(o: PolicyOutcome, at: int) {
    && (o.state.Eligible? <==> o.substatus.VerifiedOwnerPoaMissing?)
    && !o.substatus.Verified? && !o.substatus.SessionCreating?
    && o.lastVerifiedAt == (if o.state.Eligible? then Some(at) else None)
    && o.renewalDueAt.None?
  }

  // The checks of a decision, in the order they are made.
  function EvaluateChecks(d: Decision, at: int): (o: PolicyOutcome)
    ensures BeforeRenewal(o, at)
    ensures o.state.Eligible? <==> FullyVerified(d, at)
  {
    hide WarningReason, IsAdult, FirstFailedIdentity, AmlFeatures, ScreeningClear, IsManualReviewReason;
    if d.identities == [] || d.liveness == [] || d.faceMatches == [] || d.screenings == [] then
      Outcome(PendingManualReview, IntegrationAnomaly, ProviderStatusAnomaly)
    else
      var failed := FirstFailedIdentity(d.identities);
      if failed.Some? then ReviewOrFail(WarningReason([failed.value.feature], IdDocumentInvalid))
      else if !AllApproved(d.liveness) then Outcome(NotEligible, KycFailed, BiometricLivenessFail)
      else if !AllApproved(d.faceMatches) then Outcome(PendingManualReview, ManualReview, BiometricFaceMismatch)
      else if exists i :: 0 <= i < |d.screenings| && !ScreeningClear(d.screenings[i]) then
        Outcome(PendingManualReview, ManualReview, WarningReason(AmlFeatures(d.screenings), AmlPepReview))
      else if NoDateOfBirth(d.identities) then Outcome(PendingManualReview, IntegrationAnomaly, ProviderStatusAnomaly)
      else if !KnownDatesAdult(d.identities, at) then Outcome(NotEligible, KycFailed, AgeUnder18)
      else PolicyOutcome(Eligible, VerifiedOwnerPoaMissing, BaselineApproved, Some(at), None, false)
  }

  function EvaluateApproved(
    decision: Option<Decision>, residence: Option<string>, tax: Option<string>, at: int): (o: PolicyOutcome)
    ensures BeforeRenewal(o, at)
    ensures o.state.Eligible? <==>
              IsSupported(residence) && IsSupported(tax) && decision.Some? && FullyVerified(decision.value, at)
  {
    hide IsSupported, FullyVerified, EvaluateChecks;
    if !IsSupported(residence) || !IsSupported(tax) then
      Outcome(UnsupportedJurisdiction, JurisdictionBlocked, JurisdictionUnsupported)
    else if decision.None? then Outcome(PendingManualReview, IntegrationAnomaly, ProviderStatusAnomaly)
    else EvaluateChecks(decision.value, at)
  }

  function EvaluateStatus(
    status: Option<DiditStatus>, decision: Option<Decision>, residence: Option<string>, tax: Option<string>,
    at: int): (o: PolicyOutcome)
    ensures BeforeRenewal(o, at)
    ensures o.state.Eligible? <==>
              && status == Some(Approved) && IsSupported(residence) && IsSupported(tax)
              && decision.Some? && FullyVerified(decision.value, at)
  {
    hide IsSupported, WarningReason, DecisionReason, EvaluateApproved, FullyVerified;
    match status
    case Some(NotStarted) => Outcome(StateNotStarted, SessionOpen, SessionIsOpen)
    case Some(InProgress) => Outcome(StateInProgress, KycPending, SessionPending)
    case Some(Resubmitted) => Outcome(StateInProgress, ResubmissionPending, ResubmissionRequired)
    case Some(InReview) => Outcome(PendingManualReview, ManualReview, DecisionReason(decision, ManualReviewNeeded))
    case Some(Expired) => Outcome(StateNotStarted, RestartRequired, SessionExpired)
    case Some(Abandoned) => Outcome(StateNotStarted, RestartRequired, SessionAbandoned)
    case Some(KycExpired) => Outcome(RequiresRenewal, ReverificationRequired, Reverification)
    case Some(AwaitingUser) => Outcome(PendingManualReview, IntegrationAnomaly, ProviderStatusAnomaly)
    case None => Outcome(PendingManualReview, IntegrationAnomaly, ProviderStatusAnomaly)
    case Some(Declined) => ReviewOrFail(DecisionReason(decision, IdDocumentInvalid))
    case Some(Approved) => EvaluateApproved(decision, residence, tax, at)
  }

  function RenewalMonths(everReviewed: bool): int { if everReviewed then 12 else 24 }

  function Evaluate(
    status: Option<DiditStatus>, decision: Option<Decision>, residence: Option<string>, tax: Option<string>,
    at: int, everReviewed: bool): (o: PolicyOutcome)
    ensures o.state.Eligible? <==> o.substatus.Verified? || o.substatus.VerifiedOwnerPoaMissing?
    ensures !o.substatus.Verified? && !o.substatus.SessionCreating?
    ensures o.state.Eligible? ==>
              o.lastVerifiedAt == Some(at) && o.renewalDueAt == Some(AddMonths(at, RenewalMonths(o.everReviewed)))
    ensures !o.state.Eligible? ==> o.lastVerifiedAt.None? && o.renewalDueAt.None?
    ensures o.everReviewed == (everReviewed || o.substatus.ManualReview?)
  {
    hide EvaluateStatus, AddMonths;
    var base := EvaluateStatus(status, decision, residence, tax, at);
    var ever := everReviewed || base.substatus.ManualReview?;
    if !base.state.Eligible? then base.(everReviewed := ever)
    else base.(renewalDueAt := Some(AddMonths(at, RenewalMonths(ever))), everReviewed := ever)
  }

  lemma EligibleIff(
    status: Option<DiditStatus>, decision: Option<Decision>, residence: Option<string>, tax: Option<string>,
    at: int, everReviewed: bool)
    ensures Evaluate(status, decision, residence, tax, at, everReviewed).state.Eligible? <==>
            && status == Some(Approved) && IsSupported(residence) && IsSupported(tax)
            && decision.Some? && FullyVerified(decision.value, at)
  {
    hide IsSupported, EvaluateStatus, FullyVerified;
  }

  /** The state an outcome carries does not depend on the review flag. */
  lemma FlagOnlyMovesRenewal(
    status: Option<DiditStatus>, decision: Option<Decision>, residence: Option<string>, tax: Option<string>,
    at: int, a: bool, b: bool)
    ensures Evaluate(status, decision, residence, tax, at, a).(renewalDueAt := None, everReviewed := false)
         == Evaluate(status, decision, residence, tax, at, b).(renewalDueAt := None, everReviewed := false)
  {
  }

  // ---- Renewal dates ----

  predicate IsRenewalOverdue(renewalDueAt: int, now: int) { renewalDueAt < now }

  predicate IsRenewalReminderDue(renewalDueAt: int, today: int, leadDays: int) {
    renewalDueAt / MS_PER_DAY - leadDays == today / MS_PER_DAY
  }
}
