/** What each eligibility state, substatus and reason says about the provider's answer, for every input. */
module KycOutcomes {
  import opened Base
  import opened KycPolicy
  import opened AddressPolicy
  import opened KycDb

  // ---- Warnings ----

  predicate Mentions(f: Feature, part: string) {
    exists j :: 0 <= j < |f.warnings| && f.warnings[j].Some? && Includes(Upper(f.warnings[j].value), part)
  }

  /** A character is the capital letter or its small one. */
  predicate IsLetter(c: char, capital: char) { c == capital || c as int == capital as int + 32 }

  lemma {:induction false} UpperOfAscii(s: string)
    requires forall i :: 0 <= i < |s| ==> s[i] < '\U{80}'
    ensures |Upper(s)| == |s|
    ensures forall i, capital :: 0 <= i < |s| && 'A' <= capital <= 'Z' ==>
              (Upper(s)[i] == capital <==> IsLetter(s[i], capital))
  {
    if s != [] {
      UpperOfAscii(s[1..]);
      assert Upper(s) == UpperChar(s[0]) + Upper(s[1..]) && |UpperChar(s[0])| == 1;
    }
  }

  predicate HasAt(s: string, part: string, k: nat) { k <= |s| && part <= s[k..] }

  /** From this place on the text spells the word, each letter large or small. */
  predicate SpellsAt(s: string, word: string, k: nat) {
    k + |word| <= |s| && forall i :: 0 <= i < |word| ==> IsLetter(s[k + i], word[i])
  }

  lemma {:induction false} IncludesIff(s: string, part: string)
    ensures Includes(s, part) <==> exists k: nat :: HasAt(s, part, k)
  {
    if |part| <= |s| && s[..|part|] == part { assert s[0..] == s && HasAt(s, part, 0); }
    if s != [] {
      IncludesIff(s[1..], part);
      if k: nat :| HasAt(s[1..], part, k) {
        assert s[1..][k..] == s[k + 1..];
        assert HasAt(s, part, k + 1);
      }
      if k: nat :| HasAt(s, part, k) {
        if k > 0 { assert s[1..][k - 1..] == s[k..] && HasAt(s[1..], part, k - 1); } else { assert s[0..] == s; }
      }
    }
  }

  lemma SpellsIff(s: string, word: string, k: nat)
    requires forall i :: 0 <= i < |s| ==> s[i] < '\U{80}'
    requires forall i :: 0 <= i < |word| ==> 'A' <= word[i] <= 'Z'
    ensures HasAt(Upper(s), word, k) <==> SpellsAt(s, word, k)
  {
    hide Upper, IsLetter;
    UpperOfAscii(s);
    var t := Upper(s);
    if k + |word| <= |s| {
      assert forall i :: 0 <= i < |word| ==> t[k..][i] == t[k + i];
    }
  }

  /** A warning mentions a risk when it spells the word somewhere, in whatever case. */
  lemma SpelledInAnyCase(s: string, word: string)
    requires forall i :: 0 <= i < |s| ==> s[i] < '\U{80}'
    requires forall i :: 0 <= i < |word| ==> 'A' <= word[i] <= 'Z'
    ensures Includes(Upper(s), word) <==> exists k: nat :: SpellsAt(s, word, k)
  {
    hide Includes, Upper, SpellsAt, HasAt;
    UpperOfAscii(s);
    IncludesIff(Upper(s), word);
    forall k: nat ensures HasAt(Upper(s), word, k) <==> SpellsAt(s, word, k) { SpellsIff(s, word, k); }
  }

  /** A warning on the feature calls for the reason. */
  predicate CallsFor(f: Feature, r: Reason) {
    match r
    case AmlSanctionsHit => Mentions(f, "SANCTION")
    case AmlAdverseMediaReview => Mentions(f, "ADVERSE")
    case AmlPepReview => Mentions(f, "PEP")
    case IdDocumentTamperSuspected => Mentions(f, "TAMPER")
    case BiometricFaceMismatch => Mentions(f, "FACE") || Mentions(f, "MATCH")
    case BiometricLivenessFail => Mentions(f, "LIVENESS")
    case IdDocumentExpired => Mentions(f, "EXPIRED")
    case _ => false
  }

  /** How grave a reason read off a warning is, the gravest first. */
  function Gravity(r: Reason): nat {
    match r
    case AmlSanctionsHit => 0
    case AmlAdverseMediaReview => 1
    case AmlPepReview => 2
    case IdDocumentTamperSuspected => 3
    case BiometricFaceMismatch => 4
    case BiometricLivenessFail => 5
    case IdDocumentExpired => 6
    case _ => 7
  }

  lemma AnyRiskIff(features: seq<Feature>, part: string)
    ensures AnyRisk(features, part) <==> exists f :: f in features && Mentions(f, part)
  {
    if AnyRisk(features, part) {
      var i, j :| 0 <= i < |features| && 0 <= j < |features[i].warnings|
        && features[i].warnings[j].Some? && Includes(Upper(features[i].warnings[j].value), part);
      assert features[i] in features && Mentions(features[i], part);
    }
  }

  lemma EveryRisk(features: seq<Feature>)
    ensures forall part :: AnyRisk(features, part) <==> exists f :: f in features && Mentions(f, part)
  {
    hide AnyRisk, Mentions;
    forall part ensures AnyRisk(features, part) <==> exists f :: f in features && Mentions(f, part) {
      AnyRiskIff(features, part);
    }
  }

  /** The reason read off the warnings is one they call for, and none of them calls for a graver one. */
  lemma ReasonIsGravest(features: seq<Feature>, fallback: Reason)
    ensures var r := WarningReason(features, fallback);
            && (r == fallback || exists f :: f in features && CallsFor(f, r))
            && forall f, called :: f in features && CallsFor(f, called) ==> Gravity(r) <= Gravity(called)
  {
    hide AnyRisk, Mentions;
    EveryRisk(features);
  }

  lemma FromWarningOrFallback(features: seq<Feature>)
    ensures forall fallback :: var r := WarningReason(features, fallback); r == fallback || Gravity(r) < 7
  {
    hide AnyRisk;
  }

  /** A failed check goes to a person exactly when a warning on it asks for one. */
  predicate WantsReview(f: Feature) {
    || CallsFor(f, AmlSanctionsHit) || CallsFor(f, AmlAdverseMediaReview) || CallsFor(f, AmlPepReview)
    || CallsFor(f, IdDocumentTamperSuspected) || CallsFor(f, BiometricFaceMismatch)
  }

  lemma ReviewedIff(features: seq<Feature>)
    ensures IsManualReviewReason(WarningReason(features, IdDocumentInvalid)) <==>
              exists f :: f in features && WantsReview(f)
  {
    hide AnyRisk, Mentions;
    EveryRisk(features);
  }

  // ---- What a decision shows ----

  /** A feature of the decision that a declined session's reason is read off. */
  ghost predicate IsFeatureOf(f: Feature, d: Decision) {
    || (exists i :: 0 <= i < |d.identities| && d.identities[i].feature == f)
    || f in d.liveness || f in d.faceMatches
    || exists i :: 0 <= i < |d.screenings| && d.screenings[i].feature == f
  }

  ghost predicate AnyWantsReview(decision: Option<Decision>) {
    decision.Some? && exists f :: IsFeatureOf(f, decision.value) && WantsReview(f)
  }

  /** The eighteenth birthday, on the calendar, has come; 29 February counts as 1 March. */
  predicate IsOfAge(dateOfBirth: string, at: int) {
    && Calendar.IsIsoDate(dateOfBirth)
    && at >= Calendar.MS_PER_DAY * (
         Calendar.MonthStart(12 * (Calendar.YearOf(dateOfBirth) + 18) + Calendar.MonthIn(dateOfBirth) - 1)
         + Calendar.DateIn(dateOfBirth) - 1)
  }

  lemma AdultIff(dateOfBirth: string, at: int)
    ensures IsAdult(dateOfBirth, at) <==> IsOfAge(dateOfBirth, at)
  {
    hide Calendar.MonthStart, Calendar.MonthOf, Calendar.Digits, Calendar.LengthOnCalendar;
    if Calendar.IsIsoDate(dateOfBirth) {
      DigitsAreNatural(dateOfBirth[..4]);
      Calendar.ReadsBackIff(
        Calendar.YearOf(dateOfBirth), Calendar.MonthIn(dateOfBirth) - 1, Calendar.DateIn(dateOfBirth));
    }
  }

  lemma FeatureStatuses(d: Decision)
    ensures (forall f :: IsFeatureOf(f, d) ==> f.status == "Approved") <==>
            && AllApproved(IdentityFeatures(d.identities)) && AllApproved(d.liveness) && AllApproved(d.faceMatches)
            && forall i :: 0 <= i < |d.screenings| ==> d.screenings[i].feature.status == "Approved"
  {
    if forall f :: IsFeatureOf(f, d) ==> f.status == "Approved" {
      forall i | 0 <= i < |d.identities| ensures d.identities[i].feature.status == "Approved" {
        assert IsFeatureOf(d.identities[i].feature, d);
      }
      forall i | 0 <= i < |d.screenings| ensures d.screenings[i].feature.status == "Approved" {
        assert IsFeatureOf(d.screenings[i].feature, d);
      }
      forall i | 0 <= i < |d.liveness| ensures d.liveness[i].status == "Approved" {
        assert IsFeatureOf(d.liveness[i], d);
      }
      forall i | 0 <= i < |d.faceMatches| ensures d.faceMatches[i].status == "Approved" {
        assert IsFeatureOf(d.faceMatches[i], d);
      }
    } else {
      var f :| IsFeatureOf(f, d) && f.status != "Approved";
      if i :| 0 <= i < |d.identities| && d.identities[i].feature == f {
        assert IdentityFeatures(d.identities)[i] == f;
      }
    }
  }

  /** What passes: every check there and approved, no screening with a hit, a birth date, and nobody under eighteen. */
  lemma FullyVerifiedIff(d: Decision, at: int)
    ensures FullyVerified(d, at) <==>
            && d.identities != [] && d.liveness != [] && d.faceMatches != [] && d.screenings != []
            && (forall f :: IsFeatureOf(f, d) ==> f.status == "Approved")
            && (forall a :: a in d.screenings ==> a.totalHits == None || a.totalHits.value <= 0)
            && (exists p :: p in d.identities && p.dateOfBirth != None)
            && (forall p :: p in d.identities && p.dateOfBirth != None ==> IsOfAge(p.dateOfBirth.value, at))
  {
    hide IsAdult, IsOfAge;
    forall s ensures IsAdult(s, at) <==> IsOfAge(s, at) { AdultIff(s, at); }
    FeatureStatuses(d);
  }

  predicate HasEveryCheck(d: Decision) {
    d.identities != [] && d.liveness != [] && d.faceMatches != [] && d.screenings != []
  }

  predicate IsFirstFailed(s: seq<Identity>, i: nat) {
    i < |s| && s[i].feature.status != APPROVED && forall j :: 0 <= j < i ==> s[j].feature.status == APPROVED
  }

  /** The first identity check that is not approved carries no warning for a person. */
  ghost predicate IdentityRejected(s: seq<Identity>) {
    exists i: nat :: IsFirstFailed(s, i) && !WantsReview(s[i].feature)
  }

  predicate IdentitiesApproved(s: seq<Identity>) {
    forall i :: 0 <= i < |s| ==> s[i].feature.status == APPROVED
  }

  /** The checks of an approved session that turn the account down for good. */
  ghost predicate Rejected(d: Decision, at: int) {
    && HasEveryCheck(d)
    && (|| IdentityRejected(d.identities)
        || (IdentitiesApproved(d.identities) && !AllApproved(d.liveness))
        || (IdentitiesApproved(d.identities) && AllApproved(d.liveness) && AllApproved(d.faceMatches)
            && (forall i :: 0 <= i < |d.screenings| ==> ScreeningClear(d.screenings[i]))
            && exists i :: 0 <= i < |d.identities| && d.identities[i].dateOfBirth.Some?
                        && !IsAdult(d.identities[i].dateOfBirth.value, at)))
  }

  /** An approved session that says too little to judge: a check is missing, or all is clear but no birth date. */
  ghost predicate Incomplete(d: Decision) {
    || !HasEveryCheck(d)
    || (&& IdentitiesApproved(d.identities) && AllApproved(d.liveness) && AllApproved(d.faceMatches)
        && (forall i :: 0 <= i < |d.screenings| ==> ScreeningClear(d.screenings[i]))
        && forall i :: 0 <= i < |d.identities| ==> d.identities[i].dateOfBirth.None?)
  }

  lemma {:induction false} FirstFailedIs(s: seq<Identity>)
    ensures FirstFailedIdentity(s).None? <==> IdentitiesApproved(s)
    ensures forall i: nat :: IsFirstFailed(s, i) ==> FirstFailedIdentity(s) == Some(s[i])
    ensures FirstFailedIdentity(s).Some? ==> exists i: nat :: IsFirstFailed(s, i)
  {
    if s != [] && s[0].feature.status == APPROVED {
      var rest := s[1..];
      FirstFailedIs(rest);
      assert forall i :: 0 < i < |s| ==> s[i] == rest[i - 1];
      forall i: nat | IsFirstFailed(s, i) ensures FirstFailedIdentity(s) == Some(s[i]) {
        assert forall j :: 0 <= j < i - 1 ==> rest[j] == s[j + 1];
        assert IsFirstFailed(rest, i - 1);
      }
      if k: nat :| IsFirstFailed(rest, k) { assert IsFirstFailed(s, k + 1); }
      forall i | 0 <= i < |rest| ensures rest[i] == s[i + 1] { }
    } else if s != [] {
      assert IsFirstFailed(s, 0);
    }
  }

  lemma IdentityRejectedIff(s: seq<Identity>)
    ensures var f := FirstFailedIdentity(s);
            && (f.None? <==> IdentitiesApproved(s))
            && (IdentityRejected(s) <==> f.Some? && !WantsReview(f.value.feature))
  {
    hide FirstFailedIdentity, WantsReview, IsFirstFailed, IdentitiesApproved;
    FirstFailedIs(s);
  }

  // ---- States ----

  lemma ChecksStateIff(d: Decision, at: int)
    ensures var o := EvaluateChecks(d, at);
            && (o.state.NotEligible? <==> Rejected(d, at))
            && (o.state.Eligible? || o.state.NotEligible? || o.state.PendingManualReview?)
            && (o.substatus.IntegrationAnomaly? <==> Incomplete(d))
            && (o.state.PendingManualReview? <==> o.substatus.IntegrationAnomaly? || o.substatus.ManualReview?)
            && (o.state.Eligible? <==> o.substatus.VerifiedOwnerPoaMissing?)
            && (o.state.NotEligible? <==> o.substatus.KycFailed?)
  {
    hide WarningReason, IsAdult, FirstFailedIdentity, WantsReview, ScreeningClear, IsManualReviewReason, AmlFeatures,
         IdentityRejected, IdentitiesApproved;
    IdentityRejectedIff(d.identities);
    var failed := FirstFailedIdentity(d.identities);
    if failed.Some? {
      ReviewedIff([failed.value.feature]);
      assert failed.value.feature in [failed.value.feature];
    }
  }

  ghost function FeaturesOf(d: Decision): (r: seq<Feature>)
    ensures forall f :: f in r <==> IsFeatureOf(f, d)
  {
    assert forall f :: f in IdentityFeatures(d.identities) <==>
                         exists i :: 0 <= i < |d.identities| && d.identities[i].feature == f by {
      forall i | 0 <= i < |d.identities| ensures IdentityFeatures(d.identities)[i] == d.identities[i].feature { }
    }
    assert forall f :: f in AmlFeatures(d.screenings) <==>
                         exists i :: 0 <= i < |d.screenings| && d.screenings[i].feature == f by {
      forall i | 0 <= i < |d.screenings| ensures AmlFeatures(d.screenings)[i] == d.screenings[i].feature { }
    }
    IdentityFeatures(d.identities) + d.liveness + d.faceMatches + AmlFeatures(d.screenings)
  }

  lemma DeclinedReviewedIff(decision: Option<Decision>)
    ensures IsManualReviewReason(DecisionReason(decision, IdDocumentInvalid)) <==> AnyWantsReview(decision)
  {
    hide WarningReason, WantsReview, IsFeatureOf;
    if decision.Some? { ReviewedIff(FeaturesOf(decision.value)); }
  }

  /** The states partition the inputs: each one's exact condition, in the provider's own terms. */
  lemma StateIff(
    status: Option<DiditStatus>, decision: Option<Decision>, residence: Option<string>, tax: Option<string>,
    at: int, everReviewed: bool)
    ensures var o := Evaluate(status, decision, residence, tax, at, everReviewed);
            var judged := status == Some(Approved) && IsSupported(residence) && IsSupported(tax);
            && (o.state.StateNotStarted? <==> status in {Some(NotStarted), Some(Expired), Some(Abandoned)})
            && (o.state.StateInProgress? <==> status in {Some(InProgress), Some(Resubmitted)})
            && (o.state.RequiresRenewal? <==> status == Some(KycExpired))
            && (o.state.UnsupportedJurisdiction? <==>
                  status == Some(Approved) && !(IsSupported(residence) && IsSupported(tax)))
            && (o.state.NotEligible? <==>
                  || (status == Some(Declined) && !AnyWantsReview(decision))
                  || (judged && decision.Some? && Rejected(decision.value, at)))
            && (o.state.PendingManualReview? <==>
                  || status in {Some(InReview), Some(AwaitingUser), None}
                  || (status == Some(Declined) && AnyWantsReview(decision))
                  || (judged && (decision.Some? ==>
                        !FullyVerified(decision.value, at) && !Rejected(decision.value, at))))
  {
    hide IsSupported, IsManualReviewReason, DecisionReason, EvaluateChecks, FullyVerified, Rejected, AnyWantsReview,
         Calendar.AddMonths;
    if status == Some(Declined) { DeclinedReviewedIff(decision); }
    if decision.Some? { ChecksStateIff(decision.value, at); }
  }

  /** The substatus tells the statuses of one state apart. */
  lemma SubstatusIff(
    status: Option<DiditStatus>, decision: Option<Decision>, residence: Option<string>, tax: Option<string>,
    at: int, everReviewed: bool)
    ensures var o := Evaluate(status, decision, residence, tax, at, everReviewed);
            && (o.substatus.SessionOpen? <==> status == Some(NotStarted))
            && (o.substatus.RestartRequired? <==> status == Some(Expired) || status == Some(Abandoned))
            && (o.substatus.KycPending? <==> status == Some(InProgress))
            && (o.substatus.ResubmissionPending? <==> status == Some(Resubmitted))
            && (o.substatus.ReverificationRequired? <==> o.state.RequiresRenewal?)
            && (o.substatus.JurisdictionBlocked? <==> o.state.UnsupportedJurisdiction?)
            && (o.substatus.KycFailed? <==> o.state.NotEligible?)
            && (o.substatus.VerifiedOwnerPoaMissing? <==> o.state.Eligible?)
            && (o.substatus.IntegrationAnomaly? <==>
                  || status == None || status == Some(AwaitingUser)
                  || (status == Some(Approved) && IsSupported(residence) && IsSupported(tax)
                      && (decision.Some? ==> Incomplete(decision.value))))
            && (o.substatus.ManualReview? <==> o.state.PendingManualReview? && !o.substatus.IntegrationAnomaly?)
            && !o.substatus.KycNotStarted? && !o.substatus.SessionCreationFailed?
  {
    hide IsSupported, IsManualReviewReason, DecisionReason, EvaluateChecks, FullyVerified, Rejected, Incomplete,
         Calendar.AddMonths;
    if decision.Some? { ChecksStateIff(decision.value, at); }
  }

  /** The reason an outcome gives is the true one. */
  lemma ReasonIff(
    status: Option<DiditStatus>, decision: Option<Decision>, residence: Option<string>, tax: Option<string>,
    at: int, everReviewed: bool)
    ensures var o := Evaluate(status, decision, residence, tax, at, everReviewed);
            && (o.reason.SessionIsOpen? <==> status == Some(NotStarted))
            && (o.reason.SessionPending? <==> status == Some(InProgress))
            && (o.reason.ResubmissionRequired? <==> status == Some(Resubmitted))
            && (o.reason.SessionExpired? <==> status == Some(Expired))
            && (o.reason.SessionAbandoned? <==> status == Some(Abandoned))
            && (o.reason.Reverification? <==> status == Some(KycExpired))
            && (o.reason.JurisdictionUnsupported? <==> o.state.UnsupportedJurisdiction?)
            && (o.reason.BaselineApproved? <==> o.state.Eligible?)
            && (o.reason.ProviderStatusAnomaly? <==> o.substatus.IntegrationAnomaly?)
            && (o.state.NotEligible? ==> CanFail(o.reason))
            && (o.reason.AgeUnder18? ==>
                  && status == Some(Approved) && decision.Some? && IdentitiesApproved(decision.value.identities)
                  && !KnownDatesAdult(decision.value.identities, at))
  {
    hide IsSupported, DecisionReason, EvaluateChecks, FullyVerified, Calendar.AddMonths, KnownDatesAdult, CanFail,
         IdentitiesApproved, IsManualReviewReason, Gravity;
    if status == Some(Approved) {
      if decision.Some? { ChecksReason(decision.value, at); }
    } else if status == Some(Declined) {
      DecidedReason(decision, IdDocumentInvalid);
    } else if status == Some(InReview) {
      DecidedReason(decision, ManualReviewNeeded);
    }
  }

  predicate CanFail(r: Reason) {
    r.IdDocumentInvalid? || r.IdDocumentExpired? || r.BiometricLivenessFail? || r.AgeUnder18?
  }

  /** The reason tells which status it came from. */
  predicate NamesStatus(r: Reason) {
    || r.SessionIsOpen? || r.SessionPending? || r.ResubmissionRequired? || r.SessionExpired? || r.SessionAbandoned?
    || r.Reverification? || r.JurisdictionUnsupported? || r.BaselineApproved? || r.ProviderStatusAnomaly?
  }

  lemma DecidedReason(decision: Option<Decision>, fallback: Reason)
    requires fallback.IdDocumentInvalid? || fallback.ManualReviewNeeded?
    ensures var r := DecisionReason(decision, fallback);
            !NamesStatus(r) && !r.AgeUnder18?
            && (fallback.IdDocumentInvalid? && !IsManualReviewReason(r) ==> CanFail(r))
  {
    hide WarningReason, IsFeatureOf;
    if decision.Some? { FromWarningOrFallback(FeaturesOf(decision.value)); }
  }

  lemma ChecksReason(d: Decision, at: int)
    ensures var o := EvaluateChecks(d, at);
            && (o.reason.BaselineApproved? <==> o.state.Eligible?) && !o.state.UnsupportedJurisdiction?
            && (o.reason.ProviderStatusAnomaly? <==> o.substatus.IntegrationAnomaly?)
            && (o.state.NotEligible? ==> CanFail(o.reason))
            && (o.reason.AgeUnder18? ==> IdentitiesApproved(d.identities) && !KnownDatesAdult(d.identities, at))
            && (NamesStatus(o.reason) ==> o.reason.BaselineApproved? || o.reason.ProviderStatusAnomaly?)
  {
    hide IsAdult, FirstFailedIdentity, ScreeningClear, WarningReason, AmlFeatures, IdentitiesApproved;
    IdentityRejectedIff(d.identities);
    FromWarningOrFallback(AmlFeatures(d.screenings));
    var failed := FirstFailedIdentity(d.identities);
    if failed.Some? { FromWarningOrFallback([failed.value.feature]); }
  }

  /** Whoever may start over has not started or needs renewal. */
  lemma RestartState(
    status: Option<DiditStatus>, decision: Option<Decision>, residence: Option<string>, tax: Option<string>,
    at: int, everReviewed: bool)
    ensures var o := Evaluate(status, decision, residence, tax, at, everReviewed);
            && !o.substatus.SessionCreating?
            && (CanStartSession(o.substatus) ==> o.state.StateNotStarted? || o.state.RequiresRenewal?)
            && !CanStartSession(VerifiedOwnerPoaMissing) && !CanStartSession(Verified)
  {
    hide IsSupported, IsManualReviewReason, DecisionReason, EvaluateChecks, FullyVerified, Calendar.AddMonths;
    if decision.Some? { ChecksStateIff(decision.value, at); }
    hide Rejected, Incomplete;
  }

  lemma RestartSubstatus(
    was: Row, status: Option<DiditStatus>, decision: Option<Decision>, at: int, everReviewed: bool)
    requires !IsStale(was.baseline.providerUpdatedAt, at)
    ensures var o := Evaluate(status, decision, was.residence, was.tax, at, everReviewed);
            CanStartSession(BaselineRow(was, status, at, o).baseline.substatus) <==>
              status in {Some(Expired), Some(Abandoned), Some(KycExpired)}
  {
    hide Evaluate, IsSupported, Incomplete, AnyWantsReview, Rejected, FullyVerified;
    SubstatusIff(status, decision, was.residence, was.tax, at, everReviewed);
    StateIff(status, decision, was.residence, was.tax, at, everReviewed);
  }

  /**
   * A row that takes an outcome, and is not beaten to it by a newer one, lets its account start over exactly
   * when the session expired, was abandoned, or its verification has lapsed.
   */
  lemma RestartableIff(
    db: Db, account: Id, was: Row, id: Id, residence: string, tax: string, startedAt: int,
    status: Option<DiditStatus>, decision: Option<Decision>, at: int, everReviewed: bool)
    requires account in db.accounts && account in db.rows && !IsStale(was.baseline.providerUpdatedAt, at)
    requires db.rows[account] == BaselineRow(was, status, at,
                                             Evaluate(status, decision, was.residence, was.tax, at, everReviewed))
    requires forall other :: other in db.rows && other != account ==> db.rows[other].baseline.startId != Some(id)
    ensures Reserve(db, account, id, residence, tax, startedAt).1 ==
              Done(status in {Some(Expired), Some(Abandoned), Some(KycExpired)})
  {
    hide Evaluate, BaselineRow, CanStartSession;
    RestartSubstatus(was, status, decision, at, everReviewed);
  }

  // ---- The owner's proof of address ----

  /** A document a person need not look at: approved without a warning, issued by then, for the declared country. */
  predicate IsClear(d: AddressDocument, residence: string, at: int) {
    && d.feature.status == "Approved" && d.feature.warnings == []
    && d.issueDate.Some? && Calendar.IsIsoDate(d.issueDate.value)
    && Calendar.MS_PER_DAY * DayIn(d.issueDate.value) <= at
    && d.countryCode.Some? && NormalizeCountry(d.countryCode) == Some(residence)
  }

  /** Three calendar months after its issue date the document is out of date. */
  predicate IsOutOfDate(d: AddressDocument, at: int) {
    d.issueDate.Some? && Calendar.IsIsoDate(d.issueDate.value)
    && at >= Calendar.MS_PER_DAY * AddMonthsClamped(DayIn(d.issueDate.value), 3)
  }

  lemma ClearIff(d: AddressDocument, residence: string, at: int)
    ensures IsClear(d, residence, at) <==> IsApproved(d) && IsUsable(d, residence, at)
    ensures IsClear(d, residence, at) ==> (IsOutOfDate(d, at) <==> FreshUntil(d) <= at)
  {
    hide AddMonthsClamped, DayIn, Upper, Calendar.IsIsoDate;
  }

  /** What the documents of an approved session amount to. */
  lemma DocumentsIff(docs: seq<AddressDocument>, residence: Option<string>, at: int)
    ensures var o := ApprovedOutcome(docs, residence, at);
            var judged := docs != [] && residence.Some?;
            && (o.status.AddressAnomaly? <==> !judged)
            && (o.status.AddressManualReview? <==> judged && exists d :: d in docs && !IsClear(d, residence.value, at))
            && (o.status.AddressExpired? <==>
                  && judged && (forall d :: d in docs ==> IsClear(d, residence.value, at))
                  && exists d :: d in docs && IsOutOfDate(d, at))
            && (o.status.Current? <==>
                  judged && forall d :: d in docs ==> IsClear(d, residence.value, at) && !IsOutOfDate(d, at))
  {
    hide IsClear, IsApproved, IsUsable, FreshUntil, Earliest, IsOutOfDate;
    if docs != [] && residence.Some? {
      forall d | d in docs
        ensures IsClear(d, residence.value, at) <==> IsApproved(d) && IsUsable(d, residence.value, at)
        ensures IsClear(d, residence.value, at) ==> (IsOutOfDate(d, at) <==> FreshUntil(d) <= at)
      {
        ClearIff(d, residence.value, at);
      }
      var until := Earliest(docs);
      var first :| first in docs && until == FreshUntil(first);
    }
  }

  function DocumentsOf(decision: Option<Decision>): seq<AddressDocument> {
    if decision.Some? then decision.value.addressDocuments else []
  }

  /** The address statuses partition the inputs, and each reason goes with its statuses. */
  lemma AddressStatusIff(status: Option<DiditStatus>, decision: Option<Decision>, residence: Option<string>, at: int)
    ensures var o, docs := EvaluateAddress(status, decision, residence, at), DocumentsOf(decision);
            var judged := status == Some(Approved) && docs != [] && residence.Some?;
            && (o.status.AddressInProgress? <==> status in {Some(NotStarted), Some(InProgress), Some(Resubmitted)})
            && (o.status.Insufficient? <==> status == Some(Declined))
            && (o.status.AddressRestartRequired? <==> status in {Some(Expired), Some(Abandoned), Some(KycExpired)})
            && (o.status.AddressAnomaly? <==>
                  || status in {Some(AwaitingUser), None}
                  || (status == Some(Approved) && (docs == [] || residence.None?)))
            && (o.status.AddressManualReview? <==>
                  status == Some(InReview) || (judged && exists d :: d in docs && !IsClear(d, residence.value, at)))
            && (o.status.AddressExpired? <==>
                  && judged && (forall d :: d in docs ==> IsClear(d, residence.value, at))
                  && exists d :: d in docs && IsOutOfDate(d, at))
            && (o.status.Current? <==>
                  judged && forall d :: d in docs ==> IsClear(d, residence.value, at) && !IsOutOfDate(d, at))
            && (o.reason.AddressPending? <==> o.status.AddressInProgress?)
            && (o.reason.AddressApproved? <==> o.status.Current?)
            && (o.reason.ProviderStatusAnomaly? <==> o.status.AddressAnomaly?)
            && (o.reason.AddressMissing? <==> o.status.AddressRestartRequired? || o.status.AddressExpired?)
            && (o.reason.AddressInsufficient? <==> o.status.Insufficient? || o.status.AddressManualReview?)
  {
    hide IsClear, IsApproved, IsUsable, FreshUntil, Earliest, IsOutOfDate;
    DocumentsIff(DocumentsOf(decision), residence, at);
  }

  /**
   * After an applied address outcome an eligible owner may start over exactly when no session is open or
   * under review and no document is still current.
   */
  lemma AddressRestartableIff(
    db: Db, account: Id, was: Row, id: Id, startedAt: int,
    status: Option<DiditStatus>, decision: Option<Decision>, at: int)
    requires account in db.accounts && account in db.rows && !IsStale(was.address.providerUpdatedAt, at)
    requires db.rows[account] ==
               AddressRow(was, status, at, EvaluateAddress(status, decision, was.residence, at))
    requires forall other :: other in db.rows && other != account ==> db.rows[other].address.startId != Some(id)
    ensures var o := EvaluateAddress(status, decision, was.residence, at);
            ReserveAddress(db, account, id, startedAt).1 == Done(
              && was.baseline.state.Eligible?
              && status !in {Some(NotStarted), Some(InProgress), Some(Resubmitted), Some(InReview)}
              && !o.status.AddressManualReview? && (o.status.Current? ==> o.currentUntil.value <= startedAt))
  {
    hide EvaluateAddress;
    AddressStatusIff(status, decision, was.residence, at);
    hide IsClear, IsOutOfDate;
  }

  // ---- Renewal dates ----

  /**
   * A verification is overdue from the millisecond after its renewal date, for good. Its reminder is due on
   * exactly one day: from midnight to midnight, the given number of days before the day of the renewal date.
   */
  lemma RenewalTimes(renewalDueAt: int, now: int, leadDays: int)
    ensures IsRenewalOverdue(renewalDueAt, now) <==> now >= renewalDueAt + 1
    ensures var midnight := renewalDueAt - renewalDueAt % Calendar.MS_PER_DAY - leadDays * Calendar.MS_PER_DAY;
            IsRenewalReminderDue(renewalDueAt, now, leadDays) <==> midnight <= now < midnight + 24 * 60 * 60 * 1000
  {
  }
}
