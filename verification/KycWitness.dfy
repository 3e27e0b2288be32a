/** Runs from the empty table in which a promise of the documentation does not hold. */
module KycWitness {
  import opened Base
  import opened Calendar
  import opened KycPolicy
  import opened AddressPolicy
  import opened KycDb
  import opened KycRuns
  import opened KycLease
  import opened KycStreams
  import opened KycServices
  import opened KycWebhook
  import opened KycHistory

  const CONFIG := Config("kyc", "app", "live", Some("poa"))

  function StatusUpdate(id: Id, session: Id, workflow: Id, status: string, createdAt: int): Webhook {
    Webhook(id, "status.updated", "app", "live", session, None, Some(workflow), Some("acct"), status, createdAt)
  }

  function Answer(session: Id, workflow: Id, status: DiditStatus, summary: Decision): Fetched {
    Fetched(session, false, Some("acct"), Some(workflow), Some(status), summary)
  }

  // ---- A run of steps, one by one ----

  lemma AfterTwo(db: Db, a: Step, b: Step)
    ensures After(db, [a, b]) == Do(Do(db, a).0, b).0
  {
    hide Do;
    assert [a, b][..1] == [a] && [a][..0] == [];
    assert After(db, [a]) == Do(After(db, []), a).0;
  }

  lemma AfterMore(db: Db, steps: seq<Step>, s: Step)
    ensures After(db, steps + [s]) == Do(After(db, steps), s).0
  {
    hide Do;
    assert (steps + [s])[..|steps|] == steps;
  }

  // ---- A start that stays where it is ----

  const COLLISION := [
    ReserveStep("a", "1", "DE", "DE", 1), CompleteStep("a", "1", "session", NotStarted, 2),
    ReserveStep("b", "2", "DE", "DE", 3), CompleteStep("b", "2", "session", NotStarted, 4)]

  const HELD :=
    Row(Some("DE"), Some("DE"),
        NO_BASELINE.(reference := Some("session"), providerStatus := Some(NotStarted), substatus := SessionOpen,
                     providerUpdatedAt := Some(2), startId := Some("1")),
        NO_ADDRESS, 2)

  const CREATING_ROW :=
      Row(Some("DE"), Some("DE"), NO_BASELINE.(substatus := SessionCreating, startId := Some("2")), NO_ADDRESS, 3)

  lemma FirstOpens()
    ensures var db := Do(Do(Empty({"a", "b"}), COLLISION[0]).0, COLLISION[1]).0;
            db.accounts == {"a", "b"} && db.rows == map["a" := HELD] && db.claimed == {StartedKey("session")}
  {
    var creating := HELD.baseline.(reference := None, providerStatus := None, substatus := SessionCreating,
        providerUpdatedAt := None);
    assert Do(Empty({"a", "b"}), COLLISION[0]).0.rows == map["a" := HELD.(baseline := creating, updatedAt := 1)];
  }

  lemma SecondReserves(db: Db)
    requires db.accounts == {"a", "b"} && db.rows == map["a" := HELD] && db.claimed == {StartedKey("session")}
    ensures var next := Do(db, COLLISION[2]).0;
            next == db.(rows := map["a" := HELD, "b" := CREATING_ROW])
  {
    assert "1" != "2" && "a" != "b";
  }

  /**
   * A second account is handed the session the first one holds: its completion aborts and its row
   * stays being created.
   */
  lemma StartCanStayCreating()
    ensures var db := After(Empty({"a", "b"}), COLLISION[..3]);
            && Collides(BaselineSession, db, "b", "2", "session")
            && Complete(db, "b", "2", "session", NotStarted, 4) == (db, Aborted)
            && CreatingUnder(BaselineSession, After(Empty({"a", "b"}), COLLISION), "2")
  {
    var start, s := Empty({"a", "b"}), COLLISION;
    FirstOpens();
    SecondReserves(Do(Do(start, s[0]).0, s[1]).0);
    AfterTwo(start, s[0], s[1]);
    AfterMore(start, s[..2], s[2]);
    AfterMore(start, s[..3], s[3]);
    assert s[..2] == [s[0], s[1]] && s[..3] == s[..2] + [s[2]] && s == s[..3] + [s[3]];
    hide After, Reserve;
    Stays(After(start, s[..3]));
  }

  lemma Stays(db: Db)
    requires db.rows == map["a" := HELD, "b" := CREATING_ROW] && db.claimed == {StartedKey("session")}
    ensures Collides(BaselineSession, db, "b", "2", "session")
              && Complete(db, "b", "2", "session", NotStarted, 4) == (db, Aborted)
    ensures Do(db, COLLISION[3]).0 == db && CreatingUnder(BaselineSession, db, "2")
  {
    assert IsCreating(db.rows["b"], "2");
  }

  // ---- One account with an open session ----

  const OPENING := [ReserveStep("acct", "start", "DE", "DE", 1),
      CompleteStep("acct", "start", "session", NotStarted, 2)]

  ghost function Opened(): Db { After(Empty({"acct"}), OPENING) }

  const OPEN_ROW :=
    Row(Some("DE"), Some("DE"),
        NO_BASELINE.(reference := Some("session"), providerStatus := Some(NotStarted), substatus := SessionOpen,
                     providerUpdatedAt := Some(2), startId := Some("start")),
        NO_ADDRESS, 2)

  lemma OpenedIs()
    ensures Opened().accounts == {"acct"} && Opened().rows == map["acct" := OPEN_ROW]
              && Opened().claimed == {StartedKey("session")}
    ensures Inv(Opened())
  {
    OpensRow();
    hide Do;
    EmptyIsInv({"acct"});
    EveryRunKeepsInv(Empty({"acct"}), OPENING);
    AfterTwo(Empty({"acct"}), OPENING[0], OPENING[1]);
  }

  lemma OpensRow()
    ensures var db := Do(Do(Empty({"acct"}), OPENING[0]).0, OPENING[1]).0;
            db.accounts == {"acct"} && db.rows == map["acct" := OPEN_ROW] && db.claimed == {StartedKey("session")}
  {
    var creating := OPEN_ROW.baseline.(reference := None, providerStatus := None, substatus := SessionCreating,
        providerUpdatedAt := None);
    assert Do(Empty({"acct"}), OPENING[0]).0.rows == map["acct" := OPEN_ROW.(baseline := creating, updatedAt := 1)];
  }

  // ---- The manual-review flag ----

  const NO_CHECKS := Decision([], [], [], [], [])

  function Review(): Step {
    OutcomeStep(WebhookKey("1"), "session", Some(InReview), Some(NO_CHECKS), 10_000, Some("DE"), Some("DE"), false)
  }

  function Resubmission(): Step {
    OutcomeStep(WebhookKey("2"), "session", Some(Resubmitted), None, 20_000, Some("DE"), Some("DE"), false)
  }

  // Both webhooks are planned on the same table: neither has been applied when the other is read.
  lemma BothArePlanned()
    ensures Plan(Opened(), CONFIG, StatusUpdate("1", "session", "kyc", "In Review", 10),
              Answer("session", "kyc", InReview, NO_CHECKS)) == Some(Review())
    ensures Plan(Opened(), CONFIG, StatusUpdate("2", "session", "kyc", "Resubmitted", 20),
              Answer("session", "kyc", Resubmitted, NO_CHECKS)) == Some(Resubmission())
  {
    hide After;
    OpenedIs();
    UniqueOfInv(Opened());
    HolderIs(Opened(), "session", "acct");
  }

  lemma ReviewIsApplied()
    ensures var db := Do(Opened(), Review()).0;
            && Flagged(db, "acct") && Inv(db) && db.claimed == {StartedKey("session"), WebhookKey("1")}
            && Holder(db, "session") == Some("acct") && db.rows["acct"].baseline.providerUpdatedAt == Some(10_000)
  {
    hide After;
    OpenedIs();
    UniqueOfInv(Opened());
    HolderIs(Opened(), "session", "acct");
    InvKept(Opened(), Review());
    UniqueOfInv(Do(Opened(), Review()).0);
    OutcomeRows(Opened(), Review());
    HoldersKept(Opened(), Review(), "session");
  }

  /**
   * The flag is not latched in every run: from the empty table one session is opened, two webhooks of
   * it are read together, the first one is under review, and the second, applied after it, clears the flag.
   */
  lemma FlagCanBeCleared()
    ensures Plan(Opened(), CONFIG, StatusUpdate("1", "session", "kyc", "In Review", 10),
              Answer("session", "kyc", InReview, NO_CHECKS)) == Some(Review())
    ensures Plan(Opened(), CONFIG, StatusUpdate("2", "session", "kyc", "Resubmitted", 20),
              Answer("session", "kyc", Resubmitted, NO_CHECKS)) == Some(Resubmission())
    ensures Flagged(After(Empty({"acct"}), OPENING + [Review()]), "acct")
    ensures !Flagged(After(Empty({"acct"}), OPENING + [Review()] + [Resubmission()]), "acct")
  {
    hide After, Do, Plan, Flagged, Inv;
    BothArePlanned();
    ReviewIsApplied();
    AfterMore(Empty({"acct"}), OPENING, Review());
    AfterMore(Empty({"acct"}), OPENING + [Review()], Resubmission());
    assert "1" != "2";
    FlagClearedIff(Do(Opened(), Review()).0, Resubmission(), "acct");
  }

  // ---- The two streams ----

  const PASSED := Feature("Approved", [])

  const ALL_PASSED := Decision([Identity(PASSED, Some("1990-01-01"))], [PASSED], [PASSED], [Aml(PASSED, None)], [])

  const ONE_PROOF := Decision([], [], [], [], [AddressDocument(PASSED, Some("2026-01-01"), Some("DE"))])

  // 2026-01-15, 2026-02-01, 2026-04-01 and 2026-05-01, in seconds.
  const MID_JANUARY := 1_768_435_200
  const FEBRUARY := 1_769_904_000
  const APRIL := 1_775_001_600
  const MAY := 1_777_593_600

  function Approval(id: Id, createdAt: int): Step {
    OutcomeStep(WebhookKey(id), "session", Some(Approved), Some(ALL_PASSED), 1000 * createdAt, Some("DE"), Some("DE"),
        false)
  }

  function Proof(): Step {
    AddressOutcomeStep(WebhookKey("3"), "proof", Some(Approved), Some(ONE_PROOF), 1000 * FEBRUARY, Some("DE"))
  }

  lemma OneMoreDigit(s: string)
    requires s != [] && forall i :: 0 <= i < |s| ==> IsDigit(s[i])
    ensures Digits(s) == 10 * Digits(s[..|s| - 1]) + (s[|s| - 1] as int - '0' as int)
  {
  }

  lemma FourDigits(s: string)
    requires |s| == 4 && forall i :: 0 <= i < 4 ==> IsDigit(s[i])
    ensures Digits(s) == 1000 * (s[0] as int - 48) + 100 * (s[1] as int - 48) + 10 * (s[2] as int - 48) +
              (s[3] as int - 48)
  {
    hide Digits;
    OneMoreDigit(s);
    assert s[..3][..2] == s[..2];
    OneMoreDigit(s[..3]);
    TwoDigits(s[..2]);
  }

  lemma TwoDigits(s: string)
    requires |s| == 2 && forall i :: 0 <= i < 2 ==> IsDigit(s[i])
    ensures Digits(s) == 10 * (s[0] as int - 48) + (s[1] as int - 48)
  {
    assert s[..1][..0] == [];
    assert Digits(s[..1]) == s[0] as int - 48;
  }

  // The first of a month, written as a date.
  lemma FirstOfMonth(s: string, year: int, month: int)
    requires IsIsoShape(s) && year > 99 && 1 <= month <= 12 && s[8] == '0' && s[9] == '1'
    requires 1000 * (s[0] as int - 48) + 100 * (s[1] as int - 48) + 10 * (s[2] as int - 48) + (s[3] as int - 48) == year
    requires 10 * (s[5] as int - 48) + (s[6] as int - 48) == month
    ensures YearOf(s) == year && MonthIn(s) == month && DateIn(s) == 1 && IsIsoDate(s)
  {
    hide MonthOf, MonthStart, Digits, ReadsBack;
    FourDigits(s[..4]);
    TwoDigits(s[5..7]);
    TwoDigits(s[8..]);
    ReadsBackIff(year, month - 1, 1);
  }

  lemma BirthdayIsRead(s: string)
    requires s == "1990-01-01"
    ensures IsIsoDate(s) && Utc(YearOf(s) + 18, MonthIn(s) - 1, DateIn(s)) == 13_879
  {
    hide IsIsoDate, YearOf, MonthIn, DateIn;
    FirstOfMonth(s, 1990, 1);
    assert MonthStart(24_096) == 13_879;
  }

  lemma ApprovalIsEligible(id: Id, createdAt: int)
    requires createdAt >= MID_JANUARY
    ensures OutcomeOf(Approval(id, createdAt)).state.Eligible?
  {
    hide MonthOf, MonthStart, Digits, IsIsoDate, Utc, YearOf, MonthIn, DateIn;
    BirthdayIsRead("1990-01-01");
    assert IsAdult("1990-01-01", 1000 * createdAt);
    assert ALL_PASSED.identities[0].dateOfBirth.Some?;
    EligibleIff(Some(Approved), Some(ALL_PASSED), Some("DE"), Some("DE"), 1000 * createdAt, false);
  }

  lemma IssueDateIsRead(s: string)
    requires s == "2026-01-01"
    ensures ParseIsoDate(Some(s)) == Some(20_454)
  {
    hide IsIsoDate, YearOf, MonthIn, DateIn, MonthOf;
    FirstOfMonth(s, 2026, 1);
    assert MonthStart(24_312) == 20_454;
  }

  lemma MonthsOf2026()
    ensures MonthStart(24_312) == 20_454 && MonthStart(24_313) == 20_485 && MonthStart(24_315) == 20_544
              && MonthStart(24_316) == 20_574
  {
    assert 24_312 / 12 == 24_313 / 12 == 24_315 / 12 == 24_316 / 12 == 2026;
    assert DaysBeforeYear(2026) == 739_982;
    hide DaysBeforeYear;
  }

  lemma ThreeMonthsLater(day: int)
    requires day == 20_454
    ensures AddMonthsClamped(day, 3) == 20_544
  {
    hide MonthStart, AddMonthsClamped, MonthOf;
    MonthsOf2026();
    MonthOfIsUnique(day, 24_312);
    ClampedDate(day, 3);
  }

  lemma CountryIsRead()
    ensures NormalizeCountry(Some("DE")) == Some("DE")
  {
    assert Upper("DE") == "DE";
  }

  // One approved document of the residence country is current until its own expiry.
  lemma OneDocument(d: AddressDocument, at: int, day: int, until: int)
    requires IsApproved(d) && ParseIsoDate(d.issueDate) == Some(day) && NormalizeCountry(d.countryCode) == Some("DE")
    requires AddMonthsClamped(day, 3) == until && MS_PER_DAY * day <= at < MS_PER_DAY * until
    ensures var o := ApprovedOutcome([d], Some("DE"), at);
            o.status.Current? && o.currentUntil == Some(MS_PER_DAY * until)
  {
    hide MonthOf, MonthStart, ParseIsoDate, AddMonthsClamped, NormalizeCountry, IsApproved, ApprovedOutcome;
    assert forall x :: x in [d] ==> x == d;
    CurrentIff([d], Some("DE"), at);
    CurrentUntilIsEarliest([d], Some("DE"), at);
  }

  lemma ProofIsCurrent()
    ensures AddressOutcomeOf(Proof()).status.Current? && AddressOutcomeOf(Proof()).currentUntil == Some(1000 * APRIL)
  {
    var d := AddressDocument(PASSED, Some("2026-01-01"), Some("DE"));
    DocumentIsCurrent(d);
    hide *;
    ApprovedIs(ONE_PROOF, d);
  }

  lemma DocumentIsCurrent(d: AddressDocument)
    requires d == AddressDocument(PASSED, Some("2026-01-01"), Some("DE"))
    ensures var o := ApprovedOutcome([d], Some("DE"), 1000 * FEBRUARY);
            o.status.Current? && o.currentUntil == Some(1000 * APRIL)
  {
    hide ParseIsoDate, AddMonthsClamped, NormalizeCountry, ApprovedOutcome;
    IssueDateIsRead(d.issueDate.value);
    ThreeMonthsLater(20_454);
    CountryIsRead();
    OneDocument(d, 1000 * FEBRUARY, 20_454, 20_544);
  }

  lemma ApprovedIs(proof: Decision, d: AddressDocument)
    requires proof == ONE_PROOF && d == AddressDocument(PASSED, Some("2026-01-01"), Some("DE"))
    ensures AddressOutcomeOf(Proof()) == ApprovedOutcome([d], Some("DE"), 1000 * FEBRUARY)
  {
    hide ApprovedOutcome;
    assert proof.addressDocuments == [d];
  }

  const PROOF_OPENING := [
    ReserveAddressStep("acct", "proof-start", 1000 * MID_JANUARY + 1),
    CompleteAddressStep("acct", "proof-start", "proof", NotStarted, 1000 * MID_JANUARY + 2)]

  ghost function Verified(): Db { Do(Opened(), Approval("1", MID_JANUARY)).0 }

  ghost function BothOpen(): Db { Do(Do(Verified(), PROOF_OPENING[0]).0, PROOF_OPENING[1]).0 }

  lemma VerifiedIs()
    ensures Verified().accounts == {"acct"} && Verified().rows.Keys == {"acct"} && Inv(Verified())
    ensures Verified().claimed == {StartedKey("session"), WebhookKey("1")}
    ensures var r := Verified().rows["acct"];
            && r.residence == r.tax == Some("DE") && r.address == NO_ADDRESS && r.baseline.reference == Some("session")
            && r.baseline.state.Eligible? && !r.baseline.everReviewed
                  && r.baseline.providerUpdatedAt == Some(1000 * MID_JANUARY)
  {
    hide Opened, OutcomeOf, Do, Inv, Holder, BaselineRow, Target;
    var s := Approval("1", MID_JANUARY);
    OpenedIs();
    UniqueOfInv(Opened());
    HolderIs(Opened(), "session", "acct");
    InvKept(Opened(), s);
    OutcomeRows(Opened(), s);
    DoRewrites(Opened(), s);
    ApprovalIsEligible("1", MID_JANUARY);
    ApprovedRow(OPEN_ROW, s);
  }

  lemma ApprovedRow(row: Row, s: Step)
    requires s.OutcomeStep? && OutcomeOf(s).state.Eligible? && !s.readReviewed
              && !IsStale(row.baseline.providerUpdatedAt, s.at)
    ensures var r := BaselineRow(row, s.providerStatus, s.at, OutcomeOf(s));
            && r.residence == row.residence && r.tax == row.tax && r.address == row.address
            && r.baseline.reference == row.baseline.reference && r.baseline.state.Eligible? && !r.baseline.everReviewed
            && r.baseline.providerUpdatedAt == Some(s.at)
  {
    hide Evaluate;
  }

  lemma BothOpenIs()
    ensures Inv(BothOpen()) && Holds(BothOpen(), "session", "acct") && HoldsAddress(BothOpen(), "proof", "acct")
    ensures BothOpen().claimed == {StartedKey("session"), WebhookKey("1"), AddressStartedKey("proof")}
    ensures var r := BothOpen().rows["acct"];
            && r.residence == r.tax == Some("DE") && !r.baseline.everReviewed
                  && r.baseline.providerUpdatedAt == Some(1000 * MID_JANUARY)
            && r.address.providerUpdatedAt == Some(1000 * MID_JANUARY + 2)
  {
    hide Verified, Evaluate, Do, Inv;
    VerifiedIs();
    InvKept(Verified(), PROOF_OPENING[0]);
    InvKept(Do(Verified(), PROOF_OPENING[0]).0, PROOF_OPENING[1]);
    ProofOpens(Verified());
  }

  lemma ProofOpens(db: Db)
    requires db.accounts == {"acct"} && db.rows.Keys == {"acct"} && db.rows["acct"].baseline.state.Eligible?
    requires db.rows["acct"].address == NO_ADDRESS && AddressStartedKey("proof") !in db.claimed
    ensures var next := Do(Do(db, PROOF_OPENING[0]).0, PROOF_OPENING[1]).0;
            && next.claimed == db.claimed + {AddressStartedKey("proof")} && next.rows.Keys == {"acct"}
            && next.rows["acct"].baseline == db.rows["acct"].baseline
            && next.rows["acct"].residence == db.rows["acct"].residence && next.rows["acct"].tax == db.rows["acct"].tax
            && next.rows["acct"].address.reference == Some("proof")
            && next.rows["acct"].address.providerUpdatedAt == Some(1000 * MID_JANUARY + 2)
  {
    var mid := Do(db, PROOF_OPENING[0]).0;
    assert IsAddressCreating(mid.rows["acct"], "proof-start");
  }

  lemma BothAreDelivered()
    ensures Plan(BothOpen(), CONFIG, StatusUpdate("2", "session", "kyc", "Approved", MAY),
              Answer("session", "kyc", Approved, ALL_PASSED))
         == Some(Approval("2", MAY))
    ensures Plan(BothOpen(), CONFIG, StatusUpdate("3", "proof", "poa", "Approved", FEBRUARY),
              Answer("proof", "poa", Approved, ONE_PROOF))
         == Some(Proof())
  {
    hide BothOpen, Inv, Unique, Holder, AddressHolder;
    BothOpenIs();
    UniqueOfInv(BothOpen());
    HolderIs(BothOpen(), "session", "acct");
    AddressHolderIs(BothOpen(), "proof", "acct");
    assert "1" != "2" && "1" != "3";
  }

  lemma ApprovalAndProofClash()
    ensures Clash(BothOpen(), Approval("2", MAY), Proof()) && Unique(BothOpen())
  {
    hide BothOpen, OutcomeOf, AddressOutcomeOf, Inv, Holder, AddressHolder, Unique;
    BothOpenIs();
    UniqueOfInv(BothOpen());
    HolderIs(BothOpen(), "session", "acct");
    AddressHolderIs(BothOpen(), "proof", "acct");
    ApprovalIsEligible("2", MAY);
    ProofIsCurrent();
    assert "1" != "2" && "1" != "3";
  }

  /**
   * The order of the two streams can show: from the empty table an account is verified and opens a
   * proof of address; evidence approved in February and ending in April, and a verification
   * renewed in May, leave different rows in the two orders.
   */
  lemma StreamsCanDisagree()
    ensures var run := OPENING + [Approval("1", MID_JANUARY)] + [PROOF_OPENING[0]] + [PROOF_OPENING[1]];
            After(Empty({"acct"}), run) == BothOpen()
    ensures var b, p := Approval("2", MAY), Proof();
            && Plan(BothOpen(), CONFIG, StatusUpdate("2", "session", "kyc", "Approved", MAY),
                  Answer("session", "kyc", Approved, ALL_PASSED)) == Some(b)
            && Plan(BothOpen(), CONFIG, StatusUpdate("3", "proof", "poa", "Approved", FEBRUARY),
                  Answer("proof", "poa", Approved, ONE_PROOF)) == Some(p)
            && Do(Do(BothOpen(), b).0, p).0.rows != Do(Do(BothOpen(), p).0, b).0.rows
  {
    hide After, Do, Plan, Clash;
    AfterMore(Empty({"acct"}), OPENING, Approval("1", MID_JANUARY));
    AfterMore(Empty({"acct"}), OPENING + [Approval("1", MID_JANUARY)], PROOF_OPENING[0]);
    AfterMore(Empty({"acct"}), OPENING + [Approval("1", MID_JANUARY)] + [PROOF_OPENING[0]], PROOF_OPENING[1]);
    BothAreDelivered();
    ApprovalAndProofClash();
    StreamsCommuteIff(BothOpen(), Approval("2", MAY), Proof());
  }

  // ---- The history ----

  const RENEWAL := RenewStep("acct", 1000 * MID_JANUARY + 2)

  const SECOND_OPENING := [
    ReserveStep("acct", "again", "DE", "DE", 1000 * MID_JANUARY + 3),
    CompleteStep("acct", "again", "session-2", NotStarted, 1000 * MID_JANUARY + 4)]

  ghost predicate IsVerifiedOnly(db: Db) {
    && db.accounts == {"acct"} && db.rows.Keys == {"acct"} && db.rows["acct"].baseline.state.Eligible?
    && db.rows["acct"].address == NO_ADDRESS
    && AddressStartedKey("proof") !in db.claimed && StartedKey("session-2") !in db.claimed
  }

  lemma RenewedDuringStart(db: Db)
    requires IsVerifiedOnly(db)
    ensures var v := Do(Do(Do(db, PROOF_OPENING[0]).0, RENEWAL).0, PROOF_OPENING[1]).0;
            && StateIn(v, "acct").RequiresRenewal?
            && v.history != [] && v.history[|v.history| - 1].account == "acct"
            && v.history[|v.history| - 1].previous.Eligible? && v.history[|v.history| - 1].next.Eligible?
  {
    var mid := Do(db, PROOF_OPENING[0]).0;
    assert IsAddressCreating(mid.rows["acct"], "proof-start");
    assert Do(mid, RENEWAL).0.rows["acct"].address == mid.rows["acct"].address;
  }

  lemma StartedInRenewal(db: Db)
    requires IsVerifiedOnly(db)
    ensures var u := Do(Do(db, RENEWAL).0, SECOND_OPENING[0]).0;
            var v := Do(u, SECOND_OPENING[1]).0;
            && StateIn(u, "acct").RequiresRenewal?
            && v.history != [] && v.history[|v.history| - 1].account == "acct"
            && v.history[|v.history| - 1].previous.StateNotStarted?
  {
    var u := Do(Do(db, RENEWAL).0, SECOND_OPENING[0]).0;
    assert IsCreating(u.rows["acct"], "again");
  }

  lemma VerifiedRun()
    ensures After(Empty({"acct"}), OPENING + [Approval("1", MID_JANUARY)]) == Verified() && IsVerifiedOnly(Verified())
  {
    hide After, Do, Inv;
    AfterMore(Empty({"acct"}), OPENING, Approval("1", MID_JANUARY));
    VerifiedIs();
    assert "session" != "session-2";
  }

  /**
   * The history does not always end in the account's state: a verified account starts its proof of address,
   * needs renewal before the provider has answered, and is then recorded as eligible.
   */
  lemma HistoryCanMisstate()
    ensures var v := After(Empty({"acct"}),
                           OPENING + [Approval("1", MID_JANUARY)] + [PROOF_OPENING[0]] + [RENEWAL]
                           + [PROOF_OPENING[1]]);
            Recorded(v.history, "acct").Eligible? && StateIn(v, "acct").RequiresRenewal?
  {
    hide After, Do, StateIn, Verified, IsVerifiedOnly;
    var start, run := Empty({"acct"}), OPENING + [Approval("1", MID_JANUARY)];
    VerifiedRun();
    AfterMore(start, run, PROOF_OPENING[0]);
    AfterMore(start, run + [PROOF_OPENING[0]], RENEWAL);
    AfterMore(start, run + [PROOF_OPENING[0]] + [RENEWAL], PROOF_OPENING[1]);
    RenewedDuringStart(Verified());
  }

  /** Nor does an entry always name the state it left: a session started for a renewal is recorded as the first one. */
  lemma EntryCanMisstate()
    ensures var u := After(Empty({"acct"}), OPENING + [Approval("1", MID_JANUARY)] + [RENEWAL] + [SECOND_OPENING[0]]);
            var v := Do(u, SECOND_OPENING[1]).0;
            && StateIn(u, "acct").RequiresRenewal?
            && v.history != [] && v.history[|v.history| - 1].account == "acct"
            && v.history[|v.history| - 1].previous.StateNotStarted?
  {
    hide After, Do, StateIn, Verified, IsVerifiedOnly;
    var start, run := Empty({"acct"}), OPENING + [Approval("1", MID_JANUARY)];
    VerifiedRun();
    AfterMore(start, run, RENEWAL);
    AfterMore(start, run + [RENEWAL], SECOND_OPENING[0]);
    StartedInRenewal(Verified());
  }
}
